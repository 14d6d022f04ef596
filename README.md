# xp2gdl90 in Dafny

xp2gdl90 is an X-Plane plugin that sends the simulator's own aircraft and the
traffic around it as GDL-90 messages over UDP. Electronic flight bag apps
read these messages. This project models the byte-exact parts of the system
and proves properties of the model:

- **The GDL-90 encoder** (`src/gdl90_encoder.cpp`). It covers:
  - the table-driven CRC-16 of the GDL 90 Data Interface Specification (560-1058-00 Rev A, section 2.2.3);
  - the 0x7D byte stuffing and the 0x7E flags of section 2.2.1;
  - the altitude, vertical velocity and track encoders;
  - the Heartbeat payload (section 3.1);
  - the 28-byte Ownship and Traffic reports (section 3.5).

  Its modules:
  - `Framing` holds the CRC table, the CRC, stuffing and framing, shared by every variant.
  - `CrcAlgebra` and `CrcPolynomial` prove that each table entry is i·x^16 mod x^16+x^12+x^5+1.
  - Together they prove that the CRC is the byte-wise remainder of the message polynomial.
  - `CrcExamples` checks the section 2.2.4 example frame and the receiver's sample frame.
  - `Fields`, `Gdl90Encoder` and `EncoderLemmas` model the field encoders and the payloads.
- **The other encoders.** Each is proved to frame exactly as the C++ encoder, and the places where its fields differ are stated:
  - `LegacyPlugin` models the legacy plugin `src/xp2gdl90.cpp`. It includes the TCAS callsign filter, the 30-second traffic activity rule and the network settings callback.
  - `PyEncoder` models the Python plugin `py/main.py`.
  - `MockSender` models the mock sender `reciever/mock_gdl90_sender.py`.
- **The receivers and validators.** Each is paired with the encoders by round-trip lemmas: decoding an encoded frame gives back its fields. Their statistics counters carry sum invariants.
  - `ReceiverDecoder` models `reciever/gdl90_decoder.py`, including the capture-file record layout.
  - `RealtimeCapture` and `CaptureSession` model `reciever/realtime_gdl90_capture.py`.
  - `NetworkCapture` models `gdl90tests/gdl90_network_capture.py`.
  - `FormatValidator` models `gdl90tests/gdl90_format_tests.py`.
  - `ComplianceValidator` models `gdl90tests/test_gdl90_compliance.py`.
- **Configuration.**
  - `ConfigText` and `ConfigManagement` model the INI file of `src/config.cpp`: its defaults, trimming, boolean words, the line parser over the C library number conversions, `load` with its all-or-nothing rollback, and `save` as a producer of lines.
  - `SaveLoadRoundTrip` proves that loading what `save` wrote gives the settings back.
  - `Settings` models the settings window helpers of `src/main.cpp`: path normalisation, the ICAO text, the screen rectangles, the key-driven field editor and the validation in `ApplyFieldsToConfig`.
- **Release tooling.**
  - `SemVer` models `SemanticVersion` of `scripts/bump_version.py`. The lemma `parse(str(v)) == v` holds, and so do the effects of each bump type.
  - `Release` models the commit categorisation, the changelog section order, and the tag and pre-release derivation of `scripts/release_manager.py`.

Bytes are integers in [0, 256) (`Bytes.byte`). The CRC register is a `bv16`. Python and C++ integer widths, masks and truncating divisions are written out where the source relies on them, except for the cases listed under "Left out".

The source's own objects become classes:
- a vector or bytearray that is changed in place becomes `Framing.ByteBuffer`;
- the mock sender's message counter becomes `MockSender.Sender`;
- the capture statistics become `CaptureSession.Capture` and `NetworkCapture.CaptureStats`;
- the configuration manager becomes `ConfigManagement.ConfigManager`;
- the settings window state becomes `Settings.SettingsWindow`;
- the legacy plugin's traffic slots and its settings become `LegacyPlugin.TrafficTarget` and `LegacyPlugin.PluginSettings`;
- the Python encoder object becomes `PyEncoder.InlineEncoder`.

Each of their methods is proved against a specification function.

The wall clock, the current git commit, git's answers and the float output of the rates are parameters of the model.

## Model

| member | source | states |
|---|---|---|
| Framing.CrcMaskedBytes | src/gdl90_encoder.cpp:75-78 | the `& 0xFF` masks applied to the two CRC bytes give the register's low byte and its high byte |
| Framing.CrcBytesValue | src/gdl90_encoder.cpp:75-78 | the two CRC bytes, read low byte first, give back the 16-bit CRC |
| Framing.Xor20Involution | src/gdl90_encoder.cpp:60-62 | flipping bit 5 twice gives back the byte, so an escaped 0x7D/0x7E is recoverable |
| Framing.EscapeAppend | src/gdl90_encoder.cpp:59-66 | stuffing works byte by byte: the stuffing of a concatenation is the concatenation of the stuffings |
| Framing.EscapeCons | src/gdl90_encoder.cpp:59-66 | stuffing a message is stuffing its first byte, then the rest |
| Framing.EscapeLength | src/gdl90_encoder.cpp:55-69 | the stuffed message is exactly one byte longer for every 0x7D or 0x7E in the input |
| Framing.EscapeFlagFree | src/gdl90_encoder.cpp:59-66 | no 0x7E is left in a stuffed message |
| Framing.EscapePlain | src/gdl90_encoder.cpp:59-66 | a message without 0x7D or 0x7E is sent unchanged |
| Framing.UnstuffEscape | src/gdl90_encoder.cpp:55-69 | the receivers' unstuffing gives back exactly the message that was stuffed |
| Framing.FrameFlags | src/gdl90_encoder.cpp:84-88 | in a frame, 0x7E occurs at the first and the last position and nowhere else |
| Framing.FrameLength | src/gdl90_encoder.cpp:71-91 | a frame is at least payload + 4 bytes and at most 2 × (payload + 2) + 2 bytes long |
| Framing.FrameInterior | src/gdl90_encoder.cpp:84-88 | a frame is a 0x7E, the stuffed payload with its CRC, and a closing 0x7E |
| Framing.FrameUnstuff | src/gdl90_encoder.cpp:71-91 | unstuffing the inside of a frame gives the payload followed by its CRC bytes, low byte first |
| Gdl90Encoder.CalculateCrc | src/gdl90_encoder.cpp:47-53 | the table-driven loop returns the CRC of the whole payload, starting from 0 |
| Gdl90Encoder.EscapeMessage | src/gdl90_encoder.cpp:55-69 | the push_back loop returns the byte-stuffed message |
| Gdl90Encoder.PrepareMessage | src/gdl90_encoder.cpp:71-91 | the result is the frame of the payload: flag, stuffed payload plus CRC low byte then high byte, flag |
| Gdl90Encoder.EncodeAltitude | src/gdl90_encoder.cpp:124-133 | the altitude code always lies in [0, 0xFFE] |
| Gdl90Encoder.EncodeVerticalVelocity | src/gdl90_encoder.cpp:135-154 | the code is a 12-bit value, and it is the "no data" code 0x800 exactly when the input is INT16_MIN |
| Gdl90Encoder.EncodeTrack | src/gdl90_encoder.cpp:156-159 | the track byte is the number of whole 360/256-degree steps in the direction modulo 360 |
| Gdl90Encoder.Misc | src/gdl90_encoder.cpp:231-233 | the misc nibble holds airborne in bit 3, bit 2 clear, and the track type in bits 1-0 |
| Gdl90Encoder.CallsignField | src/gdl90_encoder.cpp:256-260 | the field is 8 bytes: the first 8 callsign bytes, then spaces |
| Gdl90Encoder.HeartbeatPayload | src/gdl90_encoder.cpp:174-206 | the Heartbeat payload is 7 bytes long |
| Gdl90Encoder.PositionPayload | src/gdl90_encoder.cpp:210-263 | a position report payload is 28 bytes long |
| Gdl90Encoder.Pack24Bit | src/gdl90_encoder.cpp:161-166 | appends the low 24 bits of the value to the buffer, most significant byte first, and changes nothing else |
| Gdl90Encoder.CreateHeartbeat | src/gdl90_encoder.cpp:174-208 | returns the frame of the Heartbeat payload for the given second of the UTC day |
| Gdl90Encoder.PushEach | src/gdl90_encoder.cpp:258-260 | the range-for loop appends every byte of the padded callsign, in order |
| Gdl90Encoder.PushHeader | src/gdl90_encoder.cpp:213-227 | appends bytes 0-10 of the report: id, status/address nibbles, ICAO address, latitude, longitude |
| Gdl90Encoder.PushKinematics | src/gdl90_encoder.cpp:229-250 | appends bytes 11-17 of the report: altitude and misc, NIC/NACp, velocities, track |
| Gdl90Encoder.PushIdentity | src/gdl90_encoder.cpp:252-263 | appends bytes 18-27 of the report: emitter category, callsign, emergency code |
| Gdl90Encoder.BuildPositionPayload | src/gdl90_encoder.cpp:210-263 | the freshly built buffer holds exactly the 28-byte position payload |
| Gdl90Encoder.CreatePositionReport | src/gdl90_encoder.cpp:210-266 | returns the frame of the position payload for the given message id |
| Gdl90Encoder.CreateOwnshipReport | src/gdl90_encoder.cpp:268-270 | returns the framed position report with message id 0x0A |
| Gdl90Encoder.CreateTrafficReport | src/gdl90_encoder.cpp:272-274 | returns the framed position report with message id 0x14 |
| EncoderLemmas.AltitudeExamples | src/gdl90_encoder.cpp:124-133 | -1000 ft encodes as 0, 0 ft as 40, 1000 ft as 80, and a very high altitude saturates at 0xFFE |
| EncoderLemmas.AltitudeWithinOneStep | src/gdl90_encoder.cpp:124-133 | inside the range, the code is the 25 ft step above -1000 ft that holds the altitude |
| EncoderLemmas.AltitudeMonotone | src/gdl90_encoder.cpp:124-133 | a higher altitude never gets a lower code |
| EncoderLemmas.VerticalVelocityRoundTrip | src/gdl90_encoder.cpp:145-153 | within ±32576 fpm, the 12-bit two's complement field reads back as the rate / 64, truncated toward zero, and lies within 64 fpm of the rate |
| EncoderLemmas.VerticalVelocitySaturates | src/gdl90_encoder.cpp:141-143 | rates beyond ±32576 fpm, other than INT16_MIN, read back as ±510 units |
| EncoderLemmas.VerticalVelocityMonotone | src/gdl90_encoder.cpp:135-154 | a faster climb never encodes as a slower one |
| EncoderLemmas.TrackPeriodic | src/gdl90_encoder.cpp:156-159 | adding 360 degrees does not change the track byte |
| EncoderLemmas.TrackExample | src/gdl90_encoder.cpp:156-159 | 1° and 721° give 0, 90° gives 64, 180° gives 128, 270° gives 192 |
| EncoderLemmas.TrackWithinOneStep | src/gdl90_encoder.cpp:156-159 | the track byte is the 360/256-degree step that holds the direction modulo 360 |
| EncoderLemmas.ReportsDifferOnlyInId | src/gdl90_encoder.cpp:268-274 | ownship and traffic reports of the same data differ only in byte 0 (0x0A and 0x14) |
| EncoderLemmas.HeartbeatFields | src/gdl90_encoder.cpp:174-206 | the Heartbeat's status bits, its 17-bit timestamp (bit 16 in status byte 2, bits 15-0 little-endian) and its zero counts read back |
| EncoderLemmas.ReportHeaderFields | src/gdl90_encoder.cpp:213-227 | bytes 0-10 read back as the id, the two nibbles of byte 1, and the low 24 bits of address, latitude and longitude |
| EncoderLemmas.ReportKinematicsFields | src/gdl90_encoder.cpp:229-250 | bytes 11-17 read back as altitude code, misc, NIC, NACp, min(h, 0xFFE), vertical code and track byte |
| EncoderLemmas.ReportIdentityFields | src/gdl90_encoder.cpp:252-263 | bytes 18-27 read back as the emitter category, the 8-byte callsign field and the emergency code in the high nibble |
| EncoderLemmas.PositionPayloadFields | src/gdl90_encoder.cpp:210-263 | every field of the 28-byte report sits at its offset and reads back as encoded |
| Fields.Be24Value | src/gdl90_encoder.cpp:161-166 | the three bytes of a 24-bit group, weighted back, are the low 24 bits of the value |
| Fields.Be24RoundTrip | src/gdl90_encoder.cpp:161-166 | reading a written 24-bit group back gives the low 24 bits of the value |
| Fields.Signed12RoundTrip | src/gdl90_encoder.cpp:148-151 | reading a 12-bit two's complement field back gives the original value in [-2048, 2047] |
| CrcAlgebra.StepAlgebra | src/gdl90_encoder.cpp:50 | a table step computes register × x^8 + byte modulo x^16 + x^12 + x^5 + 1, given the table entry is the high byte × x^16 |
| CrcAlgebra.PolySnoc | src/gdl90_encoder.cpp:49-51 | the message polynomial of one byte more is the old one × x^8 plus the byte |
| CrcPolynomial.TableIsPolynomial | src/gdl90_encoder.cpp:9-42 | each of the 256 table entries is its index × x^16 modulo x^16 + x^12 + x^5 + 1 |
| CrcPolynomial.CrcStepIsPolynomial | src/gdl90_encoder.cpp:50 | one table step multiplies the register by x^8 and adds the byte, modulo the polynomial |
| CrcPolynomial.CrcIsPolynomial | src/gdl90_encoder.cpp:47-53 | the table-driven CRC of any message is the message's polynomial modulo x^16 + x^12 + x^5 + 1 |
| CrcExamples.SpecExampleCrc | gdl90tests/test_gdl90_compliance.py:326-328 | the example message 00 81 41 DB D0 08 02 has CRC 0x8BB3, sent as B3 8B |
| CrcExamples.SampleHeartbeatCrc | reciever/gdl90_decoder.py:328-329 | the Heartbeat payload 00 81 01 00 00 00 00 has CRC 0x9CBC |
| LegacyPlugin.MaskedStepAgrees | src/xp2gdl90.cpp:162-166 | the plugin's CRC step, with C's integer promotions and masks written out, is the shared table step |
| LegacyPlugin.CrcCompute | src/xp2gdl90.cpp:159-168 | gdl90_crc_compute returns the GDL-90 CRC of the whole buffer, starting from 0 |
| LegacyPlugin.AddCrc | src/xp2gdl90.cpp:170-174 | the message gains its CRC, low byte then high byte, and nothing else changes |
| LegacyPlugin.EscapeInPlace | src/xp2gdl90.cpp:176-187 | the message is replaced by its byte-stuffed copy |
| LegacyPlugin.PrepareMessage | src/xp2gdl90.cpp:189-195 | the plugin's framing yields exactly the shared frame of the payload |
| LegacyPlugin.Pack24Bit | src/xp2gdl90.cpp:197-201 | appends bits 23-16, 15-8 and 7-0 of the value and changes nothing else |
| LegacyPlugin.BuildHeartbeat | src/xp2gdl90.cpp:226-275 | the payload built from the UTC hour, minute and second is the shared Heartbeat payload with GPS valid and UTC OK |
| LegacyPlugin.CreateHeartbeat | src/xp2gdl90.cpp:226-278 | create_heartbeat returns the frame of that Heartbeat payload |
| LegacyPlugin.Misc | src/xp2gdl90.cpp:310-314 | the misc nibble is the shared one for "airborne unless on the ground" and true track: 0x9 in the air, 0x1 on the ground |
| LegacyPlugin.Upper | src/xp2gdl90.cpp:693 | toupper lowers a lower-case letter by 0x20 and leaves every other character alone |
| LegacyPlugin.KeptCharsAllowed | src/xp2gdl90.cpp:686-695 | every character the filter keeps is a digit, an upper-case letter or a space |
| LegacyPlugin.CStringStops | src/xp2gdl90.cpp:689 | the scan that stops at the first NUL reads exactly the C string |
| LegacyPlugin.FilteredCallsignShape | src/xp2gdl90.cpp:678-695 | the filtered callsign is 8 allowed GDL-90 callsign characters followed by a NUL |
| LegacyPlugin.TrafficTarget.constructor | src/xp2gdl90.cpp:1013-1019 | a new target holds its initial 8-character callsign, NUL-terminated, was never updated and is inactive |
| LegacyPlugin.TrafficTarget.ApplyFlightId | src/xp2gdl90.cpp:663-697 | the callsign is refiltered from the 7 characters at offset (i+1)×8 exactly when that slot lies within what was read and does not start with NUL or a space; otherwise it is untouched |
| LegacyPlugin.TrafficTarget.FilterCallsign | src/xp2gdl90.cpp:678-695 | after the memset and the copy loop the buffer holds the kept, upper-cased characters, space padding and a NUL |
| LegacyPlugin.TrafficTarget.UpdateActivity | src/xp2gdl90.cpp:707-714 | an absent aircraft goes inactive; an updated one is stamped and active; any other stays active only within 30 s of its last update; an active target is always present and fresh |
| LegacyPlugin.StrncpyCString | src/xp2gdl90.cpp:723-726 | the NUL-terminated strncpy copy reads back as the source cut to the buffer size minus one |
| LegacyPlugin.PluginSettings.ConfigCallback | src/xp2gdl90.cpp:721-736 | a non-empty address is copied (at most 15 characters, NUL-terminated) and an empty or null one keeps the old; a port outside 1..65535 is ignored; both switches are always taken |
| PyEncoder.CrcCompute | py/main.py:80-92 | returns the GDL-90 CRC of the data as two bytes, low byte first |
| PyEncoder.Pack24 | py/main.py:129-137 | raises ValueError exactly for values outside [0, 0xFFFFFF]; otherwise returns three bytes that read back big-endian as the value |
| PyEncoder.EscapeCopy | py/main.py:106-119 | returns the byte-stuffed copy of the message |
| PyEncoder.AddCrc | py/main.py:101-104 | extends the caller's bytearray with its CRC, low byte first, and nothing else |
| PyEncoder.PreparedMessage | py/main.py:121-127 | returns the shared frame of the original message and leaves the caller's bytearray extended with the CRC |
| PyEncoder.HeartbeatStatusBits | py/main.py:162-170 | status byte 1 is kept; of status byte 2 only bit 7 changes, to bit 16 of the timestamp; the timestamp is little-endian and the count 0 |
| PyEncoder.HeartbeatDefaultsAgree | py/main.py:157-172 | with the default status bytes 0x81 and 0x01 the Python Heartbeat payload is the C++ encoder's |
| PyEncoder.BuildHeartbeat | py/main.py:167-170 | the bytearray holds the Heartbeat payload of the two status bytes and the timestamp |
| PyEncoder.Altitude | py/main.py:218-220 | the altitude code always lies in [0, 0xFFE] |
| PyEncoder.HVelocity | py/main.py:233-237 | the horizontal velocity code sent always lies in [0, 0xFFE] |
| PyEncoder.HVelocityNoneIsNotNoData | py/main.py:233-237 | a missing speed becomes 0xFFF and the clamp then sends 0xFFE ("4094 kt or more") instead of the 0xFFF "no data" value |
| PyEncoder.HVelocityCorrected | py/main.py:233-237 | the corrected code is in [0, 0xFFF] and is 0xFFF exactly when the speed is missing |
| PyEncoder.HVelocityCorrectedAgrees | py/main.py:233-237 | the correction changes only the missing-speed case |
| PyEncoder.OwnshipVerticalVelocity | py/main.py:240-250 | the ownship vertical code is a 24-bit value (negative rates in 24-bit two's complement) |
| PyEncoder.TrafficVerticalVelocity | py/main.py:370-380 | the traffic vertical code is a 12-bit value (negative rates in 12-bit two's complement) |
| PyEncoder.VelocityMasksAgree | py/main.py:252-256 | since only bits 11-0 are packed, the ownship's 24-bit and the traffic's 12-bit complement give the same three bytes |
| PyEncoder.SameLow12 | py/main.py:252-256 | adding a multiple of 0x1000 to the vertical code does not change the packed bytes |
| PyEncoder.TrackAgrees | py/main.py:258-259 | for any direction the C++ encoder accepts, the Python track byte equals the C++ one |
| PyEncoder.TrafficStatusByte | py/main.py:327-333 | byte 1 of the traffic report carries the alert bit in bit 7, the address type in bits 6-4 and a zero low nibble |
| PyEncoder.TrafficStatusByteDiffers | py/main.py:332 | the Python layout puts an alert in bit 7 (0x80) where the C++ encoder puts it in bit 4 (0x10) |
| PyEncoder.Be24Low | py/main.py:336 | packing the address masked to 24 bits gives the three low bytes of the address |
| PyEncoder.CallsignFieldIdempotent | py/main.py:297 | cutting to 8 and padding a second time changes nothing |
| PyEncoder.CallsignPaddingAgrees | py/main.py:266 | (id + 8 spaces)[:8] is the stored 8-character id |
| PyEncoder.PushPyHeader | py/main.py:200-215 | appends the message id, the status byte and the packed address, latitude and longitude, and nothing else |
| PyEncoder.PushPyKinematics | py/main.py:217-259 | appends the altitude and misc, NIC/NACp, the velocity bytes and the track byte, and nothing else |
| PyEncoder.PushPyIdentity | py/main.py:261-271 | appends the emitter category, the callsign bytes and the emergency/spare byte, and nothing else |
| PyEncoder.OwnshipAgrees | py/main.py:174-273 | for integer inputs the C++ encoder also accepts, the Python Ownship payload is the C++ payload of the same fields |
| PyEncoder.TrafficAgrees | py/main.py:275-405 | for the same inputs and alert status 0, the Python Traffic payload is the C++ payload of the same fields |
| PyEncoder.KinematicsAgree | py/main.py:217-259 | the Python kinematic bytes are the C++ encoder's for inputs both accept |
| PyEncoder.VelocityBytesAgree | py/main.py:252-256 | with both codes within 12 bits the Python masks give the C++ velocity bytes |
| PyEncoder.InlineEncoder.constructor | py/main.py:97-99 | the id is cut to 8 characters and padded with spaces; the address is 0xABCDEF |
| PyEncoder.InlineEncoder.CreateHeartbeat | py/main.py:157-172 | returns the frame of the Heartbeat payload for the given UTC time of day and status bytes |
| PyEncoder.InlineEncoder.BuildPositionReport | py/main.py:200-271 | the bytearray holds the 28-byte Ownship payload |
| PyEncoder.InlineEncoder.CreatePositionReport | py/main.py:174-273 | returns the frame of the Ownship payload (id 0x0A) |
| PyEncoder.InlineEncoder.BuildTrafficReport | py/main.py:324-403 | the bytearray holds the 28-byte Traffic payload, with the defaults for a missing callsign or address |
| PyEncoder.InlineEncoder.CreateTrafficReport | py/main.py:275-405 | returns the frame of the Traffic payload (id 0x14) |
| PyEncoder.ReconstructTailnum | py/main.py:782-794 | the loop returns the tail number of slots 0-7: stop at a missing slot or a NUL, a printable code as itself, '?' otherwise |
| PyEncoder.TailnumFrom | py/main.py:782-794 | the tail number read from the slots has at most 8 characters |
| PyEncoder.TailnumUnfold | py/main.py:784-794 | one step of the scan: stop, take the printable character, or take '?' |
| PyEncoder.TailnumChars | py/main.py:782-794 | character i of the tail number comes from slot i |
| PyEncoder.TailnumPrintable | py/main.py:787-792 | every character of the rebuilt tail number is printable ASCII |
| PyEncoder.TailnumFull | py/main.py:784-794 | with all eight slots present and nonzero, the tail number has eight characters |
| MockSender.MockVerticalVelocity | reciever/mock_gdl90_sender.py:187-194 | the mock's vertical code is always a 12-bit value |
| MockSender.MockHVelocity | reciever/mock_gdl90_sender.py:184-185 | the speed is clamped to [0, 0xFFE] and sent unchanged inside that range |
| MockSender.ShiftMaskBytes | reciever/mock_gdl90_sender.py:152-166 | the shift-and-mask bytes of any Python integer are the big-endian bytes of its low 24 bits |
| MockSender.Sender.constructor | reciever/mock_gdl90_sender.py:50-54 | the message counter starts at 0 |
| MockSender.Sender.ComputeCrc | reciever/mock_gdl90_sender.py:56-63 | the mock computes the same GDL-90 CRC as the plugin |
| MockSender.Sender.EscapeData | reciever/mock_gdl90_sender.py:65-74 | returns the byte-stuffed data |
| MockSender.Sender.CreateFrame | reciever/mock_gdl90_sender.py:76-94 | the mock's frame is the plugin's frame of the same payload |
| MockSender.Sender.CreateHeartbeat | reciever/mock_gdl90_sender.py:96-127 | returns the framed Heartbeat carrying the current counter and advances the counter by exactly one |
| MockSender.Sender.CreateTrafficReport | reciever/mock_gdl90_sender.py:145-214 | returns the frame of the 28-byte Traffic payload of the inputs |
| MockSender.BuildHeartbeat | reciever/mock_gdl90_sender.py:103-124 | the bytes appended before framing are the mock's Heartbeat payload |
| MockSender.BuildTrafficReport | reciever/mock_gdl90_sender.py:149-212 | the bytes appended before framing are the mock's Traffic payload |
| MockSender.PushAddressAndPosition | reciever/mock_gdl90_sender.py:152-166 | after the id, appends status 0 and the address, latitude and longitude bytes |
| MockSender.PushKinematics | reciever/mock_gdl90_sender.py:168-200 | appends altitude and misc, NIC/NACp, the velocity bytes and the track byte, and nothing else |
| MockSender.PushIdentity | reciever/mock_gdl90_sender.py:202-212 | appends emitter category 1, the callsign padded to 8 and the emergency byte 0, and nothing else |
| MockSender.HeartbeatFields | reciever/mock_gdl90_sender.py:103-124 | the first five bytes are the plugin's Heartbeat with GPS valid and UTC OK, and the count field reads back as the counter modulo 2^16 |
| MockSender.HeartbeatCountsAdvance | reciever/mock_gdl90_sender.py:122-126 | two Heartbeats in a row carry consecutive counts, modulo 2^16 |
| MockSender.ZeroVerticalSpeedIsNoData | reciever/mock_gdl90_sender.py:187-188 | level flight is sent as the "no data" code 0x800, where the plugin sends 0 |
| MockSender.VerticalVelocityAgrees | reciever/mock_gdl90_sender.py:189-194 | any other vertical speed the plugin does not saturate is encoded as the plugin encodes it |
| MockSender.FastClimbWraps | reciever/mock_gdl90_sender.py:189-194 | without a clamp, 131072 fpm wraps to the "no data" code, where the Python plugin saturates to 0x1FE |
| MockSender.TrafficAgreesWithPlugin | reciever/mock_gdl90_sender.py:145-214 | for a nonzero vertical speed in range, the mock's Traffic payload is the Python plugin's for the same inputs |
| MockSender.KinematicsAgree | reciever/mock_gdl90_sender.py:168-200 | the mock's kinematic bytes are the Python plugin's for a nonzero vertical speed in range |
| ReceiverDecoder.ComputeCrc | reciever/gdl90_decoder.py:51-58 | the receiver's CRC loop returns the encoders' GDL-90 CRC as a 16-bit integer |
| ReceiverDecoder.UnescapeData | reciever/gdl90_decoder.py:60-72 | the loop returns the unstuffed data, a final lone 0x7D kept as it is |
| ReceiverDecoder.MessageTypeName | reciever/gdl90_decoder.py:127-135 | exactly the ids 0x00, 0x0A, 0x0B and 0x14 have names; any other is "Unknown" with its id |
| ReceiverDecoder.Signed24 | reciever/gdl90_decoder.py:200-202 | the sign-extended value lies in [-2^23, 2^23) and has the raw value as its 24-bit pattern |
| ReceiverDecoder.DecodeHeartbeat | reciever/gdl90_decoder.py:148-170 | fewer than 6 bytes is exactly the "too short" error; otherwise the 17-bit timestamp splits into hours, minutes and seconds that add back up to it |
| ReceiverDecoder.ClockParts | reciever/gdl90_decoder.py:166-168 | hours × 3600 + minutes × 60 + seconds is the timestamp, with minutes and seconds below 60 |
| ReceiverDecoder.PrintableChars | reciever/gdl90_decoder.py:274 | each callsign byte 32..126 becomes its character and any other a space |
| ReceiverDecoder.RStrip | reciever/gdl90_decoder.py:275 | the result is the text without its trailing spaces: a prefix that does not end in a space, followed in the input only by spaces |
| ReceiverDecoder.DecodeVerticalVelocity | reciever/gdl90_decoder.py:254-260 | 0x800 is exactly "No data"; any other code is its 12-bit two's complement value times 64 fpm |
| ReceiverDecoder.DecodeStatus | reciever/gdl90_decoder.py:181-192 | an ownship byte splits into two nibbles that rebuild it; a traffic byte into a 1-bit alert and a 3-bit address type that rebuild its high nibble |
| ReceiverDecoder.DecodePositionReport | reciever/gdl90_decoder.py:172-176 | fewer than 27 bytes is exactly the "too short" error, which reports the length received |
| ReceiverDecoder.DecodeMessage | reciever/gdl90_decoder.py:137-146 | ids 0x00, 0x0A and 0x14 go to the Heartbeat, ownship and traffic decoders; any other keeps its raw data |
| ReceiverDecoder.ReceivedCrc | reciever/gdl90_decoder.py:94 | as written, the received CRC is a 16-bit value that reads the two CRC bytes in the reverse of the encoders' low-byte-first order, so it matches the encoders' reading exactly when the two bytes are equal |
| ReceiverDecoder.ReceivedCrcCorrected | reciever/gdl90_decoder.py:94 | corrected, the received CRC is read low byte first, as the encoders write it |
| ReceiverDecoder.DecodeUnescaped | reciever/gdl90_decoder.py:92-124 | the CRC is valid exactly when the received value equals the CRC of the data before it, and the message is decoded exactly when the CRC is valid |
| ReceiverDecoder.DecodeFrameSpec | reciever/gdl90_decoder.py:74-90 | "too short" exactly below 5 bytes, "invalid flags" exactly when a longer frame lacks a 0x7E at either end, "payload too short" exactly when the unstuffed interior is below 3 bytes |
| ReceiverDecoder.DecodeFrameCorrected | reciever/gdl90_decoder.py:74-81 | the corrected decoder keeps the same length and flag errors |
| ReceiverDecoder.DecodeFrame | reciever/gdl90_decoder.py:74-124 | decode_frame, with its unstuffing and CRC loops, returns what the frame decoding definition gives |
| ReceiverDecoder.FrameReachesCrcCheck | reciever/gdl90_decoder.py:76-90 | a frame from the encoders passes the length and flag checks and unstuffs to its payload and CRC bytes |
| ReceiverDecoder.AsWrittenCrcCheck | reciever/gdl90_decoder.py:92-98 | as written, an encoder's frame passes the CRC check only when the two CRC bytes happen to be equal |
| ReceiverDecoder.FrameDecodesUnescaped | reciever/gdl90_decoder.py:74-124 | both decoders take an encoder's frame to the CRC check on its payload and CRC bytes |
| ReceiverDecoder.SwappedCheck | reciever/gdl90_decoder.py:94-98 | reading the CRC bytes high byte first accepts a correctly written CRC exactly when its two bytes are equal |
| ReceiverDecoder.SampleFrameRejected | reciever/gdl90_decoder.py:328-333 | the sample frame labelled "with correct CRC" is the encoders' frame of its Heartbeat payload, and the decoder as written rejects it |
| ReceiverDecoder.CorrectedRoundTrip | reciever/gdl90_decoder.py:74-124 | read low byte first, every encoder frame passes the CRC check and decodes its message id, name and body |
| ReceiverDecoder.InOrderCheck | reciever/gdl90_decoder.py:94-121 | a payload followed by its CRC low byte then high byte passes the corrected check and is decoded |
| ReceiverDecoder.SampleFrameAcceptedCorrected | reciever/gdl90_decoder.py:328-333 | the corrected decoder accepts the sample frame |
| ReceiverDecoder.MessageIdAlwaysPresent | reciever/gdl90_decoder.py:110-122 | once the length checks pass, the "No message ID found" branch cannot be reached |
| ReceiverDecoder.HeartbeatRoundTrip | reciever/gdl90_decoder.py:148-170 | an encoder Heartbeat decodes to its 17-bit timestamp, a zero count and its GPS-valid and UTC-OK bits |
| ReceiverDecoder.MockHeartbeatRoundTrip | reciever/gdl90_decoder.py:148-170 | a mock-sender Heartbeat decodes to its timestamp and the low 16 bits of its counter |
| ReceiverDecoder.PositionHeaderRoundTrip | reciever/gdl90_decoder.py:181-213 | a report's status byte, address, latitude and longitude decode to the values encoded (the position modulo 2^24) |
| ReceiverDecoder.PositionKinematicsRoundTrip | reciever/gdl90_decoder.py:215-266 | altitude step, misc bits, NIC, NACp, both velocities and the track byte decode to what was encoded |
| ReceiverDecoder.DecodedVelocities | reciever/gdl90_decoder.py:245-247 | the decoder's shifts and masks take the three velocity bytes back to the two 12-bit codes |
| ReceiverDecoder.DecodedAltitudeMisc | reciever/gdl90_decoder.py:216-218 | the decoder's shifts and masks take the two bytes back to the 12-bit altitude and the misc nibble |
| ReceiverDecoder.PositionIdentityRoundTrip | reciever/gdl90_decoder.py:268-280 | emitter category, the callsign field as text and the emergency code decode to what was encoded |
| ReceiverDecoder.VerticalVelocityDecoded | reciever/gdl90_decoder.py:254-260 | the encoded rate decodes as "No data" exactly for INT16_MIN, and in range as the rate truncated to 64 fpm |
| ReceiverDecoder.AltitudeDecoded | reciever/gdl90_decoder.py:223 | in the encodable range the decoded altitude is at most 25 ft below the true one and never above it |
| ReceiverDecoder.OwnshipStatusRoundTrip | reciever/gdl90_decoder.py:188-191 | ownship status and address-type nibbles come back as written |
| ReceiverDecoder.PyTrafficStatusRoundTrip | reciever/gdl90_decoder.py:181-185 | the traffic split recovers the Python encoder's alert bit and 3-bit address type |
| ReceiverDecoder.CppTrafficStatusMisread | reciever/gdl90_decoder.py:181-185 | on the C++ nibble layout the traffic split reads bit 3 of the alert status as the alert and its low three bits as the address type |
| ReceiverDecoder.RStripPadding | reciever/gdl90_decoder.py:275 | rstrip removes exactly the padding spaces after a text that does not end in a space |
| ReceiverDecoder.CallsignRoundTrip | reciever/gdl90_decoder.py:272-275 | a printable callsign of at most 8 characters not ending in a space decodes to itself |
| ReceiverDecoder.LittleEndianRoundTrip | reciever/gdl90_decoder.py:296-297 | a value that fits in n bytes is read back from its n little-endian bytes |
| ReceiverDecoder.DecodeRecords | reciever/gdl90_decoder.py:304-307 | one packet per record, in file order, each the record's frame decoded with its capture time |
| ReceiverDecoder.DecodePacketsFromFile | reciever/gdl90_decoder.py:284-314 | a missing file gives no packets; otherwise the loop decodes exactly the records the file holds, stopping at a short header or a short frame |
| ReceiverDecoder.RecordsStep | reciever/gdl90_decoder.py:292-307 | reading one more whole record appends the next record of the file |
| ReceiverDecoder.RecordsRoundTrip | reciever/test_udp_capture.py:73-82 | reading back a file save_packets wrote gives every record as written |
| ReceiverDecoder.EncodeRecords | reciever/test_udp_capture.py:73-82 | every record takes at least its 12 header bytes, and the file is empty exactly when there are no records |
| ReceiverDecoder.EncodeRecord | reciever/test_udp_capture.py:73-82 | a record takes 12 header bytes plus its data |
| ReceiverDecoder.RecordsAfter | reciever/test_udp_capture.py:76-82 | the records written after any bytes already read are read back in order |
| ReceiverDecoder.RecordStep | reciever/test_udp_capture.py:78-82 | a record written at a position is read back there, and reading resumes right after its bytes |
| RealtimeCapture.UnescapeSpec | reciever/realtime_gdl90_capture.py:76-79 | data shorter than 2 bytes or without a 0x7E at both ends is returned unchanged |
| RealtimeCapture.UnescapeData | reciever/realtime_gdl90_capture.py:76-93 | the flag check and the index-driven loop return the unstuffed interior of a flagged frame, and anything else as it is |
| RealtimeCapture.DecodeVelocity | reciever/realtime_gdl90_capture.py:112-116 | as written, 0xFFE is exactly the "No data" case; any other code is reported as sent |
| RealtimeCapture.DecodeAltitude | reciever/realtime_gdl90_capture.py:106-110 | the result is 25 ft per step above -1000 ft for every code, the special case of 0 included, and a 12-bit code lies in [-1000, 101375] |
| RealtimeCapture.DecodeVerticalVelocity | reciever/realtime_gdl90_capture.py:118-129 | "No data" exactly for 0x800; otherwise a multiple of 64 fpm, within ±0x800 steps, negative exactly for codes above 0x800 |
| RealtimeCapture.DecodeVelocityCorrected | reciever/realtime_gdl90_capture.py:112-116 | corrected, 0xFFF is exactly the "No data" case, as in the offline decoder |
| RealtimeCapture.AsciiIgnore | reciever/realtime_gdl90_capture.py:220 | the decoded text is no longer than the bytes and holds only ASCII characters |
| RealtimeCapture.Strip | reciever/realtime_gdl90_capture.py:220 | the stripped text is no longer than the input and neither starts nor ends with whitespace |
| RealtimeCapture.DecodeHeartbeat | reciever/realtime_gdl90_capture.py:135-165 | fewer than 7 payload bytes is exactly the "too short" error; otherwise a Heartbeat is decoded |
| RealtimeCapture.DecodePositionReport | reciever/realtime_gdl90_capture.py:167-246 | fewer than 28 bytes is exactly the "too short" error; a traffic report and only a traffic report carries an address and an alert byte |
| RealtimeCapture.DecodePacket | reciever/realtime_gdl90_capture.py:251-292 | "too short" exactly when fewer than 3 bytes unstuff; otherwise the CRC is valid exactly when received and computed CRC agree |
| RealtimeCapture.PayloadBody | reciever/realtime_gdl90_capture.py:278-289 | the body is "Unknown" exactly for ids other than 0x00, 0x0A and 0x14 |
| RealtimeCapture.FrameUnescapes | reciever/realtime_gdl90_capture.py:76-93 | an encoder frame unstuffs to its payload followed by its CRC bytes |
| RealtimeCapture.PacketOfUnescaped | reciever/realtime_gdl90_capture.py:258-292 | a payload followed by its CRC low byte then high byte passes the check and its body is decoded |
| RealtimeCapture.FrameRoundTrip | reciever/realtime_gdl90_capture.py:251-292 | every frame the encoders produce passes the low-byte-first CRC check and its payload is decoded |
| RealtimeCapture.CrcTail | reciever/realtime_gdl90_capture.py:262-263 | the last two bytes of a payload with its CRC, read little-endian, are the CRC of the payload |
| RealtimeCapture.HeartbeatAgrees | reciever/realtime_gdl90_capture.py:135-165 | the real-time and offline Heartbeat decoders accept the same payloads and read the same fields |
| RealtimeCapture.VerticalVelocityAgrees | reciever/realtime_gdl90_capture.py:118-129 | the vertical rate decodes exactly as in the offline decoder |
| RealtimeCapture.AltitudeIsLinear | reciever/realtime_gdl90_capture.py:106-110 | the special case for 0 changes nothing, and 0xFFF is reported as 101375 ft rather than "Invalid" |
| RealtimeCapture.PositionAgrees | reciever/realtime_gdl90_capture.py:176-216 | latitude, longitude, NIC/NACp, vertical rate, track and emitter category agree with the offline decoder; traffic adds the address and the whole status byte |
| RealtimeCapture.SpeedAsWritten | reciever/realtime_gdl90_capture.py:112-116 | as written, an encoded speed at or above 0xFFE knots is reported as "No data"; lower speeds come back as sent |
| RealtimeCapture.SpeedCorrected | reciever/realtime_gdl90_capture.py:205-208 | with 0xFFF as "No data", every encoded speed comes back, clamped to 0xFFE as the encoders clamp it |
| RealtimeCapture.EmergencyCodeCorrected | reciever/realtime_gdl90_capture.py:223 | the corrected emergency code is a 4-bit value |
| RealtimeCapture.EmergencyAsWritten | reciever/realtime_gdl90_capture.py:223 | as written, the whole byte 27 is reported, so an encoded code c comes back as 16 c |
| RealtimeCapture.EmergencyCorrected | reciever/realtime_gdl90_capture.py:223 | read as the high nibble, byte 27 gives back the code the encoders wrote |
| RealtimeCapture.PositionHeaderRoundTrip | reciever/realtime_gdl90_capture.py:176-191 | latitude, longitude and, for traffic, the address come back from an encoded report |
| RealtimeCapture.PositionKinematicsRoundTrip | reciever/realtime_gdl90_capture.py:199-216 | NIC/NACp, vertical rate, track and emitter category come back from an encoded report |
| RealtimeCapture.AltitudeRoundTrip | reciever/realtime_gdl90_capture.py:193-197 | the altitude comes back as the encoded 25 ft step |
| RealtimeCapture.AltitudeField | reciever/realtime_gdl90_capture.py:194-197 | the altitude is decoded from the top 12 bits of bytes 11-12 |
| RealtimeCapture.AsciiIgnorePlain | reciever/realtime_gdl90_capture.py:220 | bytes below 128 survive the ASCII decode one for one |
| RealtimeCapture.StripSpaces | reciever/realtime_gdl90_capture.py:220 | a run of spaces strips to nothing |
| RealtimeCapture.StripPadding | reciever/realtime_gdl90_capture.py:220 | strip removes exactly the padding spaces after a text that neither starts nor ends with whitespace |
| RealtimeCapture.CallsignFieldText | reciever/realtime_gdl90_capture.py:219-220 | the decoded and stripped callsign field of a short printable callsign is the callsign |
| RealtimeCapture.CallsignRoundTrip | reciever/realtime_gdl90_capture.py:219-220 | a printable callsign of at most 8 characters, not starting or ending with a space, comes back from an encoded report as given |
| CaptureSession.HexDigit | reciever/realtime_gdl90_capture.py:286 | a hexadecimal digit is 0-9 or an upper-case A-F |
| CaptureSession.MessageType | reciever/realtime_gdl90_capture.py:313 | a packet too short to decode is counted as "Unknown" |
| CaptureSession.CountValid | reciever/realtime_gdl90_capture.py:305-306 | no more packets are CRC-valid than were received |
| CaptureSession.CountErrors | reciever/realtime_gdl90_capture.py:310-311 | no more packets carry an error than were received |
| CaptureSession.TallyCounts | reciever/realtime_gdl90_capture.py:313-314 | the message_types dictionary holds exactly the names seen, each with the number of packets that carried it |
| CaptureSession.MapSumRemove | reciever/realtime_gdl90_capture.py:314 | the sum of the counts can be taken starting from any name |
| CaptureSession.MapSumIncrement | reciever/realtime_gdl90_capture.py:314 | the get-plus-one update raises the sum of the counts by exactly one |
| CaptureSession.TallySum | reciever/realtime_gdl90_capture.py:301-314 | the counts of the message_types dictionary add up to the number of packets |
| CaptureSession.StatisticsSnoc | reciever/realtime_gdl90_capture.py:301-314 | one packet more adds exactly its own contribution to every counter and to the dictionary |
| CaptureSession.UnknownNamesDistinct | reciever/realtime_gdl90_capture.py:286 | different unknown message ids are counted under different names |
| CaptureSession.KnownNamesDistinct | reciever/realtime_gdl90_capture.py:301-314 | "Heartbeat" counts exactly the decoded Heartbeats, and "Unknown" exactly the results that carry an error |
| CaptureSession.Capture.constructor | reciever/realtime_gdl90_capture.py:59-66 | a new capture holds no packets and all its counters are zero |
| CaptureSession.Capture.UpdateStatistics | reciever/realtime_gdl90_capture.py:301-314 | one more packet; one more valid or one more CRC error; one more decode error when it carries an error; one more of its message type |
| CaptureSession.Capture.Receive | reciever/realtime_gdl90_capture.py:366-373 | the datagram is decoded and kept, and every counter still counts exactly the packets kept |
| CaptureSession.Capture.Keep | reciever/realtime_gdl90_capture.py:370-373 | the packet is appended and the statistics stay the counts over the packets kept |
| CaptureSession.Capture.CaptureAll | reciever/realtime_gdl90_capture.py:359-373 | after the loop the kept packets are the old ones followed by every datagram decoded in order, and the statistics match them |
| CaptureSession.DecodeAll | reciever/realtime_gdl90_capture.py:366-370 | one decoded packet per datagram, in the order received |
| CaptureSession.DecodeAllSnoc | reciever/realtime_gdl90_capture.py:366-370 | decoding one datagram more appends its packet |
| CaptureSession.EncodedFrameCounted | reciever/realtime_gdl90_capture.py:301-311 | every encoder frame counts as CRC-valid, and as a decode error only when too short for its message type |
| NetworkCapture.ToBits | gdl90tests/gdl90_network_capture.py:57-70 | a number gives exactly width bits |
| NetworkCapture.BitsOfNumber | gdl90tests/gdl90_network_capture.py:57-70 | reading the bits of a number built from bits gives them back |
| NetworkCapture.NumberOfBits | gdl90tests/gdl90_network_capture.py:57-70 | a number below 2^width is rebuilt from its own bits |
| NetworkCapture.ByteOfBits | gdl90tests/gdl90_network_capture.py:57-70 | a byte is the weighted sum of its eight bits, bit k weighing 2^k |
| NetworkCapture.FromBitsAt | gdl90tests/gdl90_network_capture.py:57-70 | the bits from position i on stand for bit i plus twice the rest |
| NetworkCapture.DecodeHeartbeat | gdl90tests/gdl90_network_capture.py:51-93 | anything but exactly six bytes is the length error; otherwise the timestamp has 17 bits, the uplink count 5 and the basic/long count 10 |
| NetworkCapture.StatusByteBound | gdl90tests/gdl90_network_capture.py:57-70 | a status byte built from its bits fits its width |
| NetworkCapture.Status1Flags | gdl90tests/gdl90_network_capture.py:57-63 | each flag of status byte 1 is read from its own bit, whatever the reserved bit holds |
| NetworkCapture.Status1Decomposed | gdl90tests/gdl90_network_capture.py:57-63 | status byte 1 is rebuilt from the flags read from it and its reserved bit |
| NetworkCapture.Status2Flags | gdl90tests/gdl90_network_capture.py:65-68 | each flag of status byte 2 is read from its own bit, whatever the reserved bits hold |
| NetworkCapture.Status2Decomposed | gdl90tests/gdl90_network_capture.py:65-68 | status byte 2 is rebuilt from the flags read from it and its reserved bits |
| NetworkCapture.CountBytes | gdl90tests/gdl90_network_capture.py:73-75 | the two message-count bytes of Table 3 are two bytes |
| NetworkCapture.CountsRoundTrip | gdl90tests/gdl90_network_capture.py:73-75 | the uplink and basic/long counts read back as written |
| NetworkCapture.HeartbeatRoundTrip | gdl90tests/gdl90_network_capture.py:51-93 | an encoder Heartbeat reads back with its timestamp, GPS-valid, UAT-initialized and UTC-OK flags and zero counts |
| NetworkCapture.EncoderStatusBits | gdl90tests/gdl90_network_capture.py:57-68 | of the two status bytes the C++ encoder writes, only GPS valid, UAT initialized, timestamp bit 16 and UTC OK can be set |
| NetworkCapture.TwoFlagBits | gdl90tests/gdl90_network_capture.py:57-68 | a byte with at most its lowest and highest bits set has exactly those bits |
| NetworkCapture.DecodePositionReport | gdl90tests/gdl90_network_capture.py:95-98 | anything but exactly 27 bytes is the length error |
| NetworkCapture.PositionAgreesWithCompliance | gdl90tests/gdl90_network_capture.py:95-182 | the network decoder accepts exactly what the compliance validator accepts and reads every field the same |
| NetworkCapture.Analyze | gdl90tests/gdl90_network_capture.py:184-200 | a datagram is invalid exactly when the structure check rejects it, and then its length is reported |
| NetworkCapture.FrameAnalysed | gdl90tests/gdl90_network_capture.py:184-236 | every encoder frame is valid and classified by its id, with the Heartbeat or position details of its data |
| NetworkCapture.CaptureStats.constructor | gdl90tests/gdl90_network_capture.py:26-36 | all counters start at zero |
| NetworkCapture.CaptureStats.AnalyzeMessage | gdl90tests/gdl90_network_capture.py:184-236 | returns the analysis of the datagram and counts it once: as valid and under its message kind, or as invalid and as a CRC or a format error |
| FormatValidator.ValidateMessageStructure | gdl90tests/gdl90_format_tests.py:91-137 | below 5 bytes, a bad start flag and a bad end flag are each exactly their own error; a valid result reports the frame length and a 16-bit CRC |
| FormatValidator.UnstuffedValidates | gdl90tests/gdl90_format_tests.py:107-137 | a flagged frame unstuffing to a payload and its CRC low byte first passes, with that payload's id, data and CRC |
| FormatValidator.FrameValidates | gdl90tests/gdl90_format_tests.py:91-137 | every encoder frame passes and gives back its payload as id and data |
| FormatValidator.FlaggedValidates | gdl90tests/gdl90_format_tests.py:107-137 | a flagged frame whose interior unstuffs to a payload with its CRC passes |
| FormatValidator.LittleEndianInjective | gdl90tests/gdl90_format_tests.py:123 | two bytes are determined by their little-endian value |
| FormatValidator.ValidatedIsFramed | gdl90tests/gdl90_format_tests.py:91-137 | conversely, only a flagged frame whose interior unstuffs to a payload followed by its CRC passes |
| FormatValidator.CrcCheckedIsWithCrc | gdl90tests/gdl90_format_tests.py:119-130 | bytes whose last two are the CRC of the rest are that rest with its CRC appended |
| FormatValidator.CrcBytesUnique | gdl90tests/gdl90_format_tests.py:123-130 | only the two bytes the encoders append read back as the CRC of a payload |
| FormatValidator.ValidateHeartbeat | gdl90tests/gdl90_format_tests.py:139-154 | anything but six bytes is the length error; a valid timestamp lies within the day, a rejected one beyond it |
| FormatValidator.EncodedHeartbeatValidates | gdl90tests/gdl90_format_tests.py:139-154 | an encoder Heartbeat passes exactly when its timestamp is within the day |
| FormatValidator.MockHeartbeatValidates | gdl90tests/gdl90_format_tests.py:139-154 | a mock-sender Heartbeat passes exactly when its timestamp is within the day, whatever its count |
| FormatValidator.FirstBadCallsignByte | gdl90tests/gdl90_format_tests.py:174-177 | the position found is the first disallowed callsign byte, and none is found exactly when all are allowed |
| FormatValidator.ValidateTrafficReport | gdl90tests/gdl90_format_tests.py:156-179 | anything but 27 bytes is the length error; a rejected callsign names a disallowed byte within the 8; a valid report gives a 24-bit address |
| FormatValidator.EncodedTrafficValidates | gdl90tests/gdl90_format_tests.py:156-179 | a report whose callsign holds only digits, upper-case letters and spaces passes, with its address |
| FormatValidator.EncodedTrafficRejected | gdl90tests/gdl90_format_tests.py:174-177 | a callsign is rejected at its first disallowed byte |
| ComplianceValidator.ParseMessage | gdl90tests/test_gdl90_compliance.py:86-123 | below 5 bytes and a missing flag at either end are each exactly their own error; the reported length is that of the data |
| ComplianceValidator.ParseAgreesWithStructure | gdl90tests/test_gdl90_compliance.py:86-123 | parse_message and the format validator reach the same verdict on every input, and agree on id and data |
| ComplianceValidator.FlaggedParses | gdl90tests/test_gdl90_compliance.py:94-123 | a flagged frame unstuffing to a payload followed by its CRC parses to that payload |
| ComplianceValidator.FrameParses | gdl90tests/test_gdl90_compliance.py:86-123 | every encoder frame parses and gives back its payload |
| ComplianceValidator.SpecExampleParses | gdl90tests/test_gdl90_compliance.py:324-329 | the Heartbeat example of section 2.2.4 of the GDL 90 Data Interface Specification is the encoders' frame of its payload and parses with six data bytes |
| ComplianceValidator.ValidateHeartbeat | gdl90tests/test_gdl90_compliance.py:126-147 | anything but six bytes is the length error; the timestamp has 17 bits and the counts 16 |
| ComplianceValidator.HeartbeatRoundTrip | gdl90tests/test_gdl90_compliance.py:126-147 | an encoder Heartbeat reads back with its timestamp, flags and a zero count |
| ComplianceValidator.HeartbeatAgreesWithFormat | gdl90tests/test_gdl90_compliance.py:126-147 | both validators read the same timestamp; only the format validator bounds it by a day |
| ComplianceValidator.AsciiReplace | gdl90tests/test_gdl90_compliance.py:221 | each byte below 128 becomes its character, any other U+FFFD |
| ComplianceValidator.RStripWhitespace | gdl90tests/test_gdl90_compliance.py:221 | the result is the text without its trailing whitespace |
| ComplianceValidator.DecodeHorizontalVelocity | gdl90tests/test_gdl90_compliance.py:208-212 | 0xFFF is exactly "no data"; any other code, 0xFFE included, is the speed itself |
| ComplianceValidator.ValidatePositionReport | gdl90tests/test_gdl90_compliance.py:150-153 | anything but 27 bytes is the length error |
| ComplianceValidator.VelocityHalves | gdl90tests/test_gdl90_compliance.py:195-197 | the two 12-bit halves of bytes 13-15 are the velocities the offline decoder reads |
| ComplianceValidator.PositionAgreesWithDecoder | gdl90tests/test_gdl90_compliance.py:150-248 | on 27 bytes the compliance decoder and the offline decoder's ownship reading agree field by field |
| ComplianceValidator.PositionHeaderRoundTrip | gdl90tests/test_gdl90_compliance.py:156-182 | an encoded report reads back with its status nibbles, address, position and altitude step |
| ComplianceValidator.PositionKinematicsRoundTrip | gdl90tests/test_gdl90_compliance.py:184-215 | an encoded report reads back with its misc bits, NIC/NACp, speeds and track |
| ComplianceValidator.PositionIdentityRoundTrip | gdl90tests/test_gdl90_compliance.py:217-226 | an encoded report reads back with its emitter category, emergency code and a zero spare nibble |
| ComplianceValidator.AsciiReplacePlain | gdl90tests/test_gdl90_compliance.py:221 | bytes below 128 decode one for one |
| ComplianceValidator.RStripPadding | gdl90tests/test_gdl90_compliance.py:221 | rstrip removes exactly the padding spaces after a text that does not end in whitespace |
| ComplianceValidator.CallsignRoundTrip | gdl90tests/test_gdl90_compliance.py:220-221 | a printable callsign of at most 8 characters not ending in a space reads back as given |
| ComplianceValidator.CallsignFieldText | gdl90tests/test_gdl90_compliance.py:221 | the decoded, right-stripped callsign field of a short printable callsign is the callsign |
| ConfigManagement.CutComment | src/config.cpp:62-70 | the value after cutting at a comment character holds no such character, and a value without one is kept as it is |
| ConfigManagement.KeyName | src/config.cpp:157-179 | every key name save writes is non-empty, trimmed, free of '=' and does not start a comment |
| ConfigManagement.KeyNameRoundTrip | src/config.cpp:77-116 | every key name save writes is recognised by parseLine as that same key |
| ConfigManagement.RateValue | src/config.cpp:97-108 | a rate that is accepted is strictly positive; zero or a negative rate throws |
| ConfigManagement.IcaoValue | src/config.cpp:85-92 | an accepted ICAO address always fits in 24 bits; what it reads as is pinned by IcaoDecimal and IcaoHexMasked |
| ConfigManagement.IcaoDecimal | src/config.cpp:85-92 | a value without a 0x prefix is read in decimal, and the address is the number's low 24 bits |
| ConfigManagement.IcaoHexMasked | src/config.cpp:85-92 | a value "0x" followed by hex digits is read in hex, and the address is the number's low 24 bits |
| ConfigManagement.PortValue | src/config.cpp:79-84 | a port is accepted exactly when stoul reads it as a number from 1 to 65535, and then it is that number |
| ConfigManagement.FoldAppend | src/config.cpp:130-138 | loading a file in two parts is loading the second part on top of what the first left, with the error of the later failing line |
| ConfigManagement.SaveLines | src/config.cpp:157-179 | save writes 23 lines |
| ConfigManagement.KeyValueLine | src/config.cpp:47-76 | a "key = value" line save writes with a plain value is parsed as that key and that value |
| ConfigManagement.NamedLine | src/config.cpp:54-60 | a "key = value" line with any key free of '=' is parsed as that key and that value |
| ConfigManagement.LineParts | src/config.cpp:54-60 | in "key = value" the first '=' follows the key, and the trimmed sides are the key and the value |
| ConfigManagement.SplitLine | src/config.cpp:49-76 | a line whose trimmed sides around the first '=' are a key and a plain value is applied as that key and value |
| ConfigManagement.HeaderLine | src/config.cpp:54-57 | a line without '=' (comment, blank line, section header) leaves the settings unchanged and does not throw |
| ConfigManagement.IgnoredLine | src/config.cpp:47-118 | empty lines, lines starting with # or ;, lines without =, lines whose value is empty once comments are cut, and unknown keys all leave the settings unchanged without throwing |
| ConfigManagement.CallsignTruncated | src/config.cpp:93-94 | a callsign longer than 8 characters is cut to its first 8 |
| ConfigManagement.PortOutOfRange | src/config.cpp:79-84 | a port of 0 or above 65535 throws "target_port must be 1-65535" |
| ConfigManagement.PortLine | src/config.cpp:79-84 | a port line sets the port read when it is in 1..65535 and throws otherwise |
| ConfigManagement.ApplyLineKeepsRanges | src/config.cpp:85-94 | no accepted line takes the ICAO address beyond 24 bits or the callsign beyond 8 characters |
| ConfigManagement.ApplyValueKeepsRanges | src/config.cpp:77-116 | no key and value take the ICAO address beyond 24 bits or the callsign beyond 8 characters |
| ConfigManagement.FoldKeepsRanges | src/config.cpp:130-138 | loading any file keeps the ICAO address within 24 bits and the callsign within 8 characters |
| ConfigManagement.FoldStep | src/config.cpp:130-138 | a line that does not throw moves the loaded settings on, still with no error |
| ConfigManagement.FoldNext | src/config.cpp:130-138 | each line of the loop applies to what the earlier lines left; a throwing line keeps the settings and records "Error parsing line: ..." |
| ConfigManagement.FoldSix | src/config.cpp:130-138 | six groups of lines that do not throw, applied in turn, give the settings the last group leaves and no error |
| ConfigManagement.PreambleSection | src/config.cpp:157-160 | the comment lines, the blank line and the network header change nothing |
| ConfigManagement.NetworkSection | src/config.cpp:161-164 | the network section read back sets the target address and port written |
| ConfigManagement.OwnshipSection | src/config.cpp:165-167 | the ownship section read back sets the ICAO address, callsign and emitter category written |
| ConfigManagement.IcaoLine | src/config.cpp:85-92 | an ICAO line sets the address its value reads as |
| ConfigManagement.CallsignLine | src/config.cpp:93-94 | a callsign line of at most 8 characters sets exactly that callsign |
| ConfigManagement.EmitterLine | src/config.cpp:95-96 | an emitter category line sets the byte its value reads as |
| ConfigManagement.IcaoText | src/config.cpp:165 | the "0x" and hex digits save writes for an address are read back by parseLine as that address |
| ConfigManagement.HexValue | src/config.cpp:85-92 | "0x" and hex digits that stoul reads as a 24-bit number are read back as that address |
| ConfigManagement.SmallText | src/config.cpp:95-96 | the decimal text of a byte is read back as that byte through stoi and the uint8_t cast |
| ConfigManagement.SmallDigits | src/config.cpp:109-112 | a run of digits that stoi reads as a byte is read back as that byte |
| ConfigManagement.HeartbeatLine | src/config.cpp:97-102 | a heartbeat rate line with a positive rate sets that rate |
| ConfigManagement.PositionLine | src/config.cpp:103-108 | a position rate line with a positive rate sets that rate |
| ConfigManagement.RatesSection | src/config.cpp:169-171 | the rates section read back sets the rates from the texts written |
| ConfigManagement.NicLine | src/config.cpp:109-110 | a NIC line sets the byte its value reads as |
| ConfigManagement.NacpLine | src/config.cpp:111-112 | a NACp line sets the byte its value reads as |
| ConfigManagement.AccuracySection | src/config.cpp:173-175 | the accuracy section read back sets NIC and NACp |
| ConfigManagement.FlagTextRoundTrip | src/config.cpp:113-116 | the "true"/"false" save writes for a flag reads back as that flag |
| ConfigManagement.DebugLine | src/config.cpp:113-114 | the debug logging line save writes sets the flag written |
| ConfigManagement.LogLine | src/config.cpp:115-116 | the message logging line save writes sets the flag written |
| ConfigManagement.DebugSection | src/config.cpp:177-179 | the debug section read back sets both flags |
| ConfigManagement.HeadersWithoutEquals | src/config.cpp:157-177 | the comment lines, blank lines and section headers save writes hold no '=', so load skips them |
| ConfigManagement.SaveLoadRoundTrip | src/config.cpp:150-184 | loading the file save writes gives back every saved field, the rates as read from the texts written, with no error, for saved texts that are trimmed, comment-free and hold no line feed |
| ConfigManagement.ConfigManager.constructor | src/config.cpp:9-28 | a new manager holds the default settings (192.168.1.100:4000, 0xABCDEF, N12345, ...) and no error |
| ConfigManagement.ConfigManager.ParseLine | src/config.cpp:47-118 | a line either applies to the settings or throws and changes nothing, reporting the exception's message |
| ConfigManagement.ConfigManager.ParseAll | src/config.cpp:130-138 | every line in turn is applied; the last throwing line's message is recorded |
| ConfigManagement.ConfigManager.Load | src/config.cpp:120-148 | a file that cannot be opened fails with its message; a file with a failing line fails and restores the settings; otherwise the settings are the loaded ones and the error is cleared |
| ConfigManagement.ConfigManager.Save | src/config.cpp:150-184 | save leaves the settings alone, fails with its message when the file cannot be opened, and otherwise writes the lines of the settings and clears the error |
| ConfigText.Find | src/config.cpp:54 | find returns the first position holding the character, or the length when none does |
| ConfigText.FindAt | src/config.cpp:54 | the first position holding the character is what find returns |
| ConfigText.TrimStart | src/config.cpp:30-37 | only trim characters are dropped in front, and what is left does not start with one |
| ConfigText.TrimEnd | src/config.cpp:30-37 | only trim characters are dropped at the end, and what is left does not end with one |
| ConfigText.Trim | src/config.cpp:30-37 | trim gives the empty string exactly for an all-blank input, and otherwise neither end is a space, tab, CR or LF |
| ConfigText.TrimStartSlice | src/config.cpp:30-37 | what the left trim keeps is a suffix of its input |
| ConfigText.TrimEndSlice | src/config.cpp:30-37 | what the right trim keeps is a prefix of its input |
| ConfigText.TrimInside | src/config.cpp:30-37 | trimming introduces no character that was not there |
| ConfigText.TrimTrimmed | src/config.cpp:30-37 | a string with no blank at either end is left unchanged |
| ConfigText.TrimIdempotent | src/config.cpp:30-37 | trimming twice is trimming once |
| ConfigText.TrimPadded | src/config.cpp:30-37 | a space before or after a trimmed text is removed |
| ConfigText.ToLower | src/config.cpp:41-43 | lower-casing keeps the length and maps each character on its own |
| ConfigText.ToLowerIdempotent | src/config.cpp:41-43 | lower-casing twice is lower-casing once |
| ConfigText.ParseBoolCaseInsensitive | src/config.cpp:39-45 | parseBool ignores letter case |
| ConfigText.ParseBool | src/config.cpp:39-45 | only a text of one to four characters reads as true |
| ConfigText.ParseBoolSaved | src/config.cpp:39-45 | "true" reads as true and "false" as false |
| ConfigText.SkipCSpace | src/config.cpp:80 | the leading whitespace stoul skips is all gone |
| ConfigText.DigitRun | src/config.cpp:80 | the digits stoul reads are the longest digit prefix |
| ConfigText.Unsigned | src/config.cpp:80 | what follows an optional sign is a suffix of the text |
| ConfigText.UnsignedValue | src/config.cpp:80 | a value stoul accepts fits in a 64-bit unsigned long |
| ConfigText.StoUl | src/config.cpp:80 | a value stoul accepts fits in a 64-bit unsigned long; otherwise it throws |
| ConfigText.UnsignedDigits | src/config.cpp:80 | a string of digits alone reads as its value |
| ConfigText.StoI | src/config.cpp:96 | a value stoi accepts fits in a 32-bit int |
| ConfigText.DecimalText | src/config.cpp:161 | decimal output has no leading zero and only decimal digits |
| ConfigText.HexText | src/config.cpp:165 | hex output has no leading zero and only hex digits |
| ConfigText.DecimalTextValue | src/config.cpp:161 | the decimal digits written stand for the number written |
| ConfigText.HexTextValue | src/config.cpp:165 | the hex digits written stand for the number written |
| ConfigText.DigitRunAll | src/config.cpp:80 | a string made only of digits is read whole |
| ConfigText.StoUlDecimal | src/config.cpp:80 | stoul reads back the decimal text of any unsigned long |
| ConfigText.StoIDecimal | src/config.cpp:96 | stoi reads back the decimal text of any non-negative int |
| ConfigText.StoF | src/config.cpp:98-104 | a text without any decimal digit throws |
| ConfigText.StoFDecimal | src/config.cpp:98-104 | stof reads the decimal text of any whole number as that number |
| ConfigText.StoFNonNegative | src/config.cpp:98-104 | a text without a minus sign never reads as a negative rate |
| ConfigText.StoUlHex | src/config.cpp:88 | stoul in base 16 reads back "0x" and the hex text of any unsigned long |
| ConfigText.StoUlHexDigits | src/config.cpp:88 | stoul in base 16 reads "0x" and hex digits as the value of the digits |
| ConfigText.HexPrefixSkipped | src/config.cpp:88 | stoul in base 16 skips a "0x" that is followed by a hex digit |
| Settings.LowerCase | src/main.cpp:262-268 | the window's lower-casing gives the same text as the configuration's tolower, character by character |
| Settings.ParseBoolField | src/main.cpp:294-307 | the trimmed, lower-cased field gives true exactly for true/1/yes/on and false exactly for false/0/no/off; any other text is refused rather than read as false; an accepted value agrees with the configuration file's parseBool of the trimmed text |
| Settings.FlagFieldRoundTrip | src/main.cpp:294-307 | the "true"/"false" shown for a flag reads back as that flag |
| Settings.ColonsToSlashes | src/main.cpp:196-200 | every ':' becomes '/', nothing else changes, and no ':' is left |
| Settings.NormalizedPath | src/main.cpp:188-209 | a non-empty path comes out ending in '/', on macOS without any ':', elsewhere as given with at most a '/' added; an empty path stays empty |
| Settings.NormalizeIdempotent | src/main.cpp:188-209 | normalising a normalised path changes nothing |
| Settings.NormalizeSystemPath | src/main.cpp:188-209 | the character-by-character rewrite yields the normalised path |
| Settings.UpperHexDigit | src/main.cpp:257 | an upper-case hex digit that reads as its value |
| Settings.PaddedHex | src/main.cpp:257-259 | exactly the requested number of upper-case hex digits |
| Settings.PaddedHexValue | src/main.cpp:257-259 | zero-padded digits of a number that fits read back as that number |
| Settings.FormatHex24 | src/main.cpp:255-260 | the ICAO text is "0x" and six upper-case hex digits, with no blank at either end |
| Settings.FormatHex24Reads | src/main.cpp:255-260 | the ICAO text shown is read back, by the configuration file and by the window, as the address's low 24 bits |
| Settings.HexDigitsRead | src/main.cpp:328-335 | "0x" and six hex digits read back as their 24-bit value, trimmed or not |
| Settings.FieldRect | src/main.cpp:447-453 | a field's edit box is 200 by 18 pixels, 160 right of the window's left edge, 22 pixels lower per row below the title |
| Settings.ButtonRect | src/main.cpp:455-463 | a button is 90 by 22 pixels, 12 above the bottom edge, 100 pixels further right per index |
| Settings.ButtonsDisjoint | src/main.cpp:455-463 | two different buttons never share a point, so a click hits at most one |
| Settings.FieldsDisjoint | src/main.cpp:447-453 | two different fields never share a point, so a click selects at most one |
| Settings.KeyStep | src/main.cpp:607-666 | a key event keeps the editor well-formed, changes only the active field's stored text, and grows the buffer only by the typed character up to 64 characters |
| Settings.BackspaceUndoesTyping | src/main.cpp:630-635 | backspace after typing a printable character gives back the editor as it was |
| Settings.EscapeKeepsFields | src/main.cpp:655-659 | escape ends editing and discards the buffer, keeping every stored field text |
| Settings.Tabs | src/main.cpp:645-653 | any number of Tab presses keeps the editor well-formed |
| Settings.TabsMove | src/main.cpp:645-653 | after n Tabs the field n further round is edited with its stored text, and only the first field's edit was stored |
| Settings.TabCycle | src/main.cpp:645-653 | a whole number of turns round the eleven fields comes back to the same field, its edit stored and still in the buffer |
| Settings.ReadLink | src/main.cpp:313-326 | the link fields are accepted exactly when the trimmed address is non-empty and the port reads as 1 to 65535 |
| Settings.ReadOwnship | src/main.cpp:328-342 | the ownship fields are accepted exactly when the address and category read, giving a 24-bit address and the trimmed callsign cut to 8 characters |
| Settings.ReadRates | src/main.cpp:344-358 | the rate fields are accepted exactly when both read as positive rates |
| Settings.ReadAccuracy | src/main.cpp:360-363 | NIC and NACp are accepted exactly when stoi reads them, and are kept modulo 256 |
| Settings.ReadFlags | src/main.cpp:365-379 | both flag fields are accepted exactly when each is a true or false word, and then take parseBool's values |
| Settings.ApplyFields | src/main.cpp:309-405 | applied settings have a non-empty trimmed address, a port of at least 1, a 24-bit address, a callsign of at most 8 characters and positive rates; a new link is applied only when the broadcaster could be reopened |
| Settings.SyncedFields | src/main.cpp:270-292 | the window shows one text per field |
| Settings.ApplyFieldsOf | src/main.cpp:309-405 | field groups that each read as the matching settings apply as exactly that configuration |
| Settings.LinkFieldsRead | src/main.cpp:272-274 | the address and the port shown read back as themselves |
| Settings.OwnshipFieldsRead | src/main.cpp:275-279 | the ownship texts shown read back as the address, the callsign and the category |
| Settings.AccuracyFieldsRead | src/main.cpp:284-287 | the NIC and NACp shown read back as themselves |
| Settings.FlagFieldsRead | src/main.cpp:288-291 | the flag words shown read back as the flags |
| Settings.SyncThenApply | src/main.cpp:270-405 | applying what the window shows for a configuration gives back that configuration, the address cut to 24 bits and the rates read from the texts shown |
| Settings.SettingsWindow.constructor | src/main.cpp:107-110 | a new window edits no field and holds the given field texts |
| Settings.SettingsWindow.SyncFields | src/main.cpp:270-292 | every field text becomes the configuration's text; the editing state is untouched |
| Settings.SettingsWindow.HandleKey | src/main.cpp:607-666 | one key event moves the window's state as the editor's key step does |
| Settings.ApplyFieldsToConfig | src/main.cpp:309-405 | the settings change exactly when every field is accepted, to the applied configuration, and stay as they were otherwise |
| SemVer.StripV | scripts/bump_version.py:34 | only leading 'v's are removed, every one of them, and the rest is kept as a suffix |
| SemVer.Number | scripts/bump_version.py:37 | a \d+ group consumes a non-empty, maximal run of digits and leaves the rest of the text |
| SemVer.Dotted | scripts/bump_version.py:37 | a \d+ group and its dot leave a strictly shorter suffix of the text |
| SemVer.Suffix | scripts/bump_version.py:37 | the optional pre-release and build groups, when matched, are non-empty runs of [a-zA-Z0-9-.] |
| SemVer.Match | scripts/bump_version.py:37-38 | a whole-text match gives a version whose pre-release and build are valid, and the text ends in an identifier character |
| SemVer.Parse | scripts/bump_version.py:31-47 | parse yields a valid version or raises ValueError "Invalid semantic version: " with the text after the 'v's are stripped |
| SemVer.CoreText | scripts/bump_version.py:81 | the core text starts with a digit |
| SemVer.Str | scripts/bump_version.py:79-86 | the version text starts with a digit |
| SemVer.DigitsRead | scripts/bump_version.py:37 | a digit string followed by a non-digit reads as its value and the rest |
| SemVer.NumberRead | scripts/bump_version.py:37 | a number written in decimal reads back as itself |
| SemVer.DottedRead | scripts/bump_version.py:37 | a number and a dot read back as the number and what follows the dot |
| SemVer.SuffixRead | scripts/bump_version.py:82-85 | the "-PRE" and "+BUILD" __str__ writes read back as the pre-release and the build |
| SemVer.TailStart | scripts/bump_version.py:82-85 | the text after the patch number starts with '-' or '+' or is empty |
| SemVer.CoreShape | scripts/bump_version.py:81 | the core text is the three numbers joined by dots |
| SemVer.MatchCoreThen | scripts/bump_version.py:37 | after the three numbers the whole text matches exactly when the rest matches the optional groups |
| SemVer.MatchStr | scripts/bump_version.py:37-47 | the pattern matches what __str__ writes with the groups holding the version's parts |
| SemVer.ParseStr | scripts/bump_version.py:31-86 | parse(str(v)) == v for every version parse can produce |
| SemVer.ParseStrNewline | scripts/bump_version.py:37-38 | a version text with a trailing line feed still parses as that version, since $ matches before it |
| SemVer.ParseNewline | scripts/bump_version.py:37-38 | a matching text followed by a line feed parses the same |
| SemVer.MatchNoNewline | scripts/bump_version.py:37 | the pattern's groups never end in a line feed |
| SemVer.ParseIgnoresV | scripts/bump_version.py:34 | leading 'v's never change what parse reads |
| SemVer.LastIndex | scripts/bump_version.py:65 | the last occurrence of the separator, or none when it does not occur |
| SemVer.IncrementCounts | scripts/bump_version.py:64-70 | incrementing leaves a counter one higher (or 1 when there was none), keeps the stem and keeps a valid identifier valid |
| SemVer.IncrementPre | scripts/bump_version.py:64-70 | without a counter the pre-release is extended; with one, the stem is kept and followed by the decimal text of the counter plus one |
| SemVer.IncrementCounted | scripts/bump_version.py:65-68 | a pre-release ending in ".N" becomes the same stem ending in N+1 |
| SemVer.CountedStem | scripts/bump_version.py:65-68 | the stem of a counted pre-release is a prefix of it ending in '.' |
| SemVer.IdentWithCounter | scripts/bump_version.py:67-68 | a stem of an identifier with a decimal counter is still an identifier |
| SemVer.CounterStep | scripts/bump_version.py:65-68 | a stem ending in '.' followed by a number has that number as its counter and that stem |
| SemVer.LastDotBeforeDigits | scripts/bump_version.py:65-66 | a '.' followed only by digits is the last '.' |
| SemVer.CounterStart | scripts/bump_version.py:69-70 | appending ".1" starts a counter at 1 after the whole pre-release |
| SemVer.LastIndexAt | scripts/bump_version.py:65 | the last position holding the separator is the one after which none does |
| SemVer.Bump | scripts/bump_version.py:49-77 | a bump yields a valid version, or raises "Invalid bump type: " for an unknown type |
| SemVer.CoreStr | scripts/bump_version.py:52-56 | the text a release bump builds is __str__ of the new version |
| SemVer.PreStr | scripts/bump_version.py:62-75 | the text a pre-release bump builds is __str__ of the new version |
| SemVer.BumpRelease | scripts/bump_version.py:51-56 | major, minor and patch bumps add one to their part, zero the lower parts, drop pre-release and build, and increase the version |
| SemVer.BumpFreshPrerelease | scripts/bump_version.py:72-75 | without a pre-release the bump gives {type, or "alpha"}.1 on the same core |
| SemVer.BumpSwitchPrerelease | scripts/bump_version.py:60-62 | asking for a type the pre-release does not start with restarts at {type}.1 |
| SemVer.BumpCountPrerelease | scripts/bump_version.py:63-71 | otherwise the pre-release counter is incremented on the same core and the build is dropped |
| SemVer.BumpUnknown | scripts/bump_version.py:76-77 | any other bump type raises ValueError |
| SemVer.BumpRejectsType | scripts/bump_version.py:60-62 | a requested type with a character outside [a-zA-Z0-9-.] makes the bump raise ValueError |
| SemVer.ZeroPrefixValue | scripts/bump_version.py:43 | a leading zero does not change a number's value |
| SemVer.ZeroNumber | scripts/bump_version.py:37-43 | a leading zero changes neither a group's value nor what follows it |
| SemVer.LeadingZeroAccepted | scripts/bump_version.py:37-43 | unlike Semantic Versioning 2.0.0 item 2, a leading zero is accepted: parse("0" + str(v)) == v |
| SemVer.ParseMatched | scripts/bump_version.py:38-47 | a text that matches parses as what it matches |
| SemVer.ZeroDotted | scripts/bump_version.py:37 | the leading zero is absorbed into the major number |
| SemVer.ZeroMatch | scripts/bump_version.py:37 | the match depends on the first number only through its value |
| Release.EveryCategoryListed | scripts/release_manager.py:390-400 | every category a commit can be filed under has a changelog section |
| Release.StripStart | scripts/release_manager.py:418 | what the left strip keeps does not start with whitespace |
| Release.StripEnd | scripts/release_manager.py:418 | what the right strip keeps does not end with whitespace |
| Release.Strip | scripts/release_manager.py:418 | a stripped text is empty or has no whitespace at either end |
| Release.ClassifyFrom | scripts/release_manager.py:424-440 | a commit is Other exactly when no prefix matches, and then keeps its text; otherwise the first matching prefix decides the category and the stripped rest is its text |
| Release.ClassifyFirstMatch | scripts/release_manager.py:424-437 | the first matching prefix decides, whatever later prefixes match too |
| Release.ClassifyUpTo | scripts/release_manager.py:424-437 | scanning from any position, the first matching prefix at or after it decides |
| Release.ClassifySkips | scripts/release_manager.py:434 | a prefix that does not match passes the commit on to the next one |
| Release.ClassifyHits | scripts/release_manager.py:434-437 | a prefix that matches files the stripped rest under its category |
| Release.EmptyLists | scripts/release_manager.py:415 | every category starts with an empty list |
| Release.File | scripts/release_manager.py:417-440 | one pass of the loop keeps a list for every category and only ever appends to them |
| Release.FileStep | scripts/release_manager.py:417-440 | a blank commit changes nothing; any other is appended, as its text, to its category's list alone |
| Release.Categorize | scripts/release_manager.py:415-440 | after the loop every category has a list |
| Release.CategorizeSnoc | scripts/release_manager.py:417-440 | categorising one commit more files it into the lists built so far |
| Release.TotalAppend | scripts/release_manager.py:435-440 | appending one entry to one section raises the number of entries by one |
| Release.TotalEmpty | scripts/release_manager.py:415 | the initial lists hold no entry |
| Release.SectionsDistinct | scripts/release_manager.py:390-400 | no section is listed twice |
| Release.CategorizeCounts | scripts/release_manager.py:417-440 | every non-blank commit lands in exactly one section and blank ones in none |
| Release.CategorizeGrows | scripts/release_manager.py:417-440 | a later commit never removes an earlier entry |
| Release.CategorizeFiles | scripts/release_manager.py:417-440 | each non-blank commit's text ends up in its category's list |
| Release.InPrefix | scripts/release_manager.py:435-440 | an entry of a list stays in any list that extends it |
| Release.FiledWhenRead | scripts/release_manager.py:417-440 | a non-blank commit is in its category's list once it has been read |
| Release.ClassifyCommit | scripts/release_manager.py:423-440 | the prefix loop gives the category and text of the classification |
| Release.CategorizeCommits | scripts/release_manager.py:415-440 | the categorisation loop builds the lists of the categorisation |
| Release.Emitted | scripts/release_manager.py:443-444 | the categories written are exactly the listed ones with a non-empty list |
| Release.SectionsAreEmitted | scripts/release_manager.py:443-448 | the changelog body is exactly the sections of the non-empty categories, one after another |
| Release.JoinedSnoc | scripts/release_manager.py:443-448 | one more category adds its own section text at the end |
| Release.EmittedInOrder | scripts/release_manager.py:443 | the sections appear in the order of changelog_sections |
| Release.SectionsStep | scripts/release_manager.py:443-448 | a pass adds a category's section exactly when its list is non-empty |
| Release.EmitItems | scripts/release_manager.py:446-447 | the item loop appends one "- " line per entry |
| Release.EmitSection | scripts/release_manager.py:444-448 | a non-empty category adds its heading, its items and a blank line; an empty one adds nothing |
| Release.EmitSections | scripts/release_manager.py:443-448 | the section loop writes the sections of the categorised commits |
| Release.Split | scripts/release_manager.py:412 | split gives at least one piece and no piece holds the separator |
| Release.SplitJoin | scripts/release_manager.py:412 | joining the pieces of a split gives the text back |
| Release.JoinCons | scripts/release_manager.py:412 | joining puts the separator between the first piece and the rest |
| Release.Changelog | scripts/release_manager.py:402-465 | the changelog is the "# Release v" heading, then the body, then the technical details |
| Release.Pieces | scripts/release_manager.py:402-465 | the three parts of the changelog sit one after another |
| Release.Tag | scripts/release_manager.py:479 | the tag always starts with 'v' |
| Release.ContainsAt | scripts/release_manager.py:482-483 | a keyword occurring at some position is found |
| Release.NoLowerNoKeyword | scripts/release_manager.py:482-483 | a keyword starting with a lower-case letter is not found in a text without one |
| Release.CreateReleaseInfo | scripts/release_manager.py:477-496 | the tag starts with 'v' and names the stored version, the description starts with the release heading, the release is no draft, and it is a pre-release exactly when the version names alpha, beta, rc or dev |
| Release.IsPrerelease | scripts/release_manager.py:482-483 | a pre-release version has at least two characters, the length of the shortest keyword |
| Release.ContainsLength | scripts/release_manager.py:482-483 | a keyword found in a version is no longer than the version |
| Release.TagAndVersionAgree | scripts/release_manager.py:479-489 | the tag and the stored version name the same version, and tagging is idempotent |
| Release.TagIsVPlusVersion | scripts/release_manager.py:479-489 | with at most one leading 'v' the tag is "v" and the stored version |
| Release.PrereleaseIgnoresCase | scripts/release_manager.py:482-483 | letter case never changes whether a version is a pre-release |
| Release.NoLetterNoKeyword | scripts/release_manager.py:482-483 | a text without letters names no keyword, even lower-cased |
| Release.PlainReleaseIsFinal | scripts/release_manager.py:482-483 | a plain MAJOR.MINOR.PATCH version is never a pre-release |
| Release.PlainCoreNoLetters | scripts/release_manager.py:482-483 | a plain version text is made of digits and dots |
| Release.LowerKeeps | scripts/release_manager.py:482 | lower-casing keeps a lower-case word where it stands |
| Release.BumpedPrereleaseIsPrerelease | scripts/release_manager.py:482-483 | a version bumped to an alpha, beta or rc pre-release is released as a pre-release |
| Release.NamedPrerelease | scripts/release_manager.py:482-483 | a version with "-alpha.1", "-beta.1" or "-rc.1" is a pre-release |

## Left out

- Floating-point scaling is out.
  - This covers the latitude and longitude encoders of every variant (`encodeLatitude`/`encodeLongitude`, `gdl90_make_latitude`/`gdl90_make_longitude`, the Python `_make_*`/`encode_*` functions).
  - It covers the double-based altitude, speed and vertical-speed arithmetic of `src/xp2gdl90.cpp`.
  - It covers the decoders' float scaling of latitude, longitude and track.
  - Reports take the 24-bit values, and the decoders return the raw integers they would scale.
- The wall clock, X-Plane datarefs, menus, windows, drawing and flight-loop callbacks are out. Time readings and dataref values become parameters.
- Sockets, threads and capture or simulation loops are out. `CaptureSession.Capture.CaptureAll` takes the datagrams received as a sequence.
- File I/O is out: `load` takes the file as a sequence of lines (or none when it cannot be opened), and `save` returns its lines.
- Logging (`LogMessage`, `print`) is out. The configuration manager keeps its error message as a field.
- `Gdl90Encoder.EncodeAltitude`: the C++ adds 1000 to the altitude in `int32_t`, which overflows for altitudes above 2147482647 ft. That is undefined behaviour. The model adds in unbounded integers, so it saturates to 0xFFE there.
- `ConfigText.StoUl`: `unsigned long` is taken to be 64 bits wide (LP64). On Windows it is 32 bits, so there `stoul` throws `out_of_range` for values from 2^32 on, such as `0x100000000`. A load with such a value then fails and restores the settings. The model instead accepts the value and masks the ICAO address to 24 bits.
- `ConfigManagement.SaveLoadRoundTrip`: the round trip is stated only for saved address and callsign texts without a line feed. `save` would split such a value over two lines, and `load` cannot produce one.
- `ConfigText.StoF`: reads only plain decimal text (sign, digits, optional fraction). Exponents, hexadecimal floats, inf/nan and float rounding are not modelled, so the rates are exact decimals.
- `ConfigManagement.SaveLoadRoundTrip`: the rate lines are whatever texts the stream's float output wrote, passed as parameters. The round trip is stated for the rates those texts read as, not for the float values.
- `ConfigManagement.ConfigManager.Save`: the two rate texts are parameters for the same reason. Whether the file opens is a parameter.
- `Settings.SyncThenApply`: the rate fields come from `std::to_string` of a float, which is not modelled. The rates are those the shown texts read as.
- `Settings.ApplyFieldsToConfig`: whether a new UDP broadcaster initialises is a parameter (`broadcasterReady`). Its error message and the log lines are not modelled.
- `LegacyPlugin.PluginSettings.ConfigCallback`: reopening the socket after the target changes is not modelled, only the settings it stores.
- `LegacyPlugin.TrafficTarget.constructor`: the default `TRF%03d` callsign formatting is not modelled.
- The Python `hash()`-based callsign generation (`_generate_callsign`) is out, because the hash is randomised per process.
- `PyEncoder.InlineEncoder.BuildTrafficReport`: `create_traffic_report` resolves its argument into fields, with defaults, whether it is a dictionary, a `TrafficTarget` or an object without those attributes. The model takes the resolved fields as a `ReportInput` record. That resolution, the degree-to-24-bit conversion and the latitude/longitude range check are not modelled.
- `PyEncoder.InlineEncoder.constructor`: the aircraft id is taken as its bytes. The Python string is encoded to ASCII only when a report is built (`py/main.py:266`), and a non-ASCII id raises `UnicodeEncodeError` there. That error is not modelled.
- `PyEncoder.PushPyIdentity`: the callsign arrives as bytes, so the `UnicodeEncodeError` of the ASCII encode in `py/main.py:266` and `py/main.py:397` is not modelled.
- `PyEncoder.PushPyKinematics`: `alt_ft`, `speed_kts`, `vs_fpm` and `track_deg` are Python floats. The model takes them as integers, so it agrees with the code only at whole values. In between, the code scales before it truncates: `alt_ft = -0.5` gives `int(999.5 / 25.0) = 39`, while the model's truncated input 0 gives 40.
- `MockSender.PushIdentity`: the callsign arrives as bytes, so the `UnicodeEncodeError` that `encode('ascii')` raises for a non-ASCII callsign (`reciever/mock_gdl90_sender.py:208`) is not modelled.
- `MockSender.PushKinematics`: `alt`, `speed`, `vs` and `track` are floats in the mock. The model takes them as integers and agrees with the code only at whole values, for the same reason as `PyEncoder.PushPyKinematics`.
- `PyEncoder.ReconstructTailnum`: of `TrafficTarget.update_data` only the tail-number loop is modelled. The float fields it copies are out.
- The `\d` of the version pattern and Python's `lower()` and `isdigit()` are modelled on ASCII only.
- `Release.Changelog`: the release date, the current commit hash and git's answers (previous tag, `git log` output or its failure) are parameters.
- The version-file updates and command line of `scripts/bump_version.py`, and the asset zipping, SHA-256 hashing and upload of `scripts/release_manager.py`, are out.
- `sscanf`-based IP validation in the configuration window (`ConfigWindow::IsValidIP`) is out. The build scripts are out, as are the unit-test doubles and benchmarks, which hold a different encoder.

## Findings

| source | as written | input that shows it | evidently intended | confidence | as-written member | corrected member |
|---|---|---|---|---|---|---|
| reciever/gdl90_decoder.py:94 | the received CRC is read as `(u[-2] << 8) \| u[-1]`, high byte first, although every encoder writes it low byte first (and the comment says so) | the sample frame of lines 328-333, `7E 00 81 01 00 00 00 00 BC 9C 7E`, labelled "with correct CRC", is reported `crc_valid = false` | `u[-2] \| (u[-1] << 8)`, so every encoder's frame passes | not executed | ReceiverDecoder.SampleFrameRejected | ReceiverDecoder.CorrectedRoundTrip |
| reciever/realtime_gdl90_capture.py:112-116 | `decode_velocity` reports 0xFFE as "No data" | a ground speed of 5000 kt, which the encoders clamp to 0xFFE ("4094 kt or more"), is shown as "No data" | 0xFFF is "No data", as in the other decoders and the GDL 90 specification | not executed | RealtimeCapture.SpeedAsWritten | RealtimeCapture.SpeedCorrected |
| reciever/realtime_gdl90_capture.py:223 | the emergency code is the whole byte 27 | an encoded emergency code 1 (byte 27 = 0x10) is reported as 16 | the high nibble of byte 27, `data[offset+22] >> 4` | not executed | RealtimeCapture.EmergencyAsWritten | RealtimeCapture.EmergencyCorrected |
| py/main.py:233-237 | a missing speed becomes 0xFFF, and the clamp that follows turns it into 0xFFE | `speed_kts = None` is sent as 0xFFE, "4094 kt or more" | a missing speed is sent as 0xFFF, "no data" | not executed | PyEncoder.HVelocityNoneIsNotNoData | PyEncoder.HVelocityCorrected |
