/**
 * Integer fields of the GDL-90 Heartbeat and position reports as they sit in
 * the bytes: 24-bit big-endian groups, 16-bit groups in either order, and
 * 12-bit two's complement (section 3.5 of the GDL 90 Data Interface
 * Specification 560-1058-00 Rev A).  Writers and readers of every module are
 * stated in these terms.
 */
module Fields {
  import opened Bytes

  /** The low 24 bits of v as three bytes, most significant first. */
  function Be24(v: nat): (r: seq<byte>)
    ensures |r| == 3
  {
    [(v / 0x1_0000) % 256, (v / 256) % 256, v % 256]
  }

  /** Three bytes from offset i read as a big-endian 24-bit value. */
  function ReadBe24(s: seq<byte>, i: nat): (r: nat)
    requires i + 3 <= |s|
    ensures r < 0x100_0000
  {
    (s[i] as int) * 0x1_0000 + (s[i + 1] as int) * 256 + s[i + 2]
  }

  /** Two bytes from offset i read most significant first. */
  function ReadBe16(s: seq<byte>, i: nat): (r: nat)
    requires i + 2 <= |s|
    ensures r < 0x1_0000
  {
    (s[i] as int) * 256 + s[i + 1]
  }

  /** Two bytes from offset i read least significant first. */
  function ReadLe16(s: seq<byte>, i: nat): (r: nat)
    requires i + 2 <= |s|
    ensures r < 0x1_0000
  {
    s[i] as int + 256 * (s[i + 1] as int)
  }

  /** A 12-bit field read as two's complement. */
  function Signed12(v: int): (r: int)
    requires 0 <= v < 0x1000
    ensures -0x800 <= r < 0x800
  {
    if v >= 0x800 then v - 0x1000 else v
  }

  /** The three bytes of Be24, weighted back, are the low 24 bits. */
  lemma {:induction false} Be24Value(v: nat)
    ensures var r := Be24(v); (r[0] as int) * 0x1_0000 + (r[1] as int) * 256 + r[2] == v % 0x100_0000
  {
    assert v / 0x1_0000 == (v / 256) / 256;
    assert v / 0x100_0000 == (v / 0x1_0000) / 256;
  }

  /** Reading a 24-bit group back gives the low 24 bits of what was written. */
  lemma {:induction false} Be24RoundTrip(v: nat, s: seq<byte>, i: nat)
    requires i + 3 <= |s| && s[i..i + 3] == Be24(v)
    ensures ReadBe24(s, i) == v % 0x100_0000
  {
    assert s[i] == Be24(v)[0] && s[i + 1] == Be24(v)[1] && s[i + 2] == Be24(v)[2];
    Be24Value(v);
  }

  /** Signed12 inverts the 12-bit two's complement of any value in [-2048, 2047]. */
  lemma {:induction false} Signed12RoundTrip(x: int)
    requires -0x800 <= x < 0x800
    ensures Signed12(if x < 0 then 0x1000 + x else x) == x
  {
  }
}
