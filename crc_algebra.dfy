/*
 * Polynomial arithmetic over GF(2) modulo the GDL-90 CRC polynomial
 * P(x) = x^16 + x^12 + x^5 + 1.  A 16-bit value stands for a polynomial of
 * degree below 16, bit i holding the coefficient of x^i; adding two
 * polynomials is xor.  This is the reference the table-driven CRC is
 * proved against in module CrcPolynomial.
 */
module CrcAlgebra {
  import opened Bytes

  /**
   * Multiplication by x modulo P: shift left and, when the x^15 coefficient
   * was set, add x^12 + x^5 + 1.
   */
  function MulX(r: bv16): bv16
  {
    (r << 1) ^ ((r >> 15) << 12) ^ ((r >> 15) << 5) ^ (r >> 15)
  }

  /** Multiplication by x^k modulo P. */
  function MulXPow(r: bv16, k: nat): bv16
  {
    if k == 0 then r else MulX(MulXPow(r, k - 1))
  }

  /** Multiplication by x^8, written out (evaluated directly on constants). */
  function MulX8(r: bv16): bv16
  {
    MulX(MulX(MulX(MulX(MulX(MulX(MulX(MulX(r))))))))
  }

  lemma {:induction false} PowUnfold(r: bv16, k: nat)
    requires k >= 1
    ensures MulXPow(r, k) == MulX(MulXPow(r, k - 1))
  {
  }

  lemma {:induction false} PowAdd(r: bv16, j: nat, k: nat)
    ensures MulXPow(MulXPow(r, j), k) == MulXPow(r, j + k)
  {
    if k > 0 {
      PowAdd(r, j, k - 1);
    }
  }

  lemma {:induction false} Pow8(r: bv16)
    ensures MulXPow(r, 8) == MulX8(r)
  {
    PowUnfold(r, 1);
    PowUnfold(r, 2);
    PowUnfold(r, 3);
    PowUnfold(r, 4);
    PowUnfold(r, 5);
    PowUnfold(r, 6);
    PowUnfold(r, 7);
    PowUnfold(r, 8);
  }

  lemma {:induction false} Pow16(r: bv16)
    ensures MulXPow(r, 16) == MulX8(MulX8(r))
  {
    Pow8(r);
    Pow8(MulX8(r));
    PowAdd(r, 8, 8);
  }

  /** Multiplication by x distributes over addition. */
  lemma {:induction false} MulXLinear(a: bv16, b: bv16)
    ensures MulX(a ^ b) == MulX(a) ^ MulX(b)
  {
  }

  lemma {:induction false} PowLinear(a: bv16, b: bv16, k: nat)
    ensures MulXPow(a ^ b, k) == MulXPow(a, k) ^ MulXPow(b, k)
  {
    if k > 0 {
      PowLinear(a, b, k - 1);
      MulXLinear(MulXPow(a, k - 1), MulXPow(b, k - 1));
    }
  }

  /** Below degree 15 no reduction happens. */
  lemma {:induction false} MulXSmall(r: bv16)
    requires r < 0x8000
    ensures MulX(r) == r << 1
  {
  }

  /** A polynomial of degree below 8 is multiplied by x^8 without any reduction. */
  lemma {:induction false} PowSmall(r: bv16)
    requires r < 256
    ensures MulXPow(r, 8) == r << 8
  {
    Pow8(r);
    MulXSmall(r);
    MulXSmall(r << 1);
    MulXSmall(r << 2);
    MulXSmall(r << 3);
    MulXSmall(r << 4);
    MulXSmall(r << 5);
    MulXSmall(r << 6);
    MulXSmall(r << 7);
  }

  /** A register is its high byte times x^8 plus its low byte. */
  lemma {:induction false} RegisterParts(crc: bv16)
    ensures crc >> 8 < 256 && crc & 0xFF < 256
    ensures crc == ((crc >> 8) << 8) ^ (crc & 0xFF)
    ensures (crc & 0xFF) << 8 == crc << 8
  {
  }

  lemma {:induction false} HighBytePow(hi: bv16)
    requires hi < 256
    ensures MulXPow(hi << 8, 8) == MulXPow(hi, 16)
  {
    PowSmall(hi);
    PowAdd(hi, 8, 8);
  }

  lemma {:induction false} PowOfSum(r: bv16, a: bv16, b: bv16, k: nat, ra: bv16, rb: bv16)
    requires r == a ^ b && MulXPow(a, k) == ra && MulXPow(b, k) == rb
    ensures MulXPow(r, k) == ra ^ rb
  {
    PowLinear(a, b, k);
  }

  lemma {:induction false} RegisterPowParts(crc: bv16, hi: bv16, lo: bv16, reduced: bv16, low: bv16)
    requires low == crc << 8 && crc == (hi << 8) ^ lo
    requires MulXPow(hi << 8, 8) == reduced && MulXPow(lo, 8) == low
    ensures MulXPow(crc, 8) == reduced ^ low
  {
    PowOfSum(crc, hi << 8, lo, 8, reduced, low);
  }

  /**
   * A register times x^8: its high byte moves up to x^16 .. x^23 and must be
   * reduced, its low byte just moves up.
   */
  lemma {:induction false} HighPart(crc: bv16, reduced: bv16)
    requires reduced == MulXPow(crc >> 8, 16)
    ensures MulXPow((crc >> 8) << 8, 8) == reduced
  {
    RegisterParts(crc);
    HighBytePow(crc >> 8);
  }

  lemma {:induction false} LowPart(crc: bv16, low: bv16)
    requires low == crc << 8
    ensures MulXPow(crc & 0xFF, 8) == low
  {
    RegisterParts(crc);
    PowSmall(crc & 0xFF);
  }

  lemma {:induction false} RegisterTimesX8(crc: bv16, reduced: bv16, low: bv16)
    requires reduced == MulXPow(crc >> 8, 16) && low == crc << 8
    ensures MulXPow(crc, 8) == reduced ^ low
  {
    HighPart(crc, reduced);
    LowPart(crc, low);
    RegisterParts(crc);
    RegisterPowParts(crc, crc >> 8, crc & 0xFF, reduced, low);
  }

  /**
   * A table step, with the table entry for the high byte taken as that
   * byte times x^16: the register times x^8, plus the byte.
   */
  lemma {:induction false} StepAlgebra(crc: bv16, entry: bv16, c: bv16, step: bv16)
    requires entry == MulXPow(crc >> 8, 16) && step == entry ^ (crc << 8) ^ c
    ensures step == MulXPow(crc, 8) ^ c
  {
    RegisterTimesX8(crc, entry, crc << 8);
  }

  /**
   * The message polynomial modulo P: the bytes are its coefficients in
   * groups of eight, highest power first, so each further byte multiplies
   * what came before by x^8 and adds itself.
   */
  function Poly(data: seq<byte>): bv16
    decreases |data|
  {
    if |data| == 0 then 0 else MulXPow(Poly(data[..|data| - 1]), 8) ^ (data[|data| - 1] as bv16)
  }

  lemma {:induction false} PolySnoc(data: seq<byte>, b: byte)
    ensures Poly(data + [b]) == MulXPow(Poly(data), 8) ^ (b as bv16)
  {
    assert (data + [b])[..|data|] == data;
  }
}
