/**
 * Multiplication in GF(2^8), the field of FIPS-197 section 4.2: bytes are
 * polynomials over GF(2) reduced modulo m(x) = x^8 + x^4 + x^3 + x + 1 (0x11b).
 *
 * `GfMult` is the round primitive's multiply as it is written: it knows only
 * the multipliers 0x01, 0x02 and 0x03 that MixColumns uses and yields zero for
 * every other multiplier. `FieldMul` is the field product itself, defined from
 * `XTime` as in section 4.2.1, and serves as the reference `GfMult` is checked
 * against.
 */
module GaloisField {

  /**
   * libAES::gfMult: a switch over the multiplier; 0x03 is computed from 0x02.
   * Multiplying by 0x01 is the identity, zero times anything is zero, and an
   * unsupported multiplier yields zero.
   */
  function GfMult(data: bv8, multiplier: bv8): (r: bv8)
    ensures multiplier == 0x01 ==> r == data
    ensures data == 0 ==> r == 0
    ensures !(0x01 <= multiplier <= 0x03) ==> r == 0
    decreases multiplier as int
  {
    if multiplier == 0x01 then
      data
    else if multiplier == 0x02 then
      var temp := (data << 1) & 0xFE;
      if data & 0x80 != 0 then temp ^ 0x1b else temp
    else if multiplier == 0x03 then
      GfMult(data, 0x02) ^ data
    else
      0x00
  }

  /** Multiplication by x: shift into a 9-bit polynomial and reduce modulo m(x) when it reaches degree 8. */
  function XTime(b: bv8): bv8
  {
    var p := (b as bv16) << 1;
    (if p & 0x100 != 0 then p ^ 0x11b else p) as bv8
  }

  /** The field product a * b: the XOR of a * x^i over the bits i set in b. */
  function FieldMul(a: bv8, b: bv8): bv8
    decreases b as int
  {
    if b == 0 then 0
    else (if b & 1 != 0 then a else 0) ^ FieldMul(XTime(a), b >> 1)
  }

  /** Doubling by `GfMult` is the field's multiplication by x. */
  lemma GfMultByTwoIsXTime(data: bv8)
    ensures GfMult(data, 0x02) == XTime(data)
  {
  }

  /** The field product by 0x01, 0x02 and 0x03 in terms of `XTime`. */
  lemma FieldMulSmall(a: bv8)
    ensures FieldMul(a, 0x01) == a
    ensures FieldMul(a, 0x02) == XTime(a)
    ensures FieldMul(a, 0x03) == a ^ XTime(a)
  {
    FieldMulByOne(a);
    FieldMulByOne(XTime(a));
    assert FieldMul(a, 0x02) == FieldMul(XTime(a), 0x01);
    assert FieldMul(a, 0x03) == a ^ FieldMul(XTime(a), 0x01);
  }

  lemma FieldMulByOne(a: bv8)
    ensures FieldMul(a, 0x01) == a
  {
    assert FieldMul(a, 0x01) == a ^ FieldMul(XTime(a), 0x00);
  }

  /**
   * `GfMult` agrees with the field product for the three multipliers it supports
   * and yields zero for every other one.
   */
  lemma GfMultAsFieldMul(data: bv8, multiplier: bv8)
    ensures GfMult(data, multiplier) == if 1 <= multiplier <= 3 then FieldMul(data, multiplier) else 0
  {
    FieldMulSmall(data);
    GfMultByTwoIsXTime(data);
  }

  /**
   * Doubling in integer terms: (2 * data) mod 256, XORed with 0x1b exactly when
   * bit 7 of `data` was set.
   */
  lemma GfMultByTwoArithmetic(data: bv8)
    ensures GfMult(data, 0x02) == ((2 * data as int) % 256) as bv8 ^ (if data as int >= 128 then 0x1b else 0)
  {
    DoubleIsShift(data);
    HighBitIsAtLeast128(data);
  }

  lemma DoubleIsShift(b: bv8)
    ensures ((2 * b as int) % 256) as bv8 == (b << 1) & 0xFE
  {
    var doubled := (2 * b as int) % 256;
    assert doubled == (b * 2) as int;
    ByteAsIntAsByte(b * 2);
  }

  lemma HighBitIsAtLeast128(b: bv8)
    ensures (b & 0x80 != 0) == (b as int >= 128)
  {
  }

  /** Converting a byte to an integer and back gives the byte. */
  lemma ByteAsIntAsByte(b: bv8)
    ensures (b as int) as bv8 == b
  {
  }
}
