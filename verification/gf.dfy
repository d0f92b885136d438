/**
 * Doubling in GF(2^128) on byte strings, as the reference build does it
 * (shared/utils.c gf_double, gf_times_four).  The string is a
 * little-endian integer: byte 0 is least significant, and bit 7 of the
 * last byte is the one that falls out and is folded back as 0x87, the low
 * byte of x^7 + x^2 + x + 1.
 */
module Gf {
  import opened Bytes

  /** Bit 7 of a byte, as 0 or 1. */
  function Msb(b: Byte): Byte { (b >> 7) & 0x01 }

  /** Bit 6 of a byte, as 0 or 1. */
  function Msb2(b: Byte): Byte { (b >> 6) & 0x01 }

  /** Byte i of gf_double: the loop for i >= 1, the folded carry for byte 0. */
  function DoubleByte(x: seq<Byte>, i: nat): Byte
    requires 1 <= |x| && i < |x|
  {
    if i == 0 then ((x[0] << 1) & 0xfe) ^ (Msb(x[|x| - 1]) * 0x87)
    else ((x[i] << 1) & 0xfe) | ((x[i - 1] >> 7) & 0x01)
  }

  /** gf_double(out, in, n) for n >= 1: the value times x. */
  function Double(x: seq<Byte>): (r: seq<Byte>)
    requires |x| >= 1
    ensures |r| == |x|
  {
    seq(|x|, i requires 0 <= i < |x| => DoubleByte(x, i))
  }

  /** Byte i of gf_times_four: two bits move up, bits 6 and 7 of the top byte are folded back. */
  function TimesFourByte(x: seq<Byte>, i: nat): Byte
    requires 2 <= |x| && i < |x|
  {
    var top := x[|x| - 1];
    if i == 0 then ((x[0] << 2) & 0xfc) ^ (Msb2(top) * 0x87) ^ (Msb(top) * 0x0e)
    else if i == 1 then (((x[1] << 2) & 0xfc) | ((x[0] >> 6) & 0x03)) ^ (Msb(top) * 0x01)
    else ((x[i] << 2) & 0xfc) | ((x[i - 1] >> 6) & 0x03)
  }

  /** gf_times_four(out, in, n) for n >= 2: the value times x^2. */
  function TimesFour(x: seq<Byte>): (r: seq<Byte>)
    requires |x| >= 2
    ensures |r| == |x|
  {
    seq(|x|, i requires 0 <= i < |x| => TimesFourByte(x, i))
  }

  // ---------------------------------------------------------------
  // gf_times_four is gf_double applied twice
  // ---------------------------------------------------------------

  /** Byte 0: a = x[0], b = x[n-1], c = x[n-2]. */
  lemma FourByte0(a: Byte, b: Byte, c: Byte)
    ensures (((((a << 1) & 0xfe) ^ (Msb(b) * 0x87)) << 1) & 0xfe)
            ^ (Msb(((b << 1) & 0xfe) | ((c >> 7) & 0x01)) * 0x87)
         == ((a << 2) & 0xfc) ^ (Msb2(b) * 0x87) ^ (Msb(b) * 0x0e)
  {
  }

  /** Byte 1: a = x[1], p = x[0], b = x[n-1]. */
  lemma FourByte1(a: Byte, p: Byte, b: Byte)
    ensures (((((a << 1) & 0xfe) | ((p >> 7) & 0x01)) << 1) & 0xfe)
            | (((((p << 1) & 0xfe) ^ (Msb(b) * 0x87)) >> 7) & 0x01)
         == (((a << 2) & 0xfc) | ((p >> 6) & 0x03)) ^ (Msb(b) * 0x01)
  {
  }

  /** Byte i >= 2: a = x[i], p = x[i-1], q = x[i-2]. */
  lemma FourByteN(a: Byte, p: Byte, q: Byte)
    ensures (((((a << 1) & 0xfe) | ((p >> 7) & 0x01)) << 1) & 0xfe)
            | (((((p << 1) & 0xfe) | ((q >> 7) & 0x01)) >> 7) & 0x01)
         == ((a << 2) & 0xfc) | ((p >> 6) & 0x03)
  {
  }

  lemma TimesFourAt0(x: seq<Byte>)
    requires |x| >= 2
    ensures Double(Double(x))[0] == TimesFour(x)[0]
  {
    FourByte0(x[0], x[|x| - 1], x[|x| - 2]);
  }

  lemma TimesFourAt1(x: seq<Byte>)
    requires |x| >= 2
    ensures Double(Double(x))[1] == TimesFour(x)[1]
  {
    FourByte1(x[1], x[0], x[|x| - 1]);
  }

  lemma TimesFourAtN(x: seq<Byte>, i: nat)
    requires 2 <= i < |x|
    ensures Double(Double(x))[i] == TimesFour(x)[i]
  {
    FourByteN(x[i], x[i - 1], x[i - 2]);
  }

  /** gf_times_four computes gf_double twice, on every length it accepts. */
  lemma TimesFourIsDoubleTwice(x: seq<Byte>)
    requires |x| >= 2
    ensures TimesFour(x) == Double(Double(x))
  {
    forall i | 0 <= i < |x|
      ensures Double(Double(x))[i] == TimesFour(x)[i]
    {
      if i == 0 { TimesFourAt0(x); }
      else if i == 1 { TimesFourAt1(x); }
      else { TimesFourAtN(x, i); }
    }
  }

  // ---------------------------------------------------------------
  // Doubling is XOR-linear
  // ---------------------------------------------------------------

  lemma DoubleXorByte0(a: Byte, b: Byte, c: Byte, d: Byte)
    ensures ((((a ^ c) << 1) & 0xfe) ^ (Msb(b ^ d) * 0x87))
         == ((((a << 1) & 0xfe) ^ (Msb(b) * 0x87)) ^ (((c << 1) & 0xfe) ^ (Msb(d) * 0x87)))
  {
  }

  lemma DoubleXorByteN(a: Byte, p: Byte, c: Byte, q: Byte)
    ensures ((((a ^ c) << 1) & 0xfe) | (((p ^ q) >> 7) & 0x01))
         == ((((a << 1) & 0xfe) | ((p >> 7) & 0x01)) ^ (((c << 1) & 0xfe) | ((q >> 7) & 0x01)))
  {
  }

  lemma DoubleXorAt0(a: seq<Byte>, b: seq<Byte>)
    requires |a| == |b| >= 1
    ensures Double(Xor(a, b))[0] == Xor(Double(a), Double(b))[0]
  {
    DoubleXorByte0(a[0], a[|a| - 1], b[0], b[|a| - 1]);
  }

  lemma DoubleXorAtN(a: seq<Byte>, b: seq<Byte>, i: nat)
    requires |a| == |b| && 1 <= i < |a|
    ensures Double(Xor(a, b))[i] == Xor(Double(a), Double(b))[i]
  {
    DoubleXorByteN(a[i], a[i - 1], b[i], b[i - 1]);
  }

  /** Doubling distributes over XOR, which is what lets Horner steps be regrouped. */
  lemma DoubleXor(a: seq<Byte>, b: seq<Byte>)
    requires |a| == |b| >= 1
    ensures Double(Xor(a, b)) == Xor(Double(a), Double(b))
  {
    forall i | 0 <= i < |a|
      ensures Double(Xor(a, b))[i] == Xor(Double(a), Double(b))[i]
    {
      if i == 0 { DoubleXorAt0(a, b); } else { DoubleXorAtN(a, b, i); }
    }
  }
}
