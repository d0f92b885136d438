/**
 * GF(2^128) with the reduction polynomial x^128 + x^7 + x^2 + x + 1, on
 * the 128-bit register of Register: bit i is the coefficient of x^i.
 * This is the reference meaning of the doubling code in both builds.
 */
module Gf128 {
  import opened Bytes
  import opened Register
  import Gf

  /** The exponents t < 128 with a nonzero coefficient in x^7 + x^2 + x + 1 (135 = 0x87). */
  predicate InPoly(t: int) { t == 0 || t == 1 || t == 2 || t == 7 }

  /** Bit i of 2 * v: the bit below moves up; the top bit falls out and is folded back as 0x87. */
  function DoubleBit(v: Reg, i: nat): bool
    requires i < 128
  {
    (i > 0 && v[i - 1]) != (v[127] && InPoly(i))
  }

  /** Multiplication by x, i.e. doubling. */
  function Double(v: Reg): Reg
  {
    seq(128, i requires 0 <= i < 128 => DoubleBit(v, i))
  }

  /** v * x^k, by k doublings. */
  function DoublePow(v: Reg, k: nat): Reg
  {
    if k == 0 then v else Double(DoublePow(v, k - 1))
  }

  // ---------------------------------------------------------------
  // Closed form of v * x^k for k <= 16
  // ---------------------------------------------------------------

  /**
   * Contribution of polynomial term x^t to bit i of v * x^k: bit
   * 128 - k + (i - t) of v overflowed and comes back at i.
   */
  function Folded(v: Reg, k: nat, i: int, t: int): bool
    requires k <= 16
  {
    0 <= i - t < k && v[128 - k + i - t]
  }

  /**
   * Bit i of v * x^k for k <= 16: the shifted bit, plus the overflowing
   * top k bits times x^7 + x^2 + x + 1.  The product of those k bits and
   * the polynomial stays below bit 128, so one folding suffices.
   */
  function ShiftedBit(v: Reg, k: nat, i: nat): bool
    requires k <= 16 && i < 128
  {
    ((((i >= k && v[i - k]) != Folded(v, k, i, 0)) != Folded(v, k, i, 1)) != Folded(v, k, i, 2))
      != Folded(v, k, i, 7)
  }

  function Shifted(v: Reg, k: nat): Reg
    requires k <= 16
  {
    seq(128, i requires 0 <= i < 128 => ShiftedBit(v, k, i))
  }

  /** One more doubling turns the closed form for k into the one for k + 1. */
  lemma ShiftedStep(v: Reg, k: nat)
    requires k < 16
    ensures Double(Shifted(v, k)) == Shifted(v, k + 1)
  {
    var c := Shifted(v, k);
    assert c[127] == v[127 - k];
    forall i | 0 <= i < 128
      ensures Double(c)[i] == Shifted(v, k + 1)[i]
    {
      if i > 0 {
        assert c[i - 1] == ShiftedBit(v, k, i - 1);
      }
    }
  }

  /** k doublings equal the closed form, for every k up to 16. */
  lemma {:induction false} DoublePowShifted(v: Reg, k: nat)
    requires k <= 16
    ensures DoublePow(v, k) == Shifted(v, k)
  {
    if k == 0 {
      assert Shifted(v, 0) == v;
    } else {
      DoublePowShifted(v, k - 1);
      ShiftedStep(v, k - 1);
    }
  }

  // ---------------------------------------------------------------
  // Linearity
  // ---------------------------------------------------------------

  /** Doubling distributes over XOR. */
  lemma DoubleXor(a: Reg, b: Reg)
    ensures Double(VXor(a, b)) == VXor(Double(a), Double(b))
  {
  }

  /** So do k doublings. */
  lemma {:induction false} DoublePowXor(a: Reg, b: Reg, k: nat)
    ensures DoublePow(VXor(a, b), k) == VXor(DoublePow(a, k), DoublePow(b, k))
  {
    if k > 0 {
      DoublePowXor(a, b, k - 1);
      DoubleXor(DoublePow(a, k - 1), DoublePow(b, k - 1));
    }
  }

  lemma {:induction false} DoublePowAdd(v: Reg, j: nat, k: nat)
    ensures DoublePow(DoublePow(v, j), k) == DoublePow(v, j + k)
  {
    if k > 0 {
      DoublePowAdd(v, j, k - 1);
    }
  }

  // ---------------------------------------------------------------
  // The byte-level gf_double is this doubling
  // ---------------------------------------------------------------

  /** Away from byte 0, doubling moves every bit up by one. */
  lemma DoubleBitsN(l: Reg, j: nat)
    requires 1 <= j < 16
    ensures Double(l)[8 * j] == l[8 * j - 1] && Double(l)[8 * j + 1] == l[8 * j]
    ensures Double(l)[8 * j + 2] == l[8 * j + 1] && Double(l)[8 * j + 3] == l[8 * j + 2]
    ensures Double(l)[8 * j + 4] == l[8 * j + 3] && Double(l)[8 * j + 5] == l[8 * j + 4]
    ensures Double(l)[8 * j + 6] == l[8 * j + 5] && Double(l)[8 * j + 7] == l[8 * j + 6]
  {
  }

  /** In byte 0 the top bit is folded back at bits 0, 1, 2 and 7. */
  lemma DoubleBits0(l: Reg)
    ensures Double(l)[0] == l[127] && Double(l)[1] == (l[0] != l[127])
    ensures Double(l)[2] == (l[1] != l[127]) && Double(l)[3] == l[2]
    ensures Double(l)[4] == l[3] && Double(l)[5] == l[4]
    ensures Double(l)[6] == l[5] && Double(l)[7] == (l[6] != l[127])
  {
  }

  /** The bits of byte j >= 1 of gf_double: x = in[j], y = in[j-1]. */
  lemma DoubleByteBitsN(x: Byte, y: Byte)
    ensures var z := ((x << 1) & 0xfe) | ((y >> 7) & 0x01);
      Bit(z, 0) == Bit(y, 7) && Bit(z, 1) == Bit(x, 0) && Bit(z, 2) == Bit(x, 1)
      && Bit(z, 3) == Bit(x, 2) && Bit(z, 4) == Bit(x, 3) && Bit(z, 5) == Bit(x, 4)
      && Bit(z, 6) == Bit(x, 5) && Bit(z, 7) == Bit(x, 6)
  {
  }

  /** The bits of byte 0 of gf_double: x = in[0], w = in[15]. */
  lemma DoubleByteBits0(x: Byte, w: Byte)
    ensures var z := ((x << 1) & 0xfe) ^ (Gf.Msb(w) * 0x87);
      Bit(z, 0) == Bit(w, 7) && Bit(z, 1) == (Bit(x, 0) != Bit(w, 7))
      && Bit(z, 2) == (Bit(x, 1) != Bit(w, 7)) && Bit(z, 3) == Bit(x, 2)
      && Bit(z, 4) == Bit(x, 3) && Bit(z, 5) == Bit(x, 4)
      && Bit(z, 6) == Bit(x, 5) && Bit(z, 7) == (Bit(x, 6) != Bit(w, 7))
  {
  }

  lemma StoreDoubleAtN(l: Reg, b: Block, j: nat)
    requires 1 <= j < 16 && ByteBits(l, j, b[j]) && ByteBits(l, j - 1, b[j - 1])
    ensures Store(Double(l))[j] == Gf.Double(b)[j]
  {
    DoubleBitsN(l, j);
    DoubleByteBitsN(b[j], b[j - 1]);
    StoreByteBits(Double(l), j, Gf.Double(b)[j]);
  }

  lemma StoreDoubleAt0(l: Reg, b: Block)
    requires ByteBits(l, 0, b[0]) && ByteBits(l, 15, b[15])
    ensures Store(Double(l))[0] == Gf.Double(b)[0]
  {
    DoubleBits0(l);
    DoubleByteBits0(b[0], b[15]);
    StoreByteBits(Double(l), 0, Gf.Double(b)[0]);
  }

  /**
   * gf_double on a 16-byte block (shared/utils.c) is doubling in
   * GF(2^128): loading its result gives the doubled register.
   */
  lemma GfDoubleIsDouble(b: Block)
    ensures Load(Gf.Double(b)) == Double(Load(b))
  {
    forall j | 0 <= j < 16
      ensures Store(Double(Load(b)))[j] == Gf.Double(b)[j]
    {
      LoadByteBits(b, j);
      LoadByteBits(b, if j == 0 then 15 else j - 1);
      if j == 0 { StoreDoubleAt0(Load(b), b); } else { StoreDoubleAtN(Load(b), b, j); }
    }
    LoadStore(Double(Load(b)), b);
  }
}
