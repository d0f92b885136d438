/**
 * The SIMD doubling code of the optimised build (opt/gfmul.h,
 * opt/gfmul.c): the in-register doubling macros and the eight-way Horner
 * steps, shown equal to doubling in GF(2^128).
 */
module GfOpt {
  import opened Register
  import opened Gf128

  // ---------------------------------------------------------------
  // Constants
  // ---------------------------------------------------------------

  lemma {:induction false} NatBitZero(b: nat)
    ensures !NatBit(0, b)
  {
    if b > 0 {
      NatBitZero(b - 1);
    }
  }

  lemma NatBitOne(b: nat)
    ensures NatBit(1, b) == (b == 0)
  {
    if b > 0 {
      NatBitZero(b - 1);
    }
  }

  /** The bits of 135 = 0x87 are those of x^7 + x^2 + x + 1. */
  lemma NatBit135(b: nat)
    ensures NatBit(135, b) == InPoly(b)
  {
    // 135 = 0b10000111: peel off one bit per step.
    if b > 0 {
      assert NatBit(135, b) == NatBit(67, b - 1);
      if b > 1 {
        assert NatBit(67, b - 1) == NatBit(33, b - 2);
        if b > 2 {
          assert NatBit(33, b - 2) == NatBit(16, b - 3);
          if b > 3 {
            assert NatBit(16, b - 3) == NatBit(8, b - 4);
            if b > 4 {
              assert NatBit(8, b - 4) == NatBit(4, b - 5);
              if b > 5 {
                assert NatBit(4, b - 5) == NatBit(2, b - 6);
                if b > 6 {
                  assert NatBit(2, b - 6) == NatBit(1, b - 7);
                  NatBitOne(b - 7);
                }
              }
            }
          }
        }
      }
    }
  }

  /** REDUCTION_POLYNOMIAL = set32(0, 0, 0, 135): x^7 + x^2 + x + 1 in the low lane. */
  function ReductionPolynomial(): Reg
  {
    Set32(0, 0, 0, 135)
  }

  lemma ReductionPolynomialBits()
    ensures forall t | 0 <= t < 128 :: ReductionPolynomial()[t] == InPoly(t)
  {
    forall t | 0 <= t < 128
      ensures ReductionPolynomial()[t] == InPoly(t)
    {
      if t < 32 {
        NatBit135(t);
      } else {
        NatBitZero(t % 32);
      }
    }
  }

  // ---------------------------------------------------------------
  // gf_2_128_double and gf_2_128_times_four
  // ---------------------------------------------------------------

  /** The two registers a doubling macro leaves behind: its first argument x and its result y. */
  datatype MacroOut = MacroOut(x: Reg, y: Reg)

  /**
   * gf_2_128_double(x, y, tmp): the sign of every 32-bit lane, masked to 1
   * (or to 135 in the top lane), rotated up one lane, is XORed onto the
   * lane-wise shift.  The macro assigns the shift to x before it computes
   * y, so x is overwritten.
   */
  function DoubleMacro(x: Reg): MacroOut
  {
    var tmp := CarryMask(x);
    var tmp := Shuffle32(tmp, MmShuffle(2, 1, 0, 3));
    var shifted := Sll32(x, 1);
    MacroOut(shifted, VXor(shifted, tmp))
  }

  /** The mask and-ed with the lane signs: 135 in the top lane, 1 in the others. */
  function CarryMask(x: Reg): Reg
  {
    VAnd(Sra32(x, 31), Set32(135, 1, 1, 1))
  }

  /** In lane 0 gf_2_128_double XORs in 135 times the top bit of the register. */
  lemma MacroCarryLow(x: Reg, i: nat)
    requires i < 32
    ensures Shuffle32(CarryMask(x), MmShuffle(2, 1, 0, 3))[i] == (x[127] && InPoly(i))
  {
    assert Selector(MmShuffle(2, 1, 0, 3), 0) == 3;
    assert Shuffle32(CarryMask(x), MmShuffle(2, 1, 0, 3))[i] == CarryMask(x)[96 + i];
    assert Sra32(x, 31)[96 + i] == x[127];
    NatBit135(i);
  }

  /** In lanes 1 to 3 it XORs in the top bit of the lane below, at the bottom of the lane. */
  lemma MacroCarryHigh(x: Reg, m: nat, b: nat)
    requires 1 <= m < 4 && b < 32
    ensures Shuffle32(CarryMask(x), MmShuffle(2, 1, 0, 3))[32 * m + b] == (b == 0 && x[32 * m - 1])
  {
    assert (32 * m + b) / 32 == m && (32 * m + b) % 32 == b;
    assert Selector(MmShuffle(2, 1, 0, 3), m) == m - 1;
    var j := 32 * (m - 1) + b;
    assert Shuffle32(CarryMask(x), MmShuffle(2, 1, 0, 3))[32 * m + b] == CarryMask(x)[j];
    assert j % 32 == b;
    assert Sra32(x, 31)[j] == x[32 * m - 1];
    NatBitOne(b);
  }

  lemma MacroBitLow(x: Reg, i: nat)
    requires i < 32
    ensures DoubleMacro(x).y[i] == Double(x)[i]
  {
    MacroCarryLow(x, i);
  }

  lemma MacroBitHigh(x: Reg, m: nat, b: nat)
    requires 1 <= m < 4 && b < 32
    ensures DoubleMacro(x).y[32 * m + b] == Double(x)[32 * m + b]
  {
    MacroCarryHigh(x, m, b);
    assert (32 * m + b) % 32 == b;
  }

  /** gf_2_128_double leaves 2x in y. */
  lemma DoubleMacroIsDouble(x: Reg)
    ensures DoubleMacro(x).y == Double(x)
  {
    forall i | 0 <= i < 128
      ensures DoubleMacro(x).y[i] == Double(x)[i]
    {
      if i < 32 { MacroBitLow(x, i); } else { MacroBitHigh(x, i / 32, i % 32); }
    }
  }

  /**
   * gf_2_128_times_four(x, y, tmp): doubling x into y, then y in place.
   * x is left holding its own lane-wise shift.
   */
  function TimesFourMacro(x: Reg): MacroOut
  {
    var first := DoubleMacro(x);
    var second := DoubleMacro(first.y);
    MacroOut(first.x, second.y)
  }

  /** gf_2_128_times_four leaves 4x in y. */
  lemma TimesFourMacroIsTimesFour(x: Reg)
    ensures TimesFourMacro(x).y == DoublePow(x, 2)
  {
    DoubleMacroIsDouble(x);
    DoubleMacroIsDouble(Double(x));
    assert DoublePow(x, 1) == Double(x);
  }

  /**
   * The first argument of the macro is overwritten with its lane-wise
   * shift, which drops the carries between lanes and the 0x87 fold: it is
   * not 2x in general, which is why the callers pass the same variable as
   * x and y.
   */
  lemma MacroClobbersX()
    ensures exists x: Reg :: DoubleMacro(x).x != Double(x)
  {
    var x: Reg := seq(128, i requires 0 <= i < 128 => i == 31);
    assert x[31];
    assert !Sll32(x, 1)[32];
    assert Double(x)[32];
    assert DoubleMacro(x).x != Double(x);
  }

  // ---------------------------------------------------------------
  // Carry-less multiplication by the reduction polynomial
  // ---------------------------------------------------------------

  /**
   * Bit i of the product of the high lane of a with x^7 + x^2 + x + 1,
   * counting only the first n bits of that lane.
   */
  function PolyFoldBit(a: Reg, i: nat, n: nat): bool
    requires i < 128 && n <= 64
  {
    (((0 <= i < n && a[64 + i]) != (0 <= i - 1 < n && a[64 + i - 1]))
      != (0 <= i - 2 < n && a[64 + i - 2])) != (0 <= i - 7 < n && a[64 + i - 7])
  }

  lemma {:induction false} ClMulPolyPrefix(a: Reg, i: nat, n: nat)
    requires i < 128 && n <= 64
    ensures ClMulBit(a, 64, ReductionPolynomial(), 0, i, n) == PolyFoldBit(a, i, n)
  {
    if n > 0 {
      ClMulPolyPrefix(a, i, n - 1);
      ReductionPolynomialBits();
    }
  }

  /** clmul(a, REDUCTION_POLYNOMIAL, 0x01) is the high lane of a times x^7 + x^2 + x + 1. */
  lemma ClMulPoly(a: Reg)
    ensures forall i | 0 <= i < 128 :: ClMul(a, ReductionPolynomial(), 0x01)[i] == PolyFoldBit(a, i, 64)
  {
    forall i | 0 <= i < 128
      ensures ClMul(a, ReductionPolynomial(), 0x01)[i] == PolyFoldBit(a, i, 64)
    {
      ClMulPolyPrefix(a, i, 64);
    }
  }

  /**
   * The reduction gfmul.c does for one term: shifting each lane left by k,
   * moving the low lane's overflow into the high lane, and folding the
   * high lane's overflow back with one carry-less multiply by 135, is
   * multiplication by x^k.  For k <= 16 the product of the overflow and
   * 135 fits in the low lane, so no second reduction is needed.
   */
  /** The high lane of srl64(v, 64 - k) holds the top k bits of v. */
  lemma SrlHigh(v: Reg, k: nat, t: int)
    requires 1 <= k <= 16 && 0 <= t < 64
    ensures Srl64(v, 64 - k)[64 + t] == (t < k && v[128 - k + t])
  {
  }

  /** Folding the high-lane overflow back gives the polynomial terms of the closed form. */
  lemma PolyFoldShift(v: Reg, k: nat, i: nat)
    requires 1 <= k <= 16 && i < 128
    ensures PolyFoldBit(Srl64(v, 64 - k), i, 64)
         == (((Folded(v, k, i, 0) != Folded(v, k, i, 1)) != Folded(v, k, i, 2)) != Folded(v, k, i, 7))
  {
    if i < 64 { SrlHigh(v, k, i); }
    if 1 <= i < 65 { SrlHigh(v, k, i - 1); }
    if 2 <= i < 66 { SrlHigh(v, k, i - 2); }
    if 7 <= i < 71 { SrlHigh(v, k, i - 7); }
  }

  /** The two lane shifts together move every bit up by k, across the lane boundary. */
  lemma LaneShift(v: Reg, k: nat, i: nat)
    requires 1 <= k <= 16 && i < 128
    ensures (Sll64(v, k)[i] != BytesLeft(Srl64(v, 64 - k), 8)[i]) == (i >= k && v[i - k])
  {
    if i >= 64 {
      assert BytesLeft(Srl64(v, 64 - k), 8)[i] == Srl64(v, 64 - k)[i - 64];
    }
  }

  lemma ReduceShiftBit(v: Reg, k: nat, i: nat)
    requires 1 <= k <= 16 && i < 128
    ensures ((Sll64(v, k)[i] != BytesLeft(Srl64(v, 64 - k), 8)[i])
             != ClMul(Srl64(v, 64 - k), ReductionPolynomial(), 0x01)[i])
         == Shifted(v, k)[i]
  {
    ClMulPolyPrefix(Srl64(v, 64 - k), i, 64);
    PolyFoldShift(v, k, i);
    LaneShift(v, k, i);
  }

  /** Term j of an eight-way step before accumulation: v[j] times x^k by lane shifts and one fold. */
  function FoldedTerm(w: Reg, k: nat): Reg
    requires 1 <= k <= 16
  {
    VXor(VXor(Sll64(w, k), BytesLeft(Srl64(w, 64 - k), 8)), ClMul(Srl64(w, 64 - k), ReductionPolynomial(), 0x01))
  }

  lemma ReduceShift(v: Reg, k: nat)
    requires 1 <= k <= 16
    ensures FoldedTerm(v, k) == Shifted(v, k)
  {
    forall i | 0 <= i < 128
      ensures FoldedTerm(v, k)[i] == Shifted(v, k)[i]
    {
      ReduceShiftBit(v, k, i);
    }
  }

  /** Shifting within lanes and folding once multiplies by x^k, for k up to 16. */
  lemma TermIsPower(v: Reg, k: nat)
    requires 1 <= k <= 16
    ensures FoldedTerm(v, k) == DoublePow(v, k)
  {
    ReduceShift(v, k);
    DoublePowShifted(v, k);
  }

  // ---------------------------------------------------------------
  // XOR algebra on registers
  // ---------------------------------------------------------------

  lemma VXorZero(a: Reg)
    ensures VXor(a, Zero()) == a
  {
    forall i | 0 <= i < 128
      ensures VXor(a, Zero())[i] == a[i]
    {
    }
  }

  lemma VXorAssoc(a: Reg, b: Reg, c: Reg)
    ensures VXor(VXor(a, b), c) == VXor(a, VXor(b, c))
  {
    forall i | 0 <= i < 128
      ensures VXor(VXor(a, b), c)[i] == VXor(a, VXor(b, c))[i]
    {
    }
  }

  /** A map on registers that distributes over vxor. */
  ghost predicate XorLinear(f: Reg -> Reg)
  {
    forall a: Reg, b: Reg :: f(VXor(a, b)) == VXor(f(a), f(b))
  }

  lemma BytesLeftLinear()
    ensures XorLinear(a => BytesLeft(a, 8))
  {
    forall a: Reg, b: Reg
      ensures BytesLeft(VXor(a, b), 8) == VXor(BytesLeft(a, 8), BytesLeft(b, 8))
    {
      forall i | 0 <= i < 128
        ensures BytesLeft(VXor(a, b), 8)[i] == VXor(BytesLeft(a, 8), BytesLeft(b, 8))[i]
      {
      }
    }
  }

  lemma ClMulPolyXor(a: Reg, b: Reg)
    ensures ClMul(VXor(a, b), ReductionPolynomial(), 0x01)
         == VXor(ClMul(a, ReductionPolynomial(), 0x01), ClMul(b, ReductionPolynomial(), 0x01))
  {
    ClMulPoly(a);
    ClMulPoly(b);
    ClMulPoly(VXor(a, b));
    forall i | 0 <= i < 128
      ensures ClMul(VXor(a, b), ReductionPolynomial(), 0x01)[i]
           == VXor(ClMul(a, ReductionPolynomial(), 0x01), ClMul(b, ReductionPolynomial(), 0x01))[i]
    {
    }
  }

  lemma ClMulPolyLinear()
    ensures XorLinear(a => ClMul(a, ReductionPolynomial(), 0x01))
  {
    forall a: Reg, b: Reg
      ensures ClMul(VXor(a, b), ReductionPolynomial(), 0x01)
           == VXor(ClMul(a, ReductionPolynomial(), 0x01), ClMul(b, ReductionPolynomial(), 0x01))
    {
      ClMulPolyXor(a, b);
    }
  }

  // ---------------------------------------------------------------
  // gf_2_128_double_eight and gf_2_128_times_four_eight
  // ---------------------------------------------------------------

  /** accumulate_eight: the XOR of eight registers, as a balanced tree. */
  function Accumulate8(t: seq<Reg>): Reg
    requires |t| == 8
  {
    VXor(VXor(VXor(t[0], t[1]), VXor(t[2], t[3])), VXor(VXor(t[4], t[5]), VXor(t[6], t[7])))
  }

  lemma AccumulateMap(f: Reg -> Reg, t: seq<Reg>)
    requires |t| == 8 && XorLinear(f)
    ensures f(Accumulate8(t)) == Accumulate8(seq(8, j requires 0 <= j < 8 => f(t[j])))
  {
  }

  /** The medial law of XOR. */
  lemma Medial(p: Reg, q: Reg, r: Reg, t: Reg)
    ensures VXor(VXor(p, q), VXor(r, t)) == VXor(VXor(p, r), VXor(q, t))
  {
    forall i | 0 <= i < 128
      ensures VXor(VXor(p, q), VXor(r, t))[i] == VXor(VXor(p, r), VXor(q, t))[i]
    {
    }
  }

  /** Two accumulations XORed together are the accumulation of the XORs. */
  lemma AccumulateXor(a: seq<Reg>, b: seq<Reg>)
    requires |a| == |b| == 8
    ensures VXor(Accumulate8(a), Accumulate8(b)) == Accumulate8(Xors(a, b))
  {
    Medial(a[0], a[1], b[0], b[1]);
    Medial(a[2], a[3], b[2], b[3]);
    Medial(a[4], a[5], b[4], b[5]);
    Medial(a[6], a[7], b[6], b[7]);
    Medial(VXor(a[0], a[1]), VXor(a[2], a[3]), VXor(b[0], b[1]), VXor(b[2], b[3]));
    Medial(VXor(a[4], a[5]), VXor(a[6], a[7]), VXor(b[4], b[5]), VXor(b[6], b[7]));
    Medial(VXor(VXor(a[0], a[1]), VXor(a[2], a[3])), VXor(VXor(a[4], a[5]), VXor(a[6], a[7])),
           VXor(VXor(b[0], b[1]), VXor(b[2], b[3])), VXor(VXor(b[4], b[5]), VXor(b[6], b[7])));
  }

  /**
   * The common shape of both eight-way steps, for s = 1 (doubling) and
   * s = 2 (times four): term j of v is multiplied by x^(s(8-j)) through
   * lane shifts, the low-lane overflow is moved up a lane, the high-lane
   * overflow is folded back by one carry-less multiply, and `last` is
   * added unmultiplied.
   */
  function Eight(v: seq<Reg>, s: nat, last: Reg): Reg
    requires |v| == 8 && 1 <= s <= 2
  {
    var hi := Accumulate8(Highs(v, s));
    var lo := Accumulate8(Lows(v, s));
    VXor(VXor(VXor(lo, BytesLeft(hi, 8)), ClMul(hi, ReductionPolynomial(), 0x01)), last)
  }

  /** The bits of each term that leave its 64-bit lanes, moved to the bottom of the lanes. */
  function Highs(v: seq<Reg>, s: nat): (r: seq<Reg>)
    requires |v| == 8 && 1 <= s <= 2
    ensures |r| == 8
  {
    seq(8, j requires 0 <= j < 8 => Srl64(v[j], 64 - s * (8 - j)))
  }

  /** Each term shifted within its 64-bit lanes. */
  function Lows(v: seq<Reg>, s: nat): (r: seq<Reg>)
    requires |v| == 8 && 1 <= s <= 2
    ensures |r| == 8
  {
    seq(8, j requires 0 <= j < 8 => Sll64(v[j], s * (8 - j)))
  }

  /** gf_2_128_double_eight(hash, x): hash * x^8 + x[0] * x^7 + ... + x[7]. */
  function DoubleEight(hash: Reg, x: seq<Reg>): Reg
    requires |x| == 8
  {
    var sum := Accumulate8([Srl64(hash, 56), Srl64(x[0], 57), Srl64(x[1], 58), Srl64(x[2], 59),
                            Srl64(x[3], 60), Srl64(x[4], 61), Srl64(x[5], 62), Srl64(x[6], 63)]);
    var mod := ClMul(sum, ReductionPolynomial(), 0x01);
    var sumLow := BytesLeft(sum, 8);
    var sum := Accumulate8([Sll64(hash, 8), Sll64(x[0], 7), Sll64(x[1], 6), Sll64(x[2], 5),
                            Sll64(x[3], 4), Sll64(x[4], 3), Sll64(x[5], 2), Sll64(x[6], 1)]);
    VXor(VXor(VXor(sum, sumLow), mod), x[7])
  }

  /** gf_2_128_times_four_eight(hash, x): hash * x^16 + x[0] * x^14 + ... + x[7]. */
  function TimesFourEight(hash: Reg, x: seq<Reg>): Reg
    requires |x| == 8
  {
    var sum := Accumulate8([Srl64(hash, 48), Srl64(x[0], 50), Srl64(x[1], 52), Srl64(x[2], 54),
                            Srl64(x[3], 56), Srl64(x[4], 58), Srl64(x[5], 60), Srl64(x[6], 62)]);
    var mod := ClMul(sum, ReductionPolynomial(), 0x01);
    var sumLow := BytesLeft(sum, 8);
    var sum := Accumulate8([Sll64(hash, 16), Sll64(x[0], 14), Sll64(x[1], 12), Sll64(x[2], 10),
                            Sll64(x[3], 8), Sll64(x[4], 6), Sll64(x[5], 4), Sll64(x[6], 2)]);
    VXor(VXor(VXor(sum, sumLow), mod), x[7])
  }

  /** The multiplicands of an eight-way step: the running hash, then x[0] .. x[6]. */
  function Multiplicands(hash: Reg, x: seq<Reg>): (v: seq<Reg>)
    requires |x| == 8
    ensures |v| == 8
  {
    [hash] + x[..7]
  }

  lemma DoubleEightShape(hash: Reg, x: seq<Reg>)
    requires |x| == 8
    ensures DoubleEight(hash, x) == Eight(Multiplicands(hash, x), 1, x[7])
  {
    var v := Multiplicands(hash, x);
    assert Highs(v, 1)
        == [Srl64(hash, 56), Srl64(x[0], 57), Srl64(x[1], 58), Srl64(x[2], 59),
            Srl64(x[3], 60), Srl64(x[4], 61), Srl64(x[5], 62), Srl64(x[6], 63)];
    assert Lows(v, 1)
        == [Sll64(hash, 8), Sll64(x[0], 7), Sll64(x[1], 6), Sll64(x[2], 5),
            Sll64(x[3], 4), Sll64(x[4], 3), Sll64(x[5], 2), Sll64(x[6], 1)];
  }

  lemma TimesFourEightShape(hash: Reg, x: seq<Reg>)
    requires |x| == 8
    ensures TimesFourEight(hash, x) == Eight(Multiplicands(hash, x), 2, x[7])
  {
    var v := Multiplicands(hash, x);
    assert Highs(v, 2)
        == [Srl64(hash, 48), Srl64(x[0], 50), Srl64(x[1], 52), Srl64(x[2], 54),
            Srl64(x[3], 56), Srl64(x[4], 58), Srl64(x[5], 60), Srl64(x[6], 62)];
    assert Lows(v, 2)
        == [Sll64(hash, 16), Sll64(x[0], 14), Sll64(x[1], 12), Sll64(x[2], 10),
            Sll64(x[3], 8), Sll64(x[4], 6), Sll64(x[5], 4), Sll64(x[6], 2)];
  }

  /** BytesLeft(_, 8) applied to every register of t. */
  function Ups(t: seq<Reg>): (r: seq<Reg>)
    requires |t| == 8
    ensures |r| == 8
  {
    seq(8, j requires 0 <= j < 8 => BytesLeft(t[j], 8))
  }

  /** The fold by the reduction polynomial applied to every register of t. */
  function Folds(t: seq<Reg>): (r: seq<Reg>)
    requires |t| == 8
    ensures |r| == 8
  {
    seq(8, j requires 0 <= j < 8 => ClMul(t[j], ReductionPolynomial(), 0x01))
  }

  /** Pointwise XOR of two lists of eight registers. */
  function Xors(a: seq<Reg>, b: seq<Reg>): (r: seq<Reg>)
    requires |a| == |b| == 8
    ensures |r| == 8
  {
    seq(8, j requires 0 <= j < 8 => VXor(a[j], b[j]))
  }

  lemma AccumulateBytesLeft(t: seq<Reg>)
    requires |t| == 8
    ensures BytesLeft(Accumulate8(t), 8) == Accumulate8(Ups(t))
  {
    BytesLeftLinear();
    AccumulateMap(a => BytesLeft(a, 8), t);
  }

  lemma AccumulateClMulPoly(t: seq<Reg>)
    requires |t| == 8
    ensures ClMul(Accumulate8(t), ReductionPolynomial(), 0x01) == Accumulate8(Folds(t))
  {
    ClMulPolyLinear();
    AccumulateMap(a => ClMul(a, ReductionPolynomial(), 0x01), t);
  }

  /** The terms of an eight-way step, each multiplied by its power of x through lane shifts and one fold. */
  function Terms(v: seq<Reg>, s: nat): (r: seq<Reg>)
    requires |v| == 8 && 1 <= s <= 2
    ensures |r| == 8
  {
    seq(8, j requires 0 <= j < 8 => FoldedTerm(v[j], s * (8 - j)))
  }

  /** Accumulating first and reducing after is the same as reducing every term. */
  lemma EightIsSumOfTerms(v: seq<Reg>, s: nat, last: Reg)
    requires |v| == 8 && 1 <= s <= 2
    ensures Eight(v, s, last) == VXor(Accumulate8(Terms(v, s)), last)
  {
    var hi := Highs(v, s);
    var lo := Lows(v, s);
    AccumulateBytesLeft(hi);
    AccumulateClMulPoly(hi);
    AccumulateXor(lo, Ups(hi));
    AccumulateXor(Xors(lo, Ups(hi)), Folds(hi));
    assert Xors(Xors(lo, Ups(hi)), Folds(hi)) == Terms(v, s);
  }

  /** The terms of an eight-way step as GF(2^128) products. */
  function Powers(v: seq<Reg>, s: nat): (r: seq<Reg>)
    requires |v| == 8
    ensures |r| == 8
  {
    seq(8, j requires 0 <= j < 8 => DoublePow(v[j], s * (8 - j)))
  }

  lemma TermsArePowers(v: seq<Reg>, s: nat)
    requires |v| == 8 && 1 <= s <= 2
    ensures Terms(v, s) == Powers(v, s)
  {
    forall j | 0 <= j < 8
      ensures Terms(v, s)[j] == Powers(v, s)[j]
    {
      var k := if s == 1 then 8 - j else 16 - 2 * j;
      assert s * (8 - j) == k;
      TermIsPower(v[j], k);
    }
  }

  /** The eight-way step multiplies term j by x^(s(8-j)) in GF(2^128). */
  lemma EightIsPowers(v: seq<Reg>, s: nat, last: Reg)
    requires |v| == 8 && 1 <= s <= 2
    ensures Eight(v, s, last) == VXor(Accumulate8(Powers(v, s)), last)
  {
    EightIsSumOfTerms(v, s, last);
    TermsArePowers(v, s);
  }

  // ---------------------------------------------------------------
  // The eight-way steps are eight Horner steps
  // ---------------------------------------------------------------

  /** f applied k times. */
  function Iterate(f: Reg -> Reg, k: nat, v: Reg): Reg
  {
    if k == 0 then v else f(Iterate(f, k - 1, v))
  }

  /**
   * The running hash after the first n values of xs, one value at a time:
   * each step applies the multiplication f and XORs in the next value (the
   * tail loop of encrypt_until in opt/zcz.c).
   */
  function Horner(f: Reg -> Reg, h: Reg, xs: seq<Reg>, n: nat): Reg
    requires n <= |xs|
  {
    if n == 0 then h else VXor(f(Horner(f, h, xs, n - 1)), xs[n - 1])
  }

  /** The XOR of f^(e - 1 - i)(xs[i]) over i < m. */
  function Weighted(f: Reg -> Reg, xs: seq<Reg>, e: nat, m: nat): Reg
    requires m <= e && m <= |xs|
  {
    if m == 0 then Zero() else VXor(Weighted(f, xs, e, m - 1), Iterate(f, e - m, xs[m - 1]))
  }

  /** One more application of a linear f raises every weight by one. */
  lemma {:induction false} WeightedShift(f: Reg -> Reg, xs: seq<Reg>, e: nat, m: nat)
    requires XorLinear(f) && f(Zero()) == Zero()
    requires m <= e && m <= |xs|
    ensures f(Weighted(f, xs, e, m)) == Weighted(f, xs, e + 1, m)
  {
    if m > 0 {
      WeightedShift(f, xs, e, m - 1);
      assert f(VXor(Weighted(f, xs, e, m - 1), Iterate(f, e - m, xs[m - 1])))
          == VXor(f(Weighted(f, xs, e, m - 1)), f(Iterate(f, e - m, xs[m - 1])));
    }
  }

  /** Horner's rule: n steps apply f n times to h and e - 1 - i times to each value xs[i]. */
  lemma {:induction false} HornerClosed(f: Reg -> Reg, h: Reg, xs: seq<Reg>, n: nat)
    requires XorLinear(f) && f(Zero()) == Zero()
    requires n <= |xs|
    ensures Horner(f, h, xs, n) == VXor(Iterate(f, n, h), Weighted(f, xs, n, n))
  {
    if n == 0 {
      VXorZero(h);
    } else {
      var a := Iterate(f, n - 1, h);
      var w := Weighted(f, xs, n - 1, n - 1);
      HornerClosed(f, h, xs, n - 1);
      assert f(VXor(a, w)) == VXor(f(a), f(w));
      WeightedShift(f, xs, n - 1, n - 1);
      VXorAssoc(f(a), Weighted(f, xs, n, n - 1), xs[n - 1]);
    }
  }

  /** Multiplication by x^s. */
  function Times(s: nat): Reg -> Reg
  {
    v => DoublePow(v, s)
  }

  lemma DoubleZero()
    ensures Double(Zero()) == Zero()
  {
    forall i | 0 <= i < 128
      ensures Double(Zero())[i] == Zero()[i]
    {
    }
  }

  lemma {:induction false} DoublePowZero(k: nat)
    ensures DoublePow(Zero(), k) == Zero()
  {
    if k > 0 {
      DoublePowZero(k - 1);
      DoubleZero();
    }
  }

  lemma TimesLinear(s: nat)
    ensures XorLinear(Times(s)) && Times(s)(Zero()) == Zero()
  {
    forall a: Reg, b: Reg
      ensures Times(s)(VXor(a, b)) == VXor(Times(s)(a), Times(s)(b))
    {
      DoublePowXor(a, b, s);
    }
    DoublePowZero(s);
  }

  lemma {:induction false} IterateTimes(s: nat, k: nat, v: Reg)
    ensures Iterate(Times(s), k, v) == DoublePow(v, s * k)
  {
    if k > 0 {
      IterateTimes(s, k - 1, v);
      DoublePowAdd(v, s * (k - 1), s);
      assert s * (k - 1) + s == s * k;
    }
  }

  /** Regrouping the balanced tree of accumulate_eight, and the final value, as a chain. */
  lemma Regroup(a: seq<Reg>, l: Reg)
    requires |a| == 8
    ensures VXor(Accumulate8(a), l)
         == VXor(a[0], VXor(VXor(VXor(VXor(VXor(VXor(VXor(VXor(Zero(), a[1]), a[2]), a[3]), a[4]), a[5]), a[6]), a[7]), l))
  {
    forall i | 0 <= i < 128
      ensures VXor(Accumulate8(a), l)[i]
           == VXor(a[0], VXor(VXor(VXor(VXor(VXor(VXor(VXor(VXor(Zero(), a[1]), a[2]), a[3]), a[4]), a[5]), a[6]), a[7]), l))[i]
    {
    }
  }

  /** The eight Horner weights as one chain. */
  lemma WeightedEight(f: Reg -> Reg, x: seq<Reg>)
    requires |x| == 8
    ensures Weighted(f, x, 8, 8)
         == VXor(VXor(VXor(VXor(VXor(VXor(VXor(VXor(Zero(), Iterate(f, 7, x[0])), Iterate(f, 6, x[1])),
                 Iterate(f, 5, x[2])), Iterate(f, 4, x[3])), Iterate(f, 3, x[4])), Iterate(f, 2, x[5])),
                 Iterate(f, 1, x[6])), x[7])
  {
    assert Weighted(f, x, 8, 1) == VXor(Zero(), Iterate(f, 7, x[0]));
    assert Weighted(f, x, 8, 2) == VXor(Weighted(f, x, 8, 1), Iterate(f, 6, x[1]));
    assert Weighted(f, x, 8, 3) == VXor(Weighted(f, x, 8, 2), Iterate(f, 5, x[2]));
    assert Weighted(f, x, 8, 4) == VXor(Weighted(f, x, 8, 3), Iterate(f, 4, x[3]));
    assert Weighted(f, x, 8, 5) == VXor(Weighted(f, x, 8, 4), Iterate(f, 3, x[4]));
    assert Weighted(f, x, 8, 6) == VXor(Weighted(f, x, 8, 5), Iterate(f, 2, x[5]));
    assert Weighted(f, x, 8, 7) == VXor(Weighted(f, x, 8, 6), Iterate(f, 1, x[6]));
    assert Weighted(f, x, 8, 8) == VXor(Weighted(f, x, 8, 7), Iterate(f, 0, x[7]));
  }

  /** Term j of the powers is the Horner weight of its multiplicand. */
  lemma PowerIsIterate(hash: Reg, x: seq<Reg>, s: nat, j: nat)
    requires |x| == 8 && 1 <= s <= 2 && j < 8
    ensures Powers(Multiplicands(hash, x), s)[j] == Iterate(Times(s), 8 - j, Multiplicands(hash, x)[j])
  {
    IterateTimes(s, 8 - j, Multiplicands(hash, x)[j]);
  }

  /** The powers of an eight-way step are the Horner weights. */
  lemma PowersAreWeighted(hash: Reg, x: seq<Reg>, s: nat)
    requires |x| == 8 && 1 <= s <= 2
    ensures VXor(Accumulate8(Powers(Multiplicands(hash, x), s)), x[7])
         == VXor(Iterate(Times(s), 8, hash), Weighted(Times(s), x, 8, 8))
  {
    var p := Powers(Multiplicands(hash, x), s);
    forall j | 0 <= j < 8
      ensures p[j] == Iterate(Times(s), 8 - j, Multiplicands(hash, x)[j])
    {
      PowerIsIterate(hash, x, s, j);
    }
    WeightedEight(Times(s), x);
    Regroup(p, x[7]);
  }

  /** gf_2_128_double_eight(hash, x) is eight doubling Horner steps over x[0] .. x[7]. */
  lemma DoubleEightIsHorner(hash: Reg, x: seq<Reg>)
    requires |x| == 8
    ensures DoubleEight(hash, x) == Horner(Times(1), hash, x, 8)
  {
    DoubleEightShape(hash, x);
    EightIsPowers(Multiplicands(hash, x), 1, x[7]);
    PowersAreWeighted(hash, x, 1);
    TimesLinear(1);
    HornerClosed(Times(1), hash, x, 8);
  }

  /** gf_2_128_times_four_eight(hash, x) is eight times-four Horner steps over x[0] .. x[7]. */
  lemma TimesFourEightIsHorner(hash: Reg, x: seq<Reg>)
    requires |x| == 8
    ensures TimesFourEight(hash, x) == Horner(Times(2), hash, x, 8)
  {
    TimesFourEightShape(hash, x);
    EightIsPowers(Multiplicands(hash, x), 2, x[7]);
    PowersAreWeighted(hash, x, 2);
    TimesLinear(2);
    HornerClosed(Times(2), hash, x, 8);
  }
}
