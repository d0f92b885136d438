/**
 * The optimised Deoxys-BC-128-384 of opt/deoxysbc.c: the precomputed
 * powers of H, the 16-bit-lane LFSR tricks, the key and tweak schedules,
 * the base counters of the batched paths, and the scalar encryption and
 * decryption.  Every piece is related to the reference of module Deoxys.
 *
 * A 128-bit register is viewed as the 16 bytes it stores; a 16-bit lane
 * m holds byte 2m in its low and byte 2m+1 in its high half, as
 * _mm_slli_epi16 and _mm_srli_epi16 see them.
 */
module DeoxysOpt {
  import opened Bytes
  import opened Deoxys

  // ---------------------------------------------------------------
  // H_PERMUTATION_1 .. H_PERMUTATION_8
  // ---------------------------------------------------------------

  /**
   * The shuffle mask H_PERMUTATION_k: byte i of _mm_shuffle_epi8(x, mask)
   * is byte HTable(k)[i] of x (no entry has its top bit set, so no byte is
   * cleared).
   */
  function HTable(k: nat): (t: seq<nat>)
    requires 1 <= k <= 8
    ensures |t| == 16
  {
    if k == 1 then [7, 0, 13, 10, 11, 4, 1, 14, 15, 8, 5, 2, 3, 12, 9, 6]
    else if k == 2 then [14, 7, 12, 5, 2, 11, 0, 9, 6, 15, 4, 13, 10, 3, 8, 1]
    else if k == 3 then [9, 14, 3, 4, 13, 2, 7, 8, 1, 6, 11, 12, 5, 10, 15, 0]
    else if k == 4 then [8, 9, 10, 11, 12, 13, 14, 15, 0, 1, 2, 3, 4, 5, 6, 7]
    else if k == 5 then [15, 8, 5, 2, 3, 12, 9, 6, 7, 0, 13, 10, 11, 4, 1, 14]
    else if k == 6 then [6, 15, 4, 13, 10, 3, 8, 1, 14, 7, 12, 5, 2, 11, 0, 9]
    else if k == 7 then [1, 6, 11, 12, 5, 10, 15, 0, 9, 14, 3, 4, 13, 2, 7, 8]
    else [0, 1, 2, 3, 4, 5, 6, 7, 8, 9, 10, 11, 12, 13, 14, 15]
  }

  /** From index i on, table k is table k - 1 read through H, i.e. one more application of H. */
  predicate ComposeFrom(k: nat, i: nat)
    requires 2 <= k <= 8
    decreases 16 - i
  {
    i >= 16 ||
    (HTable(k)[i] < 16 && HPermutation()[i] < 16 && HTable(k - 1)[HPermutation()[i]] < 16
     && HTable(k)[i] == HTable(k - 1)[HPermutation()[i]]
     && ComposeFrom(k, i + 1))
  }

  lemma {:induction false} ComposeAt(k: nat, i: nat, j: nat)
    requires 2 <= k <= 8 && ComposeFrom(k, i) && i <= j < 16
    ensures HTable(k)[j] < 16 && HPermutation()[j] < 16
    ensures HTable(k)[j] == HTable(k - 1)[HPermutation()[j]]
    decreases j - i
  {
    if i < j {
      ComposeAt(k, i + 1, j);
    }
  }

  /**
   * Every table agrees with the one before it, one table per lemma.  The
   * tables are checked entry by entry on literal indices; a single lemma
   * over a symbolic k (or over all k at once) asks the solver for every
   * table in one query, which exceeds its resource budget.
   */
  lemma Compose2()
    ensures ComposeFrom(2, 0)
  {
    assert ComposeFrom(2, 15);
    assert ComposeFrom(2, 14);
    assert ComposeFrom(2, 13);
    assert ComposeFrom(2, 12);
    assert ComposeFrom(2, 11);
    assert ComposeFrom(2, 10);
    assert ComposeFrom(2, 9);
    assert ComposeFrom(2, 8);
    assert ComposeFrom(2, 7);
    assert ComposeFrom(2, 6);
    assert ComposeFrom(2, 5);
    assert ComposeFrom(2, 4);
    assert ComposeFrom(2, 3);
    assert ComposeFrom(2, 2);
    assert ComposeFrom(2, 1);
    assert ComposeFrom(2, 0);
  }

  lemma Compose3()
    ensures ComposeFrom(3, 0)
  {
    assert ComposeFrom(3, 15);
    assert ComposeFrom(3, 14);
    assert ComposeFrom(3, 13);
    assert ComposeFrom(3, 12);
    assert ComposeFrom(3, 11);
    assert ComposeFrom(3, 10);
    assert ComposeFrom(3, 9);
    assert ComposeFrom(3, 8);
    assert ComposeFrom(3, 7);
    assert ComposeFrom(3, 6);
    assert ComposeFrom(3, 5);
    assert ComposeFrom(3, 4);
    assert ComposeFrom(3, 3);
    assert ComposeFrom(3, 2);
    assert ComposeFrom(3, 1);
    assert ComposeFrom(3, 0);
  }

  lemma Compose4()
    ensures ComposeFrom(4, 0)
  {
    assert ComposeFrom(4, 15);
    assert ComposeFrom(4, 14);
    assert ComposeFrom(4, 13);
    assert ComposeFrom(4, 12);
    assert ComposeFrom(4, 11);
    assert ComposeFrom(4, 10);
    assert ComposeFrom(4, 9);
    assert ComposeFrom(4, 8);
    assert ComposeFrom(4, 7);
    assert ComposeFrom(4, 6);
    assert ComposeFrom(4, 5);
    assert ComposeFrom(4, 4);
    assert ComposeFrom(4, 3);
    assert ComposeFrom(4, 2);
    assert ComposeFrom(4, 1);
    assert ComposeFrom(4, 0);
  }

  lemma Compose5()
    ensures ComposeFrom(5, 0)
  {
    assert ComposeFrom(5, 15);
    assert ComposeFrom(5, 14);
    assert ComposeFrom(5, 13);
    assert ComposeFrom(5, 12);
    assert ComposeFrom(5, 11);
    assert ComposeFrom(5, 10);
    assert ComposeFrom(5, 9);
    assert ComposeFrom(5, 8);
    assert ComposeFrom(5, 7);
    assert ComposeFrom(5, 6);
    assert ComposeFrom(5, 5);
    assert ComposeFrom(5, 4);
    assert ComposeFrom(5, 3);
    assert ComposeFrom(5, 2);
    assert ComposeFrom(5, 1);
    assert ComposeFrom(5, 0);
  }

  lemma Compose6()
    ensures ComposeFrom(6, 0)
  {
    assert ComposeFrom(6, 15);
    assert ComposeFrom(6, 14);
    assert ComposeFrom(6, 13);
    assert ComposeFrom(6, 12);
    assert ComposeFrom(6, 11);
    assert ComposeFrom(6, 10);
    assert ComposeFrom(6, 9);
    assert ComposeFrom(6, 8);
    assert ComposeFrom(6, 7);
    assert ComposeFrom(6, 6);
    assert ComposeFrom(6, 5);
    assert ComposeFrom(6, 4);
    assert ComposeFrom(6, 3);
    assert ComposeFrom(6, 2);
    assert ComposeFrom(6, 1);
    assert ComposeFrom(6, 0);
  }

  lemma Compose7()
    ensures ComposeFrom(7, 0)
  {
    assert ComposeFrom(7, 15);
    assert ComposeFrom(7, 14);
    assert ComposeFrom(7, 13);
    assert ComposeFrom(7, 12);
    assert ComposeFrom(7, 11);
    assert ComposeFrom(7, 10);
    assert ComposeFrom(7, 9);
    assert ComposeFrom(7, 8);
    assert ComposeFrom(7, 7);
    assert ComposeFrom(7, 6);
    assert ComposeFrom(7, 5);
    assert ComposeFrom(7, 4);
    assert ComposeFrom(7, 3);
    assert ComposeFrom(7, 2);
    assert ComposeFrom(7, 1);
    assert ComposeFrom(7, 0);
  }

  lemma Compose8()
    ensures ComposeFrom(8, 0)
  {
    assert ComposeFrom(8, 15);
    assert ComposeFrom(8, 14);
    assert ComposeFrom(8, 13);
    assert ComposeFrom(8, 12);
    assert ComposeFrom(8, 11);
    assert ComposeFrom(8, 10);
    assert ComposeFrom(8, 9);
    assert ComposeFrom(8, 8);
    assert ComposeFrom(8, 7);
    assert ComposeFrom(8, 6);
    assert ComposeFrom(8, 5);
    assert ComposeFrom(8, 4);
    assert ComposeFrom(8, 3);
    assert ComposeFrom(8, 2);
    assert ComposeFrom(8, 1);
    assert ComposeFrom(8, 0);
  }


  lemma ComposeAll(k: nat)
    requires 2 <= k <= 8
    ensures ComposeFrom(k, 0)
  {
    if k == 2 { Compose2(); }
    else if k == 3 { Compose3(); }
    else if k == 4 { Compose4(); }
    else if k == 5 { Compose5(); }
    else if k == 6 { Compose6(); }
    else if k == 7 { Compose7(); }
    else { Compose8(); }
  }

  /** A table that reads table p through H permutes like H after p. */
  lemma PermuteStep(x: Block, t: seq<nat>, p: seq<nat>)
    requires IsIndexMap(t) && IsIndexMap(p) && IsIndexMap(HPermutation())
    requires forall j | 0 <= j < 16 :: t[j] == p[HPermutation()[j]]
    ensures Permute(x, t) == PermuteTweak(Permute(x, p))
  {
  }

  lemma HTableOne(x: Block)
    ensures IsIndexMap(HTable(1))
    ensures Permute(x, HTable(1)) == PermutePow(x, 1)
  {
    HIndexMap();
    assert HTable(1) == HPermutation();
    assert PermutePow(x, 0) == x;
  }

  /** One more table: table k reads table k - 1 through H. */
  lemma HTableStep(x: Block, k: nat)
    requires 2 <= k <= 8
    requires IsIndexMap(HTable(k - 1)) && Permute(x, HTable(k - 1)) == PermutePow(x, k - 1)
    ensures IsIndexMap(HTable(k))
    ensures Permute(x, HTable(k)) == PermutePow(x, k)
  {
    HIndexMap();
    ComposeAll(k);
    forall j | 0 <= j < 16
      ensures HTable(k)[j] < 16 && HTable(k)[j] == HTable(k - 1)[HPermutation()[j]]
    {
      ComposeAt(k, 0, j);
    }
    PermuteStep(x, HTable(k), HTable(k - 1));
  }

  /** H_PERMUTATION_k permutes like k applications of permute_tweak. */
  lemma {:induction false} HTableIsPow(x: Block, k: nat)
    requires 1 <= k <= 8
    ensures IsIndexMap(HTable(k))
    ensures Permute(x, HTable(k)) == PermutePow(x, k)
  {
    if k == 1 {
      HTableOne(x);
    } else {
      HTableIsPow(x, k - 1);
      HTableStep(x, k);
    }
  }

  /** HTable(4) takes byte i + 8 to i and byte i to i + 8, from index i on. */
  predicate SwapFrom(i: nat)
    decreases 16 - i
  {
    i >= 16 || (HTable(4)[i] == (if i < 8 then i + 8 else i - 8) && SwapFrom(i + 1))
  }

  lemma {:induction false} SwapAt(i: nat, j: nat)
    requires SwapFrom(i) && i <= j < 16
    ensures HTable(4)[j] == (if j < 8 then j + 8 else j - 8)
    decreases j - i
  {
    if i < j {
      SwapAt(i + 1, j);
    }
  }

  /** HTable(8) is the identity from index i on. */
  predicate IdentityFrom(i: nat)
    decreases 16 - i
  {
    i >= 16 || (HTable(8)[i] == i && IdentityFrom(i + 1))
  }

  lemma {:induction false} IdentityAt(i: nat, j: nat)
    requires IdentityFrom(i) && i <= j < 16
    ensures HTable(8)[j] == j
    decreases j - i
  {
    if i < j {
      IdentityAt(i + 1, j);
    }
  }

  /** H_PERMUTATION_4 swaps the two 8-byte halves. */
  lemma HalfSwap(x: Block)
    ensures PermutePow(x, 4) == x[8..] + x[..8]
  {
    HTableIsPow(x, 4);
    assert SwapFrom(15);
    assert SwapFrom(14);
    assert SwapFrom(13);
    assert SwapFrom(12);
    assert SwapFrom(11);
    assert SwapFrom(10);
    assert SwapFrom(9);
    assert SwapFrom(8);
    assert SwapFrom(7);
    assert SwapFrom(6);
    assert SwapFrom(5);
    assert SwapFrom(4);
    assert SwapFrom(3);
    assert SwapFrom(2);
    assert SwapFrom(1);
    assert SwapFrom(0);
    forall j | 0 <= j < 16
      ensures PermutePow(x, 4)[j] == (x[8..] + x[..8])[j]
    {
      SwapAt(0, j);
    }
  }

  /** H_PERMUTATION_8 is the identity, so H has order dividing 8. */
  lemma PermutePowEight(x: Block)
    ensures PermutePow(x, 8) == x
  {
    HTableIsPow(x, 8);
    assert IdentityFrom(15);
    assert IdentityFrom(14);
    assert IdentityFrom(13);
    assert IdentityFrom(12);
    assert IdentityFrom(11);
    assert IdentityFrom(10);
    assert IdentityFrom(9);
    assert IdentityFrom(8);
    assert IdentityFrom(7);
    assert IdentityFrom(6);
    assert IdentityFrom(5);
    assert IdentityFrom(4);
    assert IdentityFrom(3);
    assert IdentityFrom(2);
    assert IdentityFrom(1);
    assert IdentityFrom(0);
    forall j | 0 <= j < 16
      ensures PermutePow(x, 8)[j] == x[j]
    {
      IdentityAt(0, j);
    }
  }

  lemma {:induction false} PermutePowAdd(x: Block, j: nat, k: nat)
    ensures PermutePow(PermutePow(x, j), k) == PermutePow(x, j + k)
  {
    if k > 0 {
      PermutePowAdd(x, j, k - 1);
    }
  }

  /** So the powers of H repeat with period 8, which is why tables 1..7 serve rounds 9..15 too. */
  lemma PermutePowPeriod(x: Block, i: nat)
    ensures PermutePow(x, i + 8) == PermutePow(x, i)
  {
    PermutePowAdd(x, i, 8);
    PermutePowEight(PermutePow(x, i));
  }

  lemma {:induction false} PermutePowMod(x: Block, i: nat)
    ensures PermutePow(x, i) == PermutePow(x, i % 8)
    decreases i
  {
    if i >= 8 {
      PermutePowMod(x, i - 8);
      PermutePowPeriod(x, i - 8);
      assert (i - 8) % 8 == i % 8;
    }
  }

  // ---------------------------------------------------------------
  // 16-bit lanes
  // ---------------------------------------------------------------

  type Lane = bv16

  /** The lane with byte lo in its low and byte hi in its high half. */
  function LaneOf(lo: Byte, hi: Byte): Lane
  {
    (lo as Lane) | ((hi as Lane) << 8)
  }

  function Lo(l: Lane): Byte { (l & 0xFF) as Byte }

  function Hi(l: Lane): Byte { (l >> 8) as Byte }

  /** A lane splits back into its two bytes. */
  lemma LoHi(lo: Byte, hi: Byte)
    ensures Lo(LaneOf(lo, hi)) == lo && Hi(LaneOf(lo, hi)) == hi
  {
  }

  /** Lane m of a block: bytes 2m and 2m + 1. */
  function LaneAt(x: Block, m: nat): Lane
    requires m < 8
  {
    LaneOf(x[2 * m], x[2 * m + 1])
  }

  /** A lane operation applied to all eight lanes of a register. */
  function LaneMap(f: Lane -> Lane, x: Block): Block
  {
    seq(16, j requires 0 <= j < 16 =>
      if j % 2 == 0 then Lo(f(LaneAt(x, j / 2))) else Hi(f(LaneAt(x, j / 2))))
  }

  /**
   * A lane operation that acts on each of its two bytes by g, with no bit
   * crossing between them, is g applied to every byte.
   */
  lemma LaneMapBytes(f: Lane -> Lane, g: Byte -> Byte, x: Block)
    requires forall lo: Byte, hi: Byte :: f(LaneOf(lo, hi)) == LaneOf(g(lo), g(hi))
    ensures LaneMap(f, x) == MapBytes(g, x)
  {
    forall j | 0 <= j < 16
      ensures LaneMap(f, x)[j] == g(x[j])
    {
      LaneMapAt(f, g, x, j / 2);
      assert j == 2 * (j / 2) + j % 2;
    }
  }

  lemma LaneMapAt(f: Lane -> Lane, g: Byte -> Byte, x: Block, m: nat)
    requires m < 8
    requires f(LaneAt(x, m)) == LaneOf(g(x[2 * m]), g(x[2 * m + 1]))
    ensures LaneMap(f, x)[2 * m] == g(x[2 * m]) && LaneMap(f, x)[2 * m + 1] == g(x[2 * m + 1])
  {
    assert (2 * m) / 2 == m && (2 * m) % 2 == 0;
    assert (2 * m + 1) / 2 == m && (2 * m + 1) % 2 == 1;
    LoHi(g(x[2 * m]), g(x[2 * m + 1]));
  }

  /** vandnot(a, b) = _mm_andnot_si128(a, b): (not a) and b. */
  function AndNot(a: Lane, b: Lane): Lane { !a & b }

  // ---------------------------------------------------------------
  // lfsr_three
  // ---------------------------------------------------------------

  /** The lfsr_three macro on one lane: MSB_MASK is 0x80 in every byte. */
  function Lfsr3Lane(x: Lane): Lane
  {
    var y := AndNot(0x8080, x >> 1);
    y ^ (((x << 1) ^ (x << 7)) & 0x8080)
  }

  /** On a lane the macro is lfsr_three_byte on each byte; the masks stop every bit that would cross. */
  lemma Lfsr3LaneBytes(lo: Byte, hi: Byte)
    ensures Lfsr3Lane(LaneOf(lo, hi)) == LaneOf(Lfsr3Byte(lo), Lfsr3Byte(hi))
  {
  }

  /** lfsr_three(x, y) on a register. */
  function Lfsr3Macro(x: Block): Block
  {
    LaneMap(Lfsr3Lane, x)
  }

  lemma Lfsr3MacroIsLfsr3(x: Block)
    ensures Lfsr3Macro(x) == Lfsr3(x)
  {
    forall lo: Byte, hi: Byte
      ensures Lfsr3Lane(LaneOf(lo, hi)) == LaneOf(Lfsr3Byte(lo), Lfsr3Byte(hi))
    {
      Lfsr3LaneBytes(lo, hi);
    }
    LaneMapBytes(Lfsr3Lane, Lfsr3Byte, x);
  }

  // ---------------------------------------------------------------
  // lfsr_two_generic and its powers
  // ---------------------------------------------------------------

  /** lfsr_two_byte applied r times. */
  function Lfsr2ByteN(b: Byte, r: nat): Byte
  {
    if r == 0 then b else Lfsr2Byte(Lfsr2ByteN(b, r - 1))
  }

  /** The first eight powers written out, for the bit-vector lemmas below. */
  lemma Lfsr2ByteNUnfold(b: Byte)
    ensures Lfsr2ByteN(b, 1) == Lfsr2Byte(b)
    ensures Lfsr2ByteN(b, 2) == Lfsr2Byte(Lfsr2ByteN(b, 1))
    ensures Lfsr2ByteN(b, 3) == Lfsr2Byte(Lfsr2ByteN(b, 2))
    ensures Lfsr2ByteN(b, 4) == Lfsr2Byte(Lfsr2ByteN(b, 3))
    ensures Lfsr2ByteN(b, 5) == Lfsr2Byte(Lfsr2ByteN(b, 4))
    ensures Lfsr2ByteN(b, 6) == Lfsr2Byte(Lfsr2ByteN(b, 5))
    ensures Lfsr2ByteN(b, 7) == Lfsr2Byte(Lfsr2ByteN(b, 6))
    ensures Lfsr2ByteN(b, 8) == Lfsr2Byte(Lfsr2ByteN(b, 7))
  {
  }

  /** set8(2^r - 1) on one lane: the low r bits of each byte. */
  function LowMask(r: nat): Lane
    requires 1 <= r <= 6
  {
    if r == 1 then 0x0101
    else if r == 2 then 0x0303
    else if r == 3 then 0x0707
    else if r == 4 then 0x0F0F
    else if r == 5 then 0x1F1F
    else 0x3F3F
  }

  /**
   * lfsr_two_generic(x, y, tmp, r1, r2, mask) on one lane:
   * tmp = x ^ (x << 2), then y = (mask & (tmp >> r1)) ^ (~mask & (x << r2)).
   */
  function Lfsr2GenericLane(x: Lane, r1: nat, r2: nat, mask: Lane): Lane
    requires r1 < 16 && r2 < 16
  {
    var tmp := x ^ (x << 2);
    (mask & (tmp >> r1)) ^ AndNot(mask, x << r2)
  }

  /** The call with shifts (8 - r, r) and mask 2^r - 1, as lfsr_two and the *_sequence_base macros make it. */
  function Lfsr2PowLane(x: Lane, r: nat): Lane
    requires 1 <= r <= 6
  {
    Lfsr2GenericLane(x, 8 - r, r, LowMask(r))
  }

  // One lemma per shift r: each is a bit-vector identity with literal
  // shift amounts.  With r symbolic the shifts become integer-to-bit-vector
  // conversions, and the six cases together in one query exceed the
  // solver's resource budget; Lfsr2PowLaneBytes dispatches on r.

  lemma Lfsr2PowLane1(lo: Byte, hi: Byte)
    ensures Lfsr2PowLane(LaneOf(lo, hi), 1) == LaneOf(Lfsr2ByteN(lo, 1), Lfsr2ByteN(hi, 1))
  {
    Lfsr2ByteNUnfold(lo);
    Lfsr2ByteNUnfold(hi);
  }

  lemma Lfsr2PowLane2(lo: Byte, hi: Byte)
    ensures Lfsr2PowLane(LaneOf(lo, hi), 2) == LaneOf(Lfsr2ByteN(lo, 2), Lfsr2ByteN(hi, 2))
  {
    Lfsr2ByteNUnfold(lo);
    Lfsr2ByteNUnfold(hi);
  }

  lemma Lfsr2PowLane3(lo: Byte, hi: Byte)
    ensures Lfsr2PowLane(LaneOf(lo, hi), 3) == LaneOf(Lfsr2ByteN(lo, 3), Lfsr2ByteN(hi, 3))
  {
    Lfsr2ByteNUnfold(lo);
    Lfsr2ByteNUnfold(hi);
  }

  lemma Lfsr2PowLane4(lo: Byte, hi: Byte)
    ensures Lfsr2PowLane(LaneOf(lo, hi), 4) == LaneOf(Lfsr2ByteN(lo, 4), Lfsr2ByteN(hi, 4))
  {
    Lfsr2ByteNUnfold(lo);
    Lfsr2ByteNUnfold(hi);
  }

  lemma Lfsr2PowLane5(lo: Byte, hi: Byte)
    ensures Lfsr2PowLane(LaneOf(lo, hi), 5) == LaneOf(Lfsr2ByteN(lo, 5), Lfsr2ByteN(hi, 5))
  {
    Lfsr2ByteNUnfold(lo);
    Lfsr2ByteNUnfold(hi);
  }

  lemma Lfsr2PowLane6(lo: Byte, hi: Byte)
    ensures Lfsr2PowLane(LaneOf(lo, hi), 6) == LaneOf(Lfsr2ByteN(lo, 6), Lfsr2ByteN(hi, 6))
  {
    Lfsr2ByteNUnfold(lo);
    Lfsr2ByteNUnfold(hi);
  }

  /**
   * For r = 1 .. 6 the generic macro is r steps of lfsr_two_byte on each
   * byte: the bits x << 2 carries from the low into the high byte land in
   * bits the mask then discards.
   */
  lemma Lfsr2PowLaneBytes(lo: Byte, hi: Byte, r: nat)
    requires 1 <= r <= 6
    ensures Lfsr2PowLane(LaneOf(lo, hi), r) == LaneOf(Lfsr2ByteN(lo, r), Lfsr2ByteN(hi, r))
  {
    if r == 1 { Lfsr2PowLane1(lo, hi); }
    else if r == 2 { Lfsr2PowLane2(lo, hi); }
    else if r == 3 { Lfsr2PowLane3(lo, hi); }
    else if r == 4 { Lfsr2PowLane4(lo, hi); }
    else if r == 5 { Lfsr2PowLane5(lo, hi); }
    else { Lfsr2PowLane6(lo, hi); }
  }

  /** The generic macro with parameter r on a register. */
  function Lfsr2Generic(x: Block, r: nat): Block
    requires 1 <= r <= 6
  {
    LaneMap(l => Lfsr2PowLane(l, r), x)
  }

  /** lfsr_two on blocks applied r times. */
  function Lfsr2N(x: Block, r: nat): Block
  {
    Iterate(Lfsr2, x, r)
  }

  lemma {:induction false} Lfsr2NAt(x: Block, r: nat, j: nat)
    requires j < 16
    ensures Lfsr2N(x, r)[j] == Lfsr2ByteN(x[j], r)
  {
    if r > 0 {
      Lfsr2NAt(x, r - 1, j);
    }
  }

  /** lfsr_two_generic with (8 - r, r, 2^r - 1) is r applications of lfsr_two, for r = 1 .. 6. */
  lemma Lfsr2GenericIsPow(x: Block, r: nat)
    requires 1 <= r <= 6
    ensures Lfsr2Generic(x, r) == Lfsr2N(x, r)
  {
    var f := (l: Lane) => Lfsr2PowLane(l, r);
    var g := (b: Byte) => Lfsr2ByteN(b, r);
    forall lo: Byte, hi: Byte
      ensures f(LaneOf(lo, hi)) == LaneOf(g(lo), g(hi))
    {
      Lfsr2PowLaneBytes(lo, hi, r);
    }
    LaneMapBytes(f, g, x);
    forall j | 0 <= j < 16
      ensures Lfsr2Generic(x, r)[j] == Lfsr2N(x, r)[j]
    {
      Lfsr2NAt(x, r, j);
    }
  }

  /** lfsr_two(x, y), the r = 1 case, is the reference lfsr_two. */
  lemma Lfsr2MacroIsLfsr2(x: Block)
    ensures Lfsr2Generic(x, 1) == Lfsr2(x)
  {
    Lfsr2GenericIsPow(x, 1);
    assert Iterate(Lfsr2, x, 0) == x;
  }

  // ---------------------------------------------------------------
  // lfsr_two_compute_w
  // ---------------------------------------------------------------

  /**
   * lfsr_two_compute_w on one lane whose low byte is a counter c:
   * y = (c ^ (c << 2)) & 0xFF, z = y ^ (y >> 6), w = (c << 8) | z.  The
   * source moves c up by a whole-register byte shift; the odd bytes are
   * masked to zero first, so on each lane that shift is c << 8.
   */
  function ComputeWLane(x: Lane): Lane
  {
    var c := x & 0x00FF;
    var y := (c ^ (c << 2)) & 0x00FF;
    var z := y ^ (y >> 6);
    (c << 8) | z
  }

  /** The eight_sequence_counters step for r = 1 .. 8: w >> (8 - r), before the final & 0xFF. */
  function CounterLane(x: Lane, r: nat): Lane
    requires 1 <= r <= 8
  {
    ComputeWLane(x) >> (8 - r)
  }

  /** The doc-comment's claim: LFSR2^r(c) = (w >> (8 - r)) & 0xFF, for r = 1 .. 8. */
  lemma CounterLaneIsPow(c: Byte, hi: Byte, r: nat)
    requires 1 <= r <= 8
    ensures Lo(CounterLane(LaneOf(c, hi), r)) == Lfsr2ByteN(c, r)
  {
    Lfsr2ByteNUnfold(c);
    var w := ComputeWLane(LaneOf(c, hi));
    if r == 1 { CounterLane1(c, hi); }
    else if r == 2 { CounterLane2(c, hi); }
    else if r == 3 { CounterLane3(c, hi); }
    else if r == 4 { CounterLane4(c, hi); }
    else if r == 5 { CounterLane5(c, hi); }
    else if r == 6 { CounterLane6(c, hi); }
    else if r == 7 { CounterLane7(c, hi); }
    else { CounterLane8(c, hi); }
  }

  // One lemma per shift 8 - r, for the same reason as Lfsr2PowLane1 ..
  // Lfsr2PowLane6: with the eight cases inlined into CounterLaneIsPow the
  // query runs out of resource.

  lemma CounterLane1(c: Byte, hi: Byte)
    ensures Lo(ComputeWLane(LaneOf(c, hi)) >> 7) == Lfsr2ByteN(c, 1)
  {
    Lfsr2ByteNUnfold(c);
  }

  lemma CounterLane2(c: Byte, hi: Byte)
    ensures Lo(ComputeWLane(LaneOf(c, hi)) >> 6) == Lfsr2ByteN(c, 2)
  {
    Lfsr2ByteNUnfold(c);
  }

  lemma CounterLane3(c: Byte, hi: Byte)
    ensures Lo(ComputeWLane(LaneOf(c, hi)) >> 5) == Lfsr2ByteN(c, 3)
  {
    Lfsr2ByteNUnfold(c);
  }

  lemma CounterLane4(c: Byte, hi: Byte)
    ensures Lo(ComputeWLane(LaneOf(c, hi)) >> 4) == Lfsr2ByteN(c, 4)
  {
    Lfsr2ByteNUnfold(c);
  }

  lemma CounterLane5(c: Byte, hi: Byte)
    ensures Lo(ComputeWLane(LaneOf(c, hi)) >> 3) == Lfsr2ByteN(c, 5)
  {
    Lfsr2ByteNUnfold(c);
  }

  lemma CounterLane6(c: Byte, hi: Byte)
    ensures Lo(ComputeWLane(LaneOf(c, hi)) >> 2) == Lfsr2ByteN(c, 6)
  {
    Lfsr2ByteNUnfold(c);
  }

  lemma CounterLane7(c: Byte, hi: Byte)
    ensures Lo(ComputeWLane(LaneOf(c, hi)) >> 1) == Lfsr2ByteN(c, 7)
  {
    Lfsr2ByteNUnfold(c);
  }

  lemma CounterLane8(c: Byte, hi: Byte)
    ensures Lo(ComputeWLane(LaneOf(c, hi)) >> 0) == Lfsr2ByteN(c, 8)
  {
    Lfsr2ByteNUnfold(c);
  }

  // ---------------------------------------------------------------
  // Key and tweak schedules
  // ---------------------------------------------------------------

  /** set64(hi, lo) = _mm_set_epi64: lo little-endian in bytes 0..7, hi in bytes 8..15. */
  function Set64(hi: Word, lo: Word): Block
  {
    ToLe(lo) + ToLe(hi)
  }

  /** The second tweak of setup_tweak: the domain in byte 0, the counter in bytes 8..15. */
  function CounterTweak(domain: Byte, counter: Word): Block
  {
    Set64(counter, domain as Word)
  }

  /**
   * deoxys_bc_128_384_setup_key: the H-after-LFSR3 chain built with the
   * lane macro, then the round constants.  The result is the key part of
   * the reference 128-384 schedule.
   */
  method SetupKey(key: Block) returns (roundKeys: seq<Block>)
    ensures |roundKeys| == 17
    ensures forall i | 0 <= i < 17 ::
      roundKeys[i] == Xor(KeyTk(Deoxys128x384, key, i), RoundConstant(i))
  {
    var chain := [key];
    var i := 0;
    while i < 16
      invariant 0 <= i <= 16 && |chain| == i + 1
      invariant forall j | 0 <= j <= i :: chain[j] == KeyTk(Deoxys128x384, key, j)
    {
      var next := Lfsr3Macro(chain[i]);
      Lfsr3MacroIsLfsr3(chain[i]);
      next := PermuteTweak(next);
      chain := chain + [next];
      i := i + 1;
    }
    roundKeys := AddRoundConstants(chain, 16);
  }

  /** TK2 as the optimised code advances it: LFSR2 first, then H. */
  function OptTk2(t: Block, i: nat): Block
  {
    if i == 0 then t else PermuteTweak(Lfsr2(OptTk2(t, i - 1)))
  }

  /** Because lfsr_two is bytewise it commutes with H, so the two orders give the same TK2. */
  lemma {:induction false} OptTk2IsTk2(t: Block, i: nat)
    ensures OptTk2(t, i) == Tk2(t, i)
  {
    if i > 0 {
      OptTk2IsTk2(t, i - 1);
      HIndexMap();
      LfsrPermute(Tk2(t, i - 1), HPermutation());
    }
  }

  /** The round tweaks of setup_tweak: TK2 of round i XOR H^i of the tweak block. */
  function RoundTweak(domain: Byte, counter: Word, tweakBlock: Block, i: nat): Block
  {
    Xor(Tk2(CounterTweak(domain, counter), i), PermutePow(tweakBlock, i))
  }

  /** deoxys_bc_128_384_setup_tweak, with lfsr_two as the lane macro. */
  method SetupTweak(domain: Byte, counter: Word, tweakBlock: Block) returns (roundTweaks: seq<Block>)
    ensures |roundTweaks| == 17
    ensures forall i | 0 <= i < 17 :: roundTweaks[i] == RoundTweak(domain, counter, tweakBlock, i)
  {
    var first := tweakBlock;
    var second := CounterTweak(domain, counter);
    roundTweaks := [Xor(second, first)];
    var i := 1;
    while i < 17
      invariant 1 <= i <= 17 && |roundTweaks| == i
      invariant first == PermutePow(tweakBlock, i - 1)
      invariant second == OptTk2(CounterTweak(domain, counter), i - 1)
      invariant forall j | 0 <= j < i :: roundTweaks[j] == RoundTweak(domain, counter, tweakBlock, j)
    {
      var tmp := Lfsr2Generic(second, 1);
      Lfsr2MacroIsLfsr2(second);
      second := PermuteTweak(tmp);
      first := PermuteTweak(first);
      OptTk2IsTk2(CounterTweak(domain, counter), i);
      roundTweaks := roundTweaks + [Xor(second, first)];
      i := i + 1;
    }
  }

  // ---------------------------------------------------------------
  // Scalar encryption and decryption
  // ---------------------------------------------------------------

  /** Round keys and round tweaks combined as the optimised code XORs them: key i XOR tweak i. */
  function Combined(keys: seq<Block>, tweaks: seq<Block>): (r: seq<Block>)
    requires |keys| == |tweaks|
    ensures |r| == |keys|
  {
    seq(|keys|, i requires 0 <= i < |keys| => Xor(keys[i], tweaks[i]))
  }

  /**
   * The state of deoxys_bc_128_encrypt after round i: vxor3 of the
   * plaintext, tweak 0 and key 0, then vaesenc with key i XOR tweak i.
   */
  function OptEncState(a: Aes, keys: seq<Block>, tweaks: seq<Block>, p: Block, i: nat): Block
    requires i < |keys| && |keys| == |tweaks|
  {
    if i == 0 then Xor(p, Xor(tweaks[0], keys[0]))
    else EncRound(a, OptEncState(a, keys, tweaks, p, i - 1), Xor(keys[i], tweaks[i]))
  }

  /** deoxys_bc_128_encrypt: all rounds. */
  function OptEncrypt(a: Aes, keys: seq<Block>, tweaks: seq<Block>, p: Block): Block
    requires |keys| == |tweaks| >= 1
  {
    OptEncState(a, keys, tweaks, p, |keys| - 1)
  }

  /** With the keys and tweaks combined, the optimised rounds are the reference rounds. */
  lemma {:induction false} OptEncStateIsEncState(a: Aes, keys: seq<Block>, tweaks: seq<Block>, p: Block, i: nat)
    requires i < |keys| && |keys| == |tweaks|
    ensures OptEncState(a, keys, tweaks, p, i) == EncState(a, Combined(keys, tweaks), p, i)
  {
    if i == 0 {
      XorCancel(tweaks[0], keys[0]);
    } else {
      OptEncStateIsEncState(a, keys, tweaks, p, i - 1);
    }
  }

  /** vaesdeclast (AESDECLAST): InvShiftRows, InvSubBytes, AddRoundKey, with no InvMixColumns. */
  function DecLastRound(a: Aes, s: Block, k: Block): Block
  {
    Xor(a.invSubBytes(a.invShiftRows(s)), k)
  }

  /**
   * InvMixColumns on every block but the first and the last:
   * setup_decryption_key for the keys and setup_decryption_tweak for the
   * tweaks, rounds 1 .. NUM_ROUNDS - 1.
   */
  function InnerInvMixColumns(a: Aes, ks: seq<Block>): (r: seq<Block>)
    ensures |r| == |ks|
  {
    seq(|ks|, i requires 0 <= i < |ks| => InnerInvMixColumnsAt(a, ks, i))
  }

  function InnerInvMixColumnsAt(a: Aes, ks: seq<Block>, i: nat): Block
    requires i < |ks|
  {
    if 0 < i < |ks| - 1 then a.invMixColumns(ks[i]) else ks[i]
  }

  /** The decryption rounds i, i - 1, .., 1 of deoxys_bc_128_decrypt (vaesdec), with combined keys. */
  function OptDecDown(a: Aes, ks: seq<Block>, u: Block, i: nat): Block
    requires i < |ks|
    decreases i
  {
    if i == 0 then u else OptDecDown(a, ks, DecRound(a, u, ks[i]), i - 1)
  }

  /**
   * deoxys_bc_128_decrypt: vxor3 of the ciphertext with the last tweak and
   * key, vinversemc, vaesdec from round NUM_ROUNDS - 1 down to 1, and
   * vaesdeclast with round 0.
   */
  function OptDecrypt(a: Aes, keys: seq<Block>, tweaks: seq<Block>, c: Block): Block
    requires |keys| == |tweaks| >= 2
  {
    var n := |keys| - 1;
    var ks := Combined(keys, tweaks);
    var s := a.invMixColumns(Xor(c, Xor(tweaks[n], keys[n])));
    DecLastRound(a, OptDecDown(a, ks, s, n - 1), Xor(keys[0], tweaks[0]))
  }

  /** MixColumns is linear too: it is the inverse of a linear map. */
  lemma MixColumnsXor(a: Aes, x: Block, y: Block)
    requires Inverses(a)
    ensures a.mixColumns(Xor(x, y)) == Xor(a.mixColumns(x), a.mixColumns(y))
  {
    var mx := a.mixColumns(x);
    var my := a.mixColumns(y);
    assert a.invMixColumns(Xor(mx, my)) == Xor(x, y);
  }

  /**
   * The reference ends with a full decryption round under InvMixColumns of
   * key 0 and then MixColumns; that is one vaesdeclast with key 0 (the
   * equivalent inverse cipher of FIPS 197 section 5.3.5, last round).
   */
  lemma LastRoundEquivalence(a: Aes, s: Block, k: Block)
    requires Inverses(a)
    ensures a.mixColumns(DecRound(a, s, a.invMixColumns(k))) == DecLastRound(a, s, k)
  {
    var t := a.invSubBytes(a.invShiftRows(s));
    assert DecRound(a, s, a.invMixColumns(k)) == a.invMixColumns(Xor(t, k));
  }

  /** Decryption rounds i .. 0 are rounds i .. 1 followed by round 0, when the keys agree on 1 .. i. */
  lemma {:induction false} DecFromSplit(a: Aes, dk: seq<Block>, ks: seq<Block>, u: Block, i: nat)
    requires i < |dk| && i < |ks|
    requires forall j | 1 <= j <= i :: ks[j] == dk[j]
    ensures DecFrom(a, dk, u, i) == DecRound(a, OptDecDown(a, ks, u, i), dk[0])
    decreases i
  {
    if i > 0 {
      DecFromSplit(a, dk, ks, DecRound(a, u, dk[i]), i - 1);
    }
  }

  /** The inner decryption keys: InvMixColumns of key XOR tweak is the XOR of their InvMixColumns. */
  lemma InnerKeysAgree(a: Aes, keys: seq<Block>, tweaks: seq<Block>, j: nat)
    requires Inverses(a) && |keys| == |tweaks| && 1 <= j < |keys| - 1
    ensures Combined(InnerInvMixColumns(a, keys), InnerInvMixColumns(a, tweaks))[j]
         == DecryptionKeys(a, Combined(keys, tweaks))[j]
  {
  }

  lemma InnerKeysAgreeAll(a: Aes, keys: seq<Block>, tweaks: seq<Block>)
    requires Inverses(a) && |keys| == |tweaks| >= 2
    ensures forall j | 1 <= j <= |keys| - 2 ::
      Combined(InnerInvMixColumns(a, keys), InnerInvMixColumns(a, tweaks))[j]
      == DecryptionKeys(a, Combined(keys, tweaks))[j]
  {
    forall j | 1 <= j <= |keys| - 2
      ensures Combined(InnerInvMixColumns(a, keys), InnerInvMixColumns(a, tweaks))[j]
           == DecryptionKeys(a, Combined(keys, tweaks))[j]
    {
      InnerKeysAgree(a, keys, tweaks, j);
    }
  }

  /** The outer keys are left alone: the last decryption key is the last combined key. */
  lemma OuterKeys(a: Aes, keys: seq<Block>, tweaks: seq<Block>)
    requires |keys| == |tweaks| >= 2
    ensures var n := |keys| - 1;
      && Xor(InnerInvMixColumns(a, tweaks)[n], InnerInvMixColumns(a, keys)[n])
         == DecryptionKeys(a, Combined(keys, tweaks))[n]
      && Xor(InnerInvMixColumns(a, keys)[0], InnerInvMixColumns(a, tweaks)[0]) == Xor(keys[0], tweaks[0])
  {
    var n := |keys| - 1;
    XorCancel(tweaks[n], keys[n]);
  }

  /**
   * The optimised decryption (keys and tweaks each with InvMixColumns on
   * the inner rounds, vaesdeclast at the end) computes the reference
   * decryption of the combined schedule.
   */
  lemma OptDecryptIsInvCipher(a: Aes, keys: seq<Block>, tweaks: seq<Block>, c: Block)
    requires Inverses(a) && |keys| == |tweaks| >= 2
    ensures OptDecrypt(a, InnerInvMixColumns(a, keys), InnerInvMixColumns(a, tweaks), c)
         == InvCipher(a, DecryptionKeys(a, Combined(keys, tweaks)), c)
  {
    var n := |keys| - 1;
    var dk := DecryptionKeys(a, Combined(keys, tweaks));
    var ks := Combined(InnerInvMixColumns(a, keys), InnerInvMixColumns(a, tweaks));
    InnerKeysAgreeAll(a, keys, tweaks);
    OuterKeys(a, keys, tweaks);
    var s := a.invMixColumns(Xor(c, dk[n]));
    DecFromSplit(a, dk, ks, s, n - 1);
    assert dk[0] == a.invMixColumns(Xor(keys[0], tweaks[0]));
    LastRoundEquivalence(a, OptDecDown(a, ks, s, n - 1), Xor(keys[0], tweaks[0]));
  }

  // ---------------------------------------------------------------
  // The optimised block cipher is the reference 128-384 cipher
  // ---------------------------------------------------------------

  /** The 17 round keys SetupKey computes. */
  function OptRoundKeys(key: Block): (r: seq<Block>)
    ensures |r| == 17
  {
    seq(17, i requires 0 <= i < 17 => Xor(KeyTk(Deoxys128x384, key, i), RoundConstant(i)))
  }

  /** The 17 round tweaks SetupTweak computes. */
  function OptRoundTweaks(domain: Byte, counter: Word, tweakBlock: Block): (r: seq<Block>)
    ensures |r| == 17
  {
    seq(17, i requires 0 <= i < 17 => RoundTweak(domain, counter, tweakBlock, i))
  }

  /** The 32-byte reference tweak the optimised arguments stand for: tweak block, then TK2. */
  function RefTweak(domain: Byte, counter: Word, tweakBlock: Block): (t: seq<Byte>)
    ensures |t| == 32
  {
    tweakBlock + CounterTweak(domain, counter)
  }

  lemma CombinedAt(key: Block, domain: Byte, counter: Word, tweakBlock: Block, i: nat)
    requires i < 17
    ensures Combined(OptRoundKeys(key), OptRoundTweaks(domain, counter, tweakBlock))[i]
         == RoundTweakeys(Deoxys128x384, key, RefTweak(domain, counter, tweakBlock))[i]
  {
    var t := RefTweak(domain, counter, tweakBlock);
    assert t[..16] == tweakBlock && t[16..] == CounterTweak(domain, counter);
    var base := Xor(KeyTk(Deoxys128x384, key, i), RoundConstant(i));
    var tk1 := PermutePow(tweakBlock, i);
    var tk2 := Tk2(CounterTweak(domain, counter), i);
    XorCancel(tk2, tk1);
    XorAssoc(base, tk1, tk2);
  }

  /** Round key i XOR round tweak i is the reference round tweakey i. */
  lemma CombinedIsSchedule(key: Block, domain: Byte, counter: Word, tweakBlock: Block)
    ensures Combined(OptRoundKeys(key), OptRoundTweaks(domain, counter, tweakBlock))
         == RoundTweakeys(Deoxys128x384, key, RefTweak(domain, counter, tweakBlock))
  {
    forall i | 0 <= i < 17
      ensures Combined(OptRoundKeys(key), OptRoundTweaks(domain, counter, tweakBlock))[i]
           == RoundTweakeys(Deoxys128x384, key, RefTweak(domain, counter, tweakBlock))[i]
    {
      CombinedAt(key, domain, counter, tweakBlock, i);
    }
  }

  /** deoxys_bc_128_384_encrypt (opt): set up the tweak, then the scalar rounds. */
  function BlockEncrypt(a: Aes, key: Block, domain: Byte, counter: Word, tweakBlock: Block, p: Block): Block
  {
    OptEncrypt(a, OptRoundKeys(key), OptRoundTweaks(domain, counter, tweakBlock), p)
  }

  /** deoxys_bc_128_384_decrypt (opt): decryption keys and tweaks, then the scalar inverse rounds. */
  function BlockDecrypt(a: Aes, key: Block, domain: Byte, counter: Word, tweakBlock: Block, c: Block): Block
  {
    OptDecrypt(a, InnerInvMixColumns(a, OptRoundKeys(key)),
               InnerInvMixColumns(a, OptRoundTweaks(domain, counter, tweakBlock)), c)
  }

  /** The optimised encryption is the reference Deoxys-BC-128-384 encryption. */
  lemma BlockEncryptIsRef(a: Aes, key: Block, domain: Byte, counter: Word, tweakBlock: Block, p: Block)
    ensures BlockEncrypt(a, key, domain, counter, tweakBlock, p)
         == Deoxys.Encrypt(a, Deoxys128x384, key, RefTweak(domain, counter, tweakBlock), p)
  {
    OptEncStateIsEncState(a, OptRoundKeys(key), OptRoundTweaks(domain, counter, tweakBlock), p, 16);
    CombinedIsSchedule(key, domain, counter, tweakBlock);
  }

  /** The optimised decryption is the reference Deoxys-BC-128-384 decryption. */
  lemma BlockDecryptIsRef(a: Aes, key: Block, domain: Byte, counter: Word, tweakBlock: Block, c: Block)
    requires Inverses(a)
    ensures BlockDecrypt(a, key, domain, counter, tweakBlock, c)
         == Deoxys.Decrypt(a, Deoxys128x384, key, RefTweak(domain, counter, tweakBlock), c)
  {
    OptDecryptIsInvCipher(a, OptRoundKeys(key), OptRoundTweaks(domain, counter, tweakBlock), c);
    CombinedIsSchedule(key, domain, counter, tweakBlock);
  }

  /** So the optimised decryption inverts the optimised encryption under the same tweak. */
  lemma BlockRoundTrip(a: Aes, key: Block, domain: Byte, counter: Word, tweakBlock: Block, p: Block)
    requires Inverses(a)
    ensures BlockDecrypt(a, key, domain, counter, tweakBlock, BlockEncrypt(a, key, domain, counter, tweakBlock, p)) == p
  {
    var c := BlockEncrypt(a, key, domain, counter, tweakBlock, p);
    BlockEncryptIsRef(a, key, domain, counter, tweakBlock, p);
    BlockDecryptIsRef(a, key, domain, counter, tweakBlock, c);
    EncryptDecrypt(a, Deoxys128x384, key, RefTweak(domain, counter, tweakBlock), p);
  }

  // ---------------------------------------------------------------
  // Base counters
  // ---------------------------------------------------------------

  lemma {:induction false} IterateAdd(step: Block -> Block, x: Block, j: nat, k: nat)
    ensures Iterate(step, Iterate(step, x, j), k) == Iterate(step, x, j + k)
  {
    if k > 0 {
      IterateAdd(step, x, j, k - 1);
    }
  }

  /** lfsr_two is bytewise, so it commutes with every power of H. */
  lemma {:induction false} Lfsr2PermutePow(x: Block, k: nat)
    ensures Lfsr2(PermutePow(x, k)) == PermutePow(Lfsr2(x), k)
  {
    if k > 0 {
      Lfsr2PermutePow(x, k - 1);
      HIndexMap();
      LfsrPermute(PermutePow(x, k - 1), HPermutation());
    }
  }

  /** TK2 of round i in closed form: i applications of lfsr_two, then H^i. */
  lemma {:induction false} Tk2Closed(t: Block, i: nat)
    ensures Tk2(t, i) == PermutePow(Lfsr2N(t, i), i)
  {
    if i > 0 {
      Tk2Closed(t, i - 1);
      Lfsr2PermutePow(Lfsr2N(t, i - 1), i);
    }
  }

  /**
   * One step of lfsr_two_six_sequence_base / lfsr_two_four_sequence_base:
   * entry r of a run starting at x (r = 0 is x itself).
   */
  function SequenceBase(x: Block, r: nat): Block
    requires r <= 6
  {
    if r == 0 then x else Lfsr2Generic(x, r)
  }

  /**
   * Entry i of base_counters before permute_base: runs of six, six and
   * four, each starting at the last entry of the run before.
   */
  function UnpermutedBase(b0: Block, i: nat): Block
    requires i <= 16
  {
    if i <= 6 then SequenceBase(b0, i)
    else if i <= 12 then SequenceBase(UnpermutedBase(b0, 6), i - 6)
    else SequenceBase(UnpermutedBase(b0, 12), i - 12)
  }

  /**
   * Entry i of base_counters: permute_base on entries 1 .. 7 and on
   * 9 .. 15 with H_PERMUTATION_1 .. 7; entries 0, 8 and 16 stay.
   */
  function BaseCounter(b0: Block, i: nat): Block
    requires i <= 16
  {
    var x := UnpermutedBase(b0, i);
    if i % 8 == 0 then x else HTableIsPow(x, i % 8); Permute(x, HTable(i % 8))
  }

  /**
   * deoxys_bc_128_384_setup_base_counters: entry 0 is set64 of the
   * counter with its low byte cleared and the domain.
   */
  function BaseCounters(domain: Byte, counter: Word): (r: seq<Block>)
    ensures |r| == 17
  {
    var b0 := Set64(counter & 0xFFFF_FFFF_FFFF_FF00, domain as Word);
    seq(17, i requires 0 <= i < 17 => BaseCounter(b0, i))
  }

  lemma SequenceBaseIsPow(x: Block, r: nat)
    requires r <= 6
    ensures SequenceBase(x, r) == Lfsr2N(x, r)
  {
    if r == 0 {
      assert Iterate(Lfsr2, x, 0) == x;
    } else {
      Lfsr2GenericIsPow(x, r);
    }
  }

  /** Before permuting, entry i is lfsr_two applied i times to entry 0. */
  lemma UnpermutedBaseIsPow(b0: Block, i: nat)
    requires i <= 16
    ensures UnpermutedBase(b0, i) == Lfsr2N(b0, i)
  {
    if i <= 6 {
      SequenceBaseIsPow(b0, i);
    } else if i <= 12 {
      SequenceBaseIsPow(b0, 6);
      SequenceBaseIsPow(Lfsr2N(b0, 6), i - 6);
      IterateAdd(Lfsr2, b0, 6, i - 6);
    } else {
      UnpermutedBaseIsPow(b0, 12);
      SequenceBaseIsPow(Lfsr2N(b0, 12), i - 12);
      IterateAdd(Lfsr2, b0, 12, i - 12);
    }
  }

  /** Each base counter is the reference TK2 of its round, for the base tweak. */
  lemma BaseCounterIsTk2(b0: Block, i: nat)
    requires i <= 16
    ensures BaseCounter(b0, i) == Tk2(b0, i)
  {
    var u := Lfsr2N(b0, i);
    UnpermutedBaseIsPow(b0, i);
    Tk2Closed(b0, i);
    PermutePowMod(u, i);
    if i % 8 == 0 {
      assert PermutePow(u, 0) == u;
    } else {
      HTableIsPow(u, i % 8);
    }
  }

  /** set64 is linear: XOR of two set64 values is set64 of the XORed halves. */
  lemma Set64Xor(h1: Word, l1: Word, h2: Word, l2: Word)
    ensures Xor(Set64(h1, l1), Set64(h2, l2)) == Set64(h1 ^ h2, l1 ^ l2)
  {
    ToLeXor(l1, l2);
    ToLeXor(h1, h2);
    XorConcat(ToLe(l1), ToLe(h1), ToLe(l2), ToLe(h2));
  }

  /** TK2 of every round is XOR-linear in the starting tweak. */
  lemma {:induction false} Tk2Xor(a: Block, b: Block, i: nat)
    ensures Tk2(Xor(a, b), i) == Xor(Tk2(a, i), Tk2(b, i))
  {
    if i > 0 {
      Tk2Xor(a, b, i - 1);
      HIndexMap();
      PermuteXor(Tk2(a, i - 1), Tk2(b, i - 1), HPermutation());
      Lfsr2Xor(PermuteTweak(Tk2(a, i - 1)), PermuteTweak(Tk2(b, i - 1)));
    }
  }

  /**
   * The counter split of the batched paths: the TK2 rounds of the base
   * (counter with its low byte cleared, and the domain) XOR those of the
   * low counter byte alone are the TK2 rounds of the full counter.
   */
  lemma CounterSplit(domain: Byte, counter: Word, i: nat)
    ensures Xor(Tk2(Set64(counter & 0xFFFF_FFFF_FFFF_FF00, domain as Word), i), Tk2(Set64(counter & 0xFF, 0), i))
         == Tk2(CounterTweak(domain, counter), i)
  {
    var hi := counter & 0xFFFF_FFFF_FFFF_FF00;
    var lo := counter & 0xFF;
    assert hi ^ lo == counter;
    assert (domain as Word) ^ 0 == domain as Word;
    Set64Xor(hi, domain as Word, lo, 0);
    Tk2Xor(Set64(hi, domain as Word), Set64(lo, 0), i);
  }

  /** So every base counter XOR the TK2 of the low counter byte is the round's full TK2. */
  lemma BaseCountersSplit(domain: Byte, counter: Word, i: nat)
    requires i <= 16
    ensures Xor(BaseCounters(domain, counter)[i], Tk2(Set64(counter & 0xFF, 0), i))
         == Tk2(CounterTweak(domain, counter), i)
  {
    BaseCounterIsTk2(Set64(counter & 0xFFFF_FFFF_FFFF_FF00, domain as Word), i);
    CounterSplit(domain, counter, i);
  }

  /**
   * combined_decryption_keys of setup_base_counters: the outer decryption
   * keys XOR the base counters, the inner ones XOR their InvMixColumns.
   */
  function CombinedDecryptionKeys(a: Aes, dk: seq<Block>, base: seq<Block>): (r: seq<Block>)
    requires |dk| == |base| == 17
    ensures |r| == 17
  {
    seq(17, i requires 0 <= i < 17 => CombinedDecryptionKey(a, dk, base, i))
  }

  function CombinedDecryptionKey(a: Aes, dk: seq<Block>, base: seq<Block>, i: nat): Block
    requires |dk| == |base| == 17 && i < 17
  {
    if i == 0 || i == 16 then Xor(dk[i], base[i]) else Xor(dk[i], a.invMixColumns(base[i]))
  }

  /** Those are the decryption keys of the combined encryption keys. */
  lemma CombinedDecryptionKeysAgree(a: Aes, keys: seq<Block>, base: seq<Block>)
    requires Inverses(a) && |keys| == |base| == 17
    ensures CombinedDecryptionKeys(a, InnerInvMixColumns(a, keys), base)
         == InnerInvMixColumns(a, Combined(keys, base))
  {
  }
}
