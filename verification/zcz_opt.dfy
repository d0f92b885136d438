/**
 * The optimised ZCZ of opt/zcz.c over an abstract tweakable cipher: the
 * layers go through the di-blocks eight at a time with the 8-way
 * Deoxys-BC calls while at least eight remain, then one at a time, and
 * keep the polynomial hashes in SSE registers, updated by the 8-way
 * Horner steps of opt/gfmul.c.
 *
 * An 8-way call takes the tweak counter of its first lane from the low
 * byte of the running counter and adds the lane number bytewise onto a
 * base counter set up from 0 (setup_base_counters, init_counters and
 * init_middle_counters in opt/deoxysbc.c), so lane m sees the counter
 * (c mod 256 + m) mod 256, while the one-at-a-time calls see the full
 * counter.  Both choices are modelled: Lanes.Wrapping as written and
 * Lanes.Full with the full counter c + m.
 */
module ZczOpt {
  import opened Wrappers
  import opened Bytes
  import opened Register
  import Gf
  import opened Gf128
  import GfOpt
  import opened Zcz
  import DeoxysOpt

  // ---------------------------------------------------------------
  // Tweak counters of the batched and the single calls
  // ---------------------------------------------------------------

  /** How an 8-way call derives the counter of lane m from the running tweak counter c. */
  datatype Lanes =
    | Wrapping  // the low byte of c plus m, modulo 256, on a zero base
    | Full      // c + m

  function LaneCounter(w: Lanes, c: nat, m: nat): nat
  {
    match w
    case Wrapping => (c % 256 + m) % 256
    case Full => c + m
  }

  /**
   * The counter of di-block j of a sweep over count di-blocks starting at
   * di-block from: while eight or more remain (and the sweep is wide) a
   * batch of eight starts at running counter from + j + 1, afterwards
   * every di-block gets from + j + 1 itself.
   */
  function SweepCounter(w: Lanes, wide: bool, from: nat, count: nat, j: nat): nat
  {
    if wide && j < count / 8 * 8 then LaneCounter(w, from + j / 8 * 8 + 1, j % 8) else from + j + 1
  }

  lemma ModAdd(x: nat, m: nat)
    ensures (x % 256 + m) % 256 == (x + m) % 256
  {
    var q := x / 256;
    assert x == 256 * q + x % 256;
    assert x + m == 256 * q + (x % 256 + m);
  }

  /**
   * A batched di-block gets its running counter modulo 256 as written, the
   * counter itself with full lane counters; every other di-block the
   * counter itself.
   */
  lemma SweepCounterValue(w: Lanes, wide: bool, from: nat, count: nat, j: nat)
    ensures SweepCounter(w, wide, from, count, j)
         == if w.Wrapping? && wide && j < count / 8 * 8 then (from + j + 1) % 256 else from + j + 1
  {
    var c := from + j / 8 * 8 + 1;
    assert j / 8 * 8 + j % 8 == j;
    ModAdd(c, j % 8);
  }

  /** So the counters are the reference ones exactly when none of them reaches 256, or the lanes are full. */
  lemma SweepCounterIsReference(w: Lanes, wide: bool, from: nat, count: nat, j: nat)
    requires j < count && (w.Full? || !wide || from + count < 256)
    ensures SweepCounter(w, wide, from, count, j) == from + j + 1
  {
    SweepCounterValue(w, wide, from, count, j);
  }

  /** Within the batch starting at k, lane m is di-block k + m of the sweep. */
  lemma BatchCounter(w: Lanes, from: nat, count: nat, k: nat, m: nat)
    requires k % 8 == 0 && k + 8 <= count && m < 8
    ensures SweepCounter(w, true, from, count, k + m) == LaneCounter(w, from + k + 1, m)
  {
    var q := k / 8;
    assert k == 8 * q;
    assert (k + m) / 8 == q && (k + m) % 8 == m;
    assert count / 8 >= q + 1;
  }

  /** Once fewer than eight remain after whole batches, the batches covered count / 8 * 8 di-blocks. */
  lemma BatchEnd(count: nat, done: nat)
    requires done % 8 == 0 && done <= count && count - done < 8
    ensures done == count / 8 * 8
  {
    var q := done / 8;
    assert done == 8 * q;
  }

  // ---------------------------------------------------------------
  // One di-block of a layer under a given counter
  // ---------------------------------------------------------------

  /** The four outer layers and the middle layer of chunk i (with S_i and T). */
  datatype Layer = TopEnc | TopDec | BotEnc | BotDec | Center(si: Block, tt: Block)

  /**
   * Di-block d through a layer with tweak counter c: the top layers
   * encipher the left half under the right one, the bottom layers the
   * right half under the left one, and the middle layer XORs
   * Z = E(center, c, T, S_i) into both halves and S_i into the right.
   */
  function Step(t: Tbc, layer: Layer, c: nat, d: DiBlock): DiBlock
  {
    match layer
    case TopEnc => DiBlock(t.enc(DomainTop, c, d.r, d.l), d.r)
    case TopDec => DiBlock(t.dec(DomainTop, c, d.r, d.l), d.r)
    case BotEnc => DiBlock(d.l, t.enc(DomainBot, c, d.l, d.r))
    case BotDec => DiBlock(d.l, t.dec(DomainBot, c, d.l, d.r))
    case Center(si, tt) => Mix(d, t.enc(DomainCenter, c, tt, si), si)
  }

  /** S_i = E(S, 0, set64(i + 1, 0), S) as the optimised middle layers compute it. */
  function OptSBlock(t: Tbc, s: Block, i: nat): Block
  {
    t.enc(DomainS, 0, DeoxysOpt.Set64(WordOf(i + 1), 0), s)
  }

  lemma ToLeZero()
    ensures ToLe(0) == Zeros(8)
  {
    assert forall k | 0 <= k < 8 :: ByteOf(0, k) == 0;
  }

  /** set64(i + 1, 0) is the chunk tweak of the reference: eight zero bytes, then i + 1 little-endian. */
  lemma OptSBlockIsSBlock(t: Tbc, s: Block, i: nat)
    ensures OptSBlock(t, s, i) == SBlock(t, s, i)
  {
    ToLeZero();
    assert DeoxysOpt.Set64(WordOf(i + 1), 0) == STweak(i);
  }

  /** With the reference counter g + 1, Step is di-block g of the reference layers. */
  lemma StepIsReference(t: Tbc, s: Block, tt: Block, g: nat, d: DiBlock)
    ensures Step(t, TopEnc, g + 1, d) == TopDi(t, g, d)
    ensures Step(t, TopDec, g + 1, d) == DecTopDi(t, g, d)
    ensures Step(t, BotEnc, g + 1, d) == BotDi(t, g, d)
    ensures Step(t, BotDec, g + 1, d) == DecBotDi(t, g, d)
    ensures Step(t, Center(OptSBlock(t, s, g / DiBlocksInChunk), tt), g + 1, d) == MiddleDi(t, s, tt, g, d)
  {
    OptSBlockIsSBlock(t, s, g / DiBlocksInChunk);
  }

  /**
   * Deciphering under the counter the encipherment used restores the
   * di-block; the middle step is its own inverse only when both
   * directions derive the same Z.
   */
  lemma StepInverse(t: Tbc, c: nat, c': nat, si: Block, tt: Block, d: DiBlock)
    requires Inverts(t)
    ensures Step(t, TopDec, c, Step(t, TopEnc, c, d)) == d
    ensures Step(t, BotDec, c, Step(t, BotEnc, c, d)) == d
    ensures Step(t, Center(si, tt), c', Step(t, Center(si, tt), c, d)) == d
        <==> t.enc(DomainCenter, c, tt, si) == t.enc(DomainCenter, c', tt, si)
  {
    DecEnc(t, DomainTop, c, d.r, d.l);
    DecEnc(t, DomainBot, c, d.l, d.r);
    MixTwice(d, t.enc(DomainCenter, c, tt, si), t.enc(DomainCenter, c', tt, si), si);
  }

  /** Mixing in z and then z' restores the di-block exactly when z == z'. */
  lemma MixTwice(d: DiBlock, z: Block, z': Block, si: Block)
    ensures Mix(Mix(d, z, si), z', si) == d <==> z == z'
  {
    var twice := Mix(Mix(d, z, si), z', si);
    if z == z' {
      assert forall i | 0 <= i < 16 :: twice.l[i] == d.l[i];
      assert forall i | 0 <= i < 16 :: twice.r[i] == d.r[i];
    }
    if twice == d {
      assert forall i | 0 <= i < 16 :: twice.l[i] == d.l[i] ^ z[i] ^ z'[i];
      assert forall i | 0 <= i < 16 :: z[i] == z'[i];
    }
  }

  // ---------------------------------------------------------------
  // Blocks in registers
  // ---------------------------------------------------------------

  function Loads(xs: seq<Block>): (r: seq<Reg>)
    ensures |r| == |xs|
    ensures forall i | 0 <= i < |xs| :: r[i] == Load(xs[i])
  {
    seq(|xs|, i requires 0 <= i < |xs| => Load(xs[i]))
  }

  lemma BitXor(x: Byte, y: Byte, k: nat)
    requires k < 8
    ensures Bit(x ^ y, k) == (Bit(x, k) != Bit(y, k))
  {
    var m: Byte := if k == 0 then 0x01 else if k == 1 then 0x02 else if k == 2 then 0x04
      else if k == 3 then 0x08 else if k == 4 then 0x10 else if k == 5 then 0x20
      else if k == 6 then 0x40 else 0x80;
    assert (x ^ y) & m == (x & m) ^ (y & m);
    assert Bit(x ^ y, k) == ((x ^ y) & m != 0);
  }

  /** Loading commutes with XOR. */
  lemma LoadXor(a: Block, b: Block)
    ensures Load(Xor(a, b)) == VXor(Load(a), Load(b))
  {
    forall i | 0 <= i < 128
      ensures Load(Xor(a, b))[i] == VXor(Load(a), Load(b))[i]
    {
      var j, r := i / 8, i % 8;
      assert i == 8 * j + r;
      LoadBit(Xor(a, b), j, r);
      LoadBit(a, j, r);
      LoadBit(b, j, r);
      BitXor(a[j], b[j], r);
    }
  }

  lemma LoadZeros()
    ensures Load(Zeros(16)) == Zero()
  {
    forall i | 0 <= i < 128
      ensures Load(Zeros(16))[i] == Zero()[i]
    {
    }
  }

  lemma VXorCommutes(a: Reg, b: Reg)
    ensures VXor(a, b) == VXor(b, a)
  {
    forall i | 0 <= i < 128
      ensures VXor(a, b)[i] == VXor(b, a)[i]
    {
    }
  }

  /** Doubling and multiplying by four on blocks are the register multiplications by x and x^2. */
  lemma LoadMultiplies(b: Block)
    ensures Load(DoubleBlock(b)) == GfOpt.Times(1)(Load(b))
    ensures Load(TimesFourBlock(b)) == GfOpt.Times(2)(Load(b))
  {
    GfDoubleIsDouble(b);
    Gf.TimesFourIsDoubleTwice(b);
    GfDoubleIsDouble(Gf.Double(b));
    assert DoublePow(Load(b), 1) == Double(Load(b));
    assert DoublePow(Load(b), 2) == Double(Double(Load(b)));
  }

  /**
   * Horner steps on registers over loaded blocks, started from the loaded
   * hash of xs, continue the block hash over xs + ys.
   */
  lemma {:induction false} BridgeHorner(g: Block -> Block, f: Reg -> Reg, xs: seq<Block>, ys: seq<Block>, k: nat)
    requires forall b: Block :: Load(g(b)) == f(Load(b))
    requires k <= |ys|
    ensures GfOpt.Horner(f, Load(Horner(g, xs, |xs|)), Loads(ys), k) == Load(Horner(g, xs + ys, |xs| + k))
  {
    if k == 0 {
      assert (xs + ys)[..|xs|] == xs[..|xs|];
      HornerPrefix(g, xs + ys, xs, |xs|);
    } else {
      BridgeHorner(g, f, xs, ys, k - 1);
      var h := Horner(g, xs + ys, |xs| + k - 1);
      assert (xs + ys)[|xs| + k - 1] == ys[k - 1];
      LoadXor(g(h), ys[k - 1]);
    }
  }

  // ---------------------------------------------------------------
  // The hash registers
  // ---------------------------------------------------------------

  /**
   * The two hash registers of a layer: d hashes one column by doubling
   * (X_L over the left halves, Y_R over the right halves), f the sums of
   * both halves times four (X_R, Y_L).
   */
  datatype Acc = Acc(d: Reg, f: Reg)

  function Col(d: DiBlock, left: bool): Block { if left then d.l else d.r }

  function Other(d: DiBlock, left: bool): Block { if left then d.r else d.l }

  function Cols(ds: seq<DiBlock>, left: bool): (r: seq<Block>)
    ensures |r| == |ds|
  {
    if left then Lefts(ds) else Rights(ds)
  }

  /** The registers hold the block hashes of the di-blocks written so far. */
  predicate Fits(acc: Acc, out: seq<DiBlock>, left: bool)
  {
    acc.d == Load(Horner(DoubleBlock, Cols(out, left), |out|))
    && acc.f == Load(Horner(TimesFourBlock, Sums(out), |out|))
  }

  lemma FitsEmpty(left: bool)
    ensures Fits(Acc(Zero(), Zero()), [], left)
  {
    LoadZeros();
  }

  /**
   * The single-step update: gf_2_128_double and a vxor of the column,
   * gf_2_128_times_four and a vxor3 of the two halves.
   */
  function AbsorbOne(acc: Acc, d: DiBlock, left: bool): Acc
  {
    Acc(VXor(GfOpt.DoubleMacro(acc.d).y, Load(Col(d, left))),
        VXor(GfOpt.TimesFourMacro(acc.f).y, VXor(Load(Col(d, left)), Load(Other(d, left)))))
  }

  lemma SumLoaded(d: DiBlock, left: bool)
    ensures VXor(Load(Col(d, left)), Load(Other(d, left))) == Load(SumOf(d))
  {
    LoadXor(d.l, d.r);
    VXorCommutes(Load(d.l), Load(d.r));
  }

  /** Appending a di-block appends its column and its sum. */
  lemma ColsSnoc(out: seq<DiBlock>, d: DiBlock, left: bool)
    ensures Cols(out + [d], left) == Cols(out, left) + [Col(d, left)]
    ensures Sums(out + [d]) == Sums(out) + [SumOf(d)]
  {
    ColumnsSnoc(out, d);
  }

  /** One more di-block advances the hashes of its column and of the sums by one step. */
  lemma {:induction false} HornerCols(out: seq<DiBlock>, d: DiBlock, left: bool)
    ensures Horner(DoubleBlock, Cols(out + [d], left), |out| + 1)
         == Xor(DoubleBlock(Horner(DoubleBlock, Cols(out, left), |out|)), Col(d, left))
    ensures Horner(TimesFourBlock, Sums(out + [d]), |out| + 1)
         == Xor(TimesFourBlock(Horner(TimesFourBlock, Sums(out), |out|)), SumOf(d))
  {
    HornerAppend(out, d);
  }

  /** gf_2_128_double and a vxor on the loaded hash load the next block hash. */
  lemma DoubleStep(h: Reg, hd: Block, c: Block, next: Block)
    requires h == Load(hd) && next == Xor(DoubleBlock(hd), c)
    ensures VXor(GfOpt.DoubleMacro(h).y, Load(c)) == Load(next)
  {
    GfOpt.DoubleMacroIsDouble(h);
    GfDoubleIsDouble(hd);
    LoadXor(DoubleBlock(hd), c);
  }

  /** gf_2_128_times_four and a vxor3 of both halves on the loaded hash load the next block hash. */
  lemma TimesFourStep(h: Reg, hf: Block, d: DiBlock, left: bool, next: Block)
    requires h == Load(hf) && next == Xor(TimesFourBlock(hf), SumOf(d))
    ensures VXor(GfOpt.TimesFourMacro(h).y, VXor(Load(Col(d, left)), Load(Other(d, left)))) == Load(next)
  {
    GfOpt.TimesFourMacroIsTimesFour(h);
    LoadMultiplies(hf);
    LoadXor(TimesFourBlock(hf), SumOf(d));
    SumLoaded(d, left);
  }

  /** The doubling register after one step. */
  lemma {:induction false} AbsorbOneDouble(h: Reg, out: seq<DiBlock>, d: DiBlock, left: bool)
    requires h == Load(Horner(DoubleBlock, Cols(out, left), |out|))
    ensures VXor(GfOpt.DoubleMacro(h).y, Load(Col(d, left)))
         == Load(Horner(DoubleBlock, Cols(out + [d], left), |out| + 1))
  {
    HornerCols(out, d, left);
    DoubleStep(h, Horner(DoubleBlock, Cols(out, left), |out|), Col(d, left),
               Horner(DoubleBlock, Cols(out + [d], left), |out| + 1));
  }

  /** The times-four register after one step. */
  lemma {:induction false} AbsorbOneTimesFour(h: Reg, out: seq<DiBlock>, d: DiBlock, left: bool)
    requires h == Load(Horner(TimesFourBlock, Sums(out), |out|))
    ensures VXor(GfOpt.TimesFourMacro(h).y, VXor(Load(Col(d, left)), Load(Other(d, left))))
         == Load(Horner(TimesFourBlock, Sums(out + [d]), |out| + 1))
  {
    HornerCols(out, d, left);
    TimesFourStep(h, Horner(TimesFourBlock, Sums(out), |out|), d, left,
                  Horner(TimesFourBlock, Sums(out + [d]), |out| + 1));
  }

  /** One di-block advances both register hashes by one Horner step. */
  lemma {:induction false} AbsorbOneFits(acc: Acc, out: seq<DiBlock>, d: DiBlock, left: bool)
    requires Fits(acc, out, left)
    ensures Fits(AbsorbOne(acc, d, left), out + [d], left)
  {
    AbsorbOneDouble(acc.d, out, d, left);
    AbsorbOneTimesFour(acc.f, out, d, left);
  }

  /** The lanes of the times-four batch input: vxor_eight of the two halves. */
  function LaneSums(eight: seq<DiBlock>): (r: seq<Reg>)
    ensures |r| == |eight|
  {
    seq(|eight|, m requires 0 <= m < |eight| => VXor(Load(eight[m].l), Load(eight[m].r)))
  }

  /** The batch update: gf_2_128_double_eight over the column, gf_2_128_times_four_eight over the sums. */
  function AbsorbEight(acc: Acc, eight: seq<DiBlock>, left: bool): Acc
    requires |eight| == 8
  {
    Acc(GfOpt.DoubleEight(acc.d, Loads(Cols(eight, left))), GfOpt.TimesFourEight(acc.f, LaneSums(eight)))
  }

  lemma ColsAppend(a: seq<DiBlock>, b: seq<DiBlock>, left: bool)
    ensures Cols(a + b, left) == Cols(a, left) + Cols(b, left)
    ensures Sums(a + b) == Sums(a) + Sums(b)
  {
  }

  /** On loaded blocks, doubling and multiplying by four are Times(1) and Times(2). */
  lemma MultipliesCommute()
    ensures forall b: Block :: Load(DoubleBlock(b)) == GfOpt.Times(1)(Load(b))
    ensures forall b: Block :: Load(TimesFourBlock(b)) == GfOpt.Times(2)(Load(b))
  {
    forall b: Block
      ensures Load(DoubleBlock(b)) == GfOpt.Times(1)(Load(b))
      ensures Load(TimesFourBlock(b)) == GfOpt.Times(2)(Load(b))
    {
      LoadMultiplies(b);
    }
  }

  /** gf_2_128_double_eight continues the doubling hash over the batch's column. */
  lemma {:induction false} AbsorbEightDouble(h: Reg, out: seq<DiBlock>, eight: seq<DiBlock>, left: bool)
    requires |eight| == 8 && h == Load(Horner(DoubleBlock, Cols(out, left), |out|))
    ensures GfOpt.DoubleEight(h, Loads(Cols(eight, left)))
         == Load(Horner(DoubleBlock, Cols(out + eight, left), |out| + 8))
  {
    MultipliesCommute();
    ColsAppend(out, eight, left);
    GfOpt.DoubleEightIsHorner(h, Loads(Cols(eight, left)));
    BridgeHorner(DoubleBlock, GfOpt.Times(1), Cols(out, left), Cols(eight, left), 8);
  }

  /** vxor_eight of the halves loads the sums of the batch. */
  lemma LaneSumsLoaded(eight: seq<DiBlock>)
    ensures LaneSums(eight) == Loads(Sums(eight))
  {
    forall m | 0 <= m < |eight|
      ensures LaneSums(eight)[m] == Loads(Sums(eight))[m]
    {
      LoadXor(eight[m].l, eight[m].r);
    }
  }

  /** gf_2_128_times_four_eight continues the times-four hash over the batch's sums. */
  lemma {:induction false} AbsorbEightTimesFour(h: Reg, out: seq<DiBlock>, eight: seq<DiBlock>)
    requires |eight| == 8 && h == Load(Horner(TimesFourBlock, Sums(out), |out|))
    ensures GfOpt.TimesFourEight(h, LaneSums(eight)) == Load(Horner(TimesFourBlock, Sums(out + eight), |out| + 8))
  {
    MultipliesCommute();
    ColsAppend(out, eight, true);
    LaneSumsLoaded(eight);
    GfOpt.TimesFourEightIsHorner(h, Loads(Sums(eight)));
    BridgeHorner(TimesFourBlock, GfOpt.Times(2), Sums(out), Sums(eight), 8);
  }

  /** Eight di-blocks advance both register hashes by eight Horner steps. */
  lemma {:induction false} AbsorbEightFits(acc: Acc, out: seq<DiBlock>, eight: seq<DiBlock>, left: bool)
    requires |eight| == 8 && Fits(acc, out, left)
    ensures Fits(AbsorbEight(acc, eight, left), out + eight, left)
  {
    AbsorbEightDouble(acc.d, out, eight, left);
    AbsorbEightTimesFour(acc.f, out, eight);
  }

  /**
   * The two encryptions that end a hashing layer: X_L = E(XL, n, X_R, X_L)
   * and X_R = E(XR, n, X_L, X_R) (left), or Y_L = E(YL, n, Y_R, Y_L) and
   * Y_R = E(YR, n, Y_L, Y_R).
   */
  function Finish(t: Tbc, n: nat, acc: Acc, left: bool): DiBlock
  {
    var d := Store(acc.d);
    var f := Store(acc.f);
    if left then DiBlock(t.enc(DomainXl, n, f, d), t.enc(DomainXr, n, d, f))
    else DiBlock(t.enc(DomainYl, n, d, f), t.enc(DomainYr, n, f, d))
  }

  /** Registers that hold the hashes of a layer's output give that layer's masks. */
  lemma {:induction false} FinishIsMask(t: Tbc, n: nat, acc: Acc, out: seq<DiBlock>, left: bool)
    requires Fits(acc, out, left)
    ensures Finish(t, n, acc, left) == if left then XMask(t, n, out) else YMask(t, n, out)
  {
    LoadStore(acc.d, Horner(DoubleBlock, Cols(out, left), |out|));
    LoadStore(acc.f, Horner(TimesFourBlock, Sums(out), |out|));
  }

  // ---------------------------------------------------------------
  // The layers as the optimised loops compute them
  // ---------------------------------------------------------------

  /** An outer layer over ds: di-block j under the counter of one sweep over all of ds. */
  function SweepLayer(w: Lanes, t: Tbc, layer: Layer, wide: bool, ds: seq<DiBlock>): (r: seq<DiBlock>)
    ensures |r| == |ds|
  {
    seq(|ds|, j requires 0 <= j < |ds| => Step(t, layer, SweepCounter(w, wide, 0, |ds|, j), ds[j]))
  }

  /** Di-block g of m lies in one of the NumChunks(m) chunks. */
  lemma ChunkIndex(m: nat, g: nat)
    requires g < m
    ensures g / DiBlocksInChunk < NumChunks(m)
  {
    assert g / DiBlocksInChunk * DiBlocksInChunk <= g;
  }

  /**
   * The counter of di-block g of a middle layer over m di-blocks: one
   * sweep per chunk, the running counter continuing from chunk to chunk.
   */
  function MidCounter(w: Lanes, wide: bool, m: nat, g: nat): nat
    requires g < m
  {
    ChunkIndex(m, g);
    SweepCounter(w, wide, g / DiBlocksInChunk * DiBlocksInChunk, ChunkSize(m, g / DiBlocksInChunk), g % DiBlocksInChunk)
  }

  /** Di-block g of a middle layer over m di-blocks, with S_i of its chunk. */
  function MidStep(w: Lanes, t: Tbc, s: Block, tt: Block, wide: bool, m: nat, g: nat, d: DiBlock): DiBlock
    requires g < m
  {
    Step(t, Center(OptSBlock(t, s, g / DiBlocksInChunk), tt), MidCounter(w, wide, m, g), d)
  }

  /** The middle layer: batched (wide) when encrypting, one at a time when decrypting. */
  function MidLayer(w: Lanes, t: Tbc, s: Block, tt: Block, wide: bool, ds: seq<DiBlock>): (r: seq<DiBlock>)
    ensures |r| == |ds|
  {
    seq(|ds|, g requires 0 <= g < |ds| => MidStep(w, t, s, tt, wide, |ds|, g, ds[g]))
  }

  /** Below 256 di-blocks, or with full lane counters, every sweep counter is the reference counter j + 1. */
  lemma SweepIsReference(w: Lanes, t: Tbc, layer: Layer, ds: seq<DiBlock>, j: nat)
    requires j < |ds| && (w.Full? || |ds| < 256)
    ensures SweepLayer(w, t, layer, true, ds)[j] == Step(t, layer, j + 1, ds[j])
  {
    SweepCounterIsReference(w, true, 0, |ds|, j);
  }

  /** Under those conditions the optimised top layer is the reference one, in both directions. */
  lemma {:induction false} TopSweepIsReference(w: Lanes, t: Tbc, ds: seq<DiBlock>)
    requires w.Full? || |ds| < 256
    ensures SweepLayer(w, t, TopEnc, true, ds) == TopLayer(t, ds)
    ensures SweepLayer(w, t, TopDec, true, ds) == DecTopLayer(t, ds)
  {
    forall j | 0 <= j < |ds|
      ensures SweepLayer(w, t, TopEnc, true, ds)[j] == TopLayer(t, ds)[j]
      ensures SweepLayer(w, t, TopDec, true, ds)[j] == DecTopLayer(t, ds)[j]
    {
      SweepIsReference(w, t, TopEnc, ds, j);
      SweepIsReference(w, t, TopDec, ds, j);
      StepIsReference(t, ds[j].l, ds[j].r, j, ds[j]);
    }
  }

  /** And so is the bottom layer. */
  lemma {:induction false} BotSweepIsReference(w: Lanes, t: Tbc, ds: seq<DiBlock>)
    requires w.Full? || |ds| < 256
    ensures SweepLayer(w, t, BotEnc, true, ds) == BotLayer(t, ds)
    ensures SweepLayer(w, t, BotDec, true, ds) == DecBotLayer(t, ds)
  {
    forall j | 0 <= j < |ds|
      ensures SweepLayer(w, t, BotEnc, true, ds)[j] == BotLayer(t, ds)[j]
      ensures SweepLayer(w, t, BotDec, true, ds)[j] == DecBotLayer(t, ds)[j]
    {
      SweepIsReference(w, t, BotEnc, ds, j);
      SweepIsReference(w, t, BotDec, ds, j);
      StepIsReference(t, ds[j].l, ds[j].r, j, ds[j]);
    }
  }

  /**
   * The middle layer is the reference one when it is not batched, or its
   * input is shorter than 256 di-blocks, or the lane counters are full.
   */
  lemma {:induction false} MidLayerIsReference(w: Lanes, t: Tbc, s: Block, tt: Block, wide: bool, ds: seq<DiBlock>)
    requires w.Full? || !wide || |ds| < 256
    ensures MidLayer(w, t, s, tt, wide, ds) == MiddleLayer(t, s, tt, ds)
  {
    forall g | 0 <= g < |ds|
      ensures MidLayer(w, t, s, tt, wide, ds)[g] == MiddleLayer(t, s, tt, ds)[g]
    {
      MidStepIsReference(w, t, s, tt, wide, |ds|, g, ds[g]);
    }
  }

  /** Di-block g of the middle layer under those conditions. */
  lemma MidStepIsReference(w: Lanes, t: Tbc, s: Block, tt: Block, wide: bool, m: nat, g: nat, d: DiBlock)
    requires g < m && (w.Full? || !wide || m < 256)
    ensures MidStep(w, t, s, tt, wide, m, g, d) == MiddleDi(t, s, tt, g, d)
  {
    var i := g / DiBlocksInChunk;
    ChunkIndex(m, g);
    ChunkBounds(m, i);
    assert i * DiBlocksInChunk + g % DiBlocksInChunk == g;
    SweepCounterIsReference(w, wide, i * DiBlocksInChunk, ChunkSize(m, i), g % DiBlocksInChunk);
    StepIsReference(t, s, tt, g, d);
  }

  // ---------------------------------------------------------------
  // The sweeps
  // ---------------------------------------------------------------

  /**
   * The first k di-blocks of a sweep over ds[from .. from + count) are
   * done: out holds the from di-blocks before the sweep, then those k.
   */
  predicate Swept(w: Lanes, t: Tbc, layer: Layer, wide: bool, ds: seq<DiBlock>, from: nat, count: nat,
                  out: seq<DiBlock>, k: nat)
  {
    |out| == from + k && from + k <= |ds|
    && forall j | 0 <= j < k :: out[from + j] == Step(t, layer, SweepCounter(w, wide, from, count, j), ds[from + j])
  }

  /**
   * One batch: eight di-blocks through an 8-way call whose lanes start at
   * running counter from + k + 1, then gf_2_128_double_eight and
   * gf_2_128_times_four_eight on the hash registers.
   */
  method BatchStep(w: Lanes, t: Tbc, layer: Layer, hashed: bool, left: bool, ds: seq<DiBlock>,
                   from: nat, count: nat, k: nat, out0: seq<DiBlock>, acc0: Acc)
    returns (out: seq<DiBlock>, acc: Acc)
    requires k % 8 == 0 && k + 8 <= count && from + count <= |ds|
    requires Swept(w, t, layer, true, ds, from, count, out0, k)
    requires hashed ==> Fits(acc0, out0, left)
    ensures Swept(w, t, layer, true, ds, from, count, out, k + 8)
    ensures out[..from + k] == out0
    ensures hashed ==> Fits(acc, out, left)
  {
    var eight := BatchLanes(w, t, layer, ds, from + k);
    out := out0 + eight;
    acc := acc0;
    if hashed {
      acc := AbsorbEight(acc0, eight, left);
      AbsorbEightFits(acc0, out0, eight, left);
    }
    BatchSwept(w, t, layer, ds, from, count, k, out0, eight);
    PrefixOfAppend(out0, eight);
  }

  /** The eight lanes of an 8-way call at di-block b: lane m under LaneCounter(w, b + 1, m). */
  function BatchLanes(w: Lanes, t: Tbc, layer: Layer, ds: seq<DiBlock>, b: nat): (r: seq<DiBlock>)
    requires b + 8 <= |ds|
    ensures |r| == 8
  {
    seq(8, m requires 0 <= m < 8 => Step(t, layer, LaneCounter(w, b + 1, m), ds[b + m]))
  }

  lemma PrefixOfAppend<T>(a: seq<T>, b: seq<T>)
    ensures (a + b)[..|a|] == a
  {
  }

  /** The batch's eight lanes extend the sweep by eight di-blocks. */
  lemma {:induction false} BatchSwept(w: Lanes, t: Tbc, layer: Layer, ds: seq<DiBlock>, from: nat, count: nat, k: nat,
                   out0: seq<DiBlock>, eight: seq<DiBlock>)
    requires k % 8 == 0 && k + 8 <= count && from + count <= |ds|
    requires Swept(w, t, layer, true, ds, from, count, out0, k)
    requires eight == BatchLanes(w, t, layer, ds, from + k)
    ensures Swept(w, t, layer, true, ds, from, count, out0 + eight, k + 8)
  {
    var out := out0 + eight;
    forall j | 0 <= j < k + 8
      ensures out[from + j] == Step(t, layer, SweepCounter(w, true, from, count, j), ds[from + j])
    {
      if j >= k {
        BatchCounter(w, from, count, k, j - k);
        assert out[from + j] == eight[j - k];
      } else {
        assert out[from + j] == out0[from + j];
      }
    }
  }

  /** One di-block through a single call under running counter from + k + 1, then the single hash steps. */
  method SingleStep(w: Lanes, t: Tbc, layer: Layer, wide: bool, hashed: bool, left: bool, ds: seq<DiBlock>,
                    from: nat, count: nat, k: nat, out0: seq<DiBlock>, acc0: Acc)
    returns (out: seq<DiBlock>, acc: Acc)
    requires k < count && from + count <= |ds| && (wide ==> k >= count / 8 * 8)
    requires Swept(w, t, layer, wide, ds, from, count, out0, k)
    requires hashed ==> Fits(acc0, out0, left)
    ensures Swept(w, t, layer, wide, ds, from, count, out, k + 1)
    ensures out[..from + k] == out0
    ensures hashed ==> Fits(acc, out, left)
  {
    var d := Step(t, layer, from + k + 1, ds[from + k]);
    out := out0 + [d];
    acc := acc0;
    if hashed {
      acc := AbsorbOne(acc0, d, left);
      AbsorbOneFits(acc0, out0, d, left);
    }
    assert out[from + k] == d;
  }

  /**
   * A layer's loops over count di-blocks starting at di-block from:
   * batches of eight while eight or more remain (when wide), then one at
   * a time, with the hash registers updated on the way when hashed.
   */
  method Sweep(w: Lanes, t: Tbc, layer: Layer, wide: bool, hashed: bool, left: bool, ds: seq<DiBlock>,
               from: nat, count: nat, out0: seq<DiBlock>, acc0: Acc)
    returns (out: seq<DiBlock>, acc: Acc)
    requires from + count <= |ds| && |out0| == from
    requires hashed ==> Fits(acc0, out0, left)
    ensures Swept(w, t, layer, wide, ds, from, count, out, count)
    ensures out[..from] == out0
    ensures hashed ==> Fits(acc, out, left)
  {
    out, acc := out0, acc0;
    var k := 0;
    if wide {
      while count - k >= 8
        invariant k % 8 == 0 && k <= count
        invariant Swept(w, t, layer, true, ds, from, count, out, k)
        invariant out[..from] == out0
        invariant hashed ==> Fits(acc, out, left)
      {
        var out1, acc1 := BatchStep(w, t, layer, hashed, left, ds, from, count, k, out, acc);
        assert out1[..from] == out1[..from + k][..from];
        out, acc := out1, acc1;
        k := k + 8;
      }
      BatchEnd(count, k);
    }
    while k < count
      invariant k <= count
      invariant wide ==> k >= count / 8 * 8
      invariant Swept(w, t, layer, wide, ds, from, count, out, k)
      invariant out[..from] == out0
      invariant hashed ==> Fits(acc, out, left)
    {
      var out1, acc1 := SingleStep(w, t, layer, wide, hashed, left, ds, from, count, k, out, acc);
      assert out1[..from] == out1[..from + k][..from];
      out, acc := out1, acc1;
      k := k + 1;
    }
  }

  /** A finished sweep over the first count di-blocks is the layer over them. */
  lemma {:induction false} SweptIsLayer(w: Lanes, t: Tbc, layer: Layer, wide: bool, ds: seq<DiBlock>, count: nat, out: seq<DiBlock>)
    requires Swept(w, t, layer, wide, ds, 0, count, out, count)
    ensures out == SweepLayer(w, t, layer, wide, ds[..count])
  {
    forall j | 0 <= j < count
      ensures out[j] == SweepLayer(w, t, layer, wide, ds[..count])[j]
    {
      assert out[0 + j] == out[j];
    }
  }

  /** The middle layer's state: a prefix of it is done. */
  predicate MidDone(w: Lanes, t: Tbc, s: Block, tt: Block, wide: bool, ds: seq<DiBlock>, out: seq<DiBlock>)
  {
    |out| <= |ds| && forall g | 0 <= g < |out| :: out[g] == MidStep(w, t, s, tt, wide, |ds|, g, ds[g])
  }

  /** A sweep over chunk i with its S_i extends a done prefix by that chunk. */
  lemma {:induction false} ChunkDone(w: Lanes, t: Tbc, s: Block, tt: Block, wide: bool, ds: seq<DiBlock>, i: nat,
                  out0: seq<DiBlock>, out: seq<DiBlock>)
    requires i < NumChunks(|ds|) && |out0| == i * DiBlocksInChunk
    requires MidDone(w, t, s, tt, wide, ds, out0)
    requires Swept(w, t, Center(OptSBlock(t, s, i), tt), wide, ds, i * DiBlocksInChunk, ChunkSize(|ds|, i), out, ChunkSize(|ds|, i))
    requires out[..i * DiBlocksInChunk] == out0
    ensures MidDone(w, t, s, tt, wide, ds, out)
  {
    var from := i * DiBlocksInChunk;
    ChunkBounds(|ds|, i);
    forall g | 0 <= g < |out|
      ensures out[g] == MidStep(w, t, s, tt, wide, |ds|, g, ds[g])
    {
      if g < from {
        assert out[g] == out[..from][g];
      } else {
        var j := g - from;
        ChunkOf(i, g);
        assert g % DiBlocksInChunk == j;
        assert out[from + j] == Step(t, Center(OptSBlock(t, s, i), tt),
                                     SweepCounter(w, wide, from, ChunkSize(|ds|, i), j), ds[from + j]);
      }
    }
  }

  /**
   * The middle layer's loops: per chunk i, S_i = E(S, 0, set64(i + 1, 0), S),
   * the chunk size as get_num_chunks and the last-chunk rule give it, and
   * one sweep over the chunk with both hash registers.
   */
  method MiddleSweep(w: Lanes, t: Tbc, s: Block, tt: Block, wide: bool, left: bool, ds: seq<DiBlock>)
    returns (out: seq<DiBlock>, acc: Acc)
    ensures out == MidLayer(w, t, s, tt, wide, ds)
    ensures Fits(acc, out, left)
  {
    var m := |ds|;
    var numChunks := NumChunks(m);
    out := [];
    acc := Acc(Zero(), Zero());
    FitsEmpty(left);
    var i := 0;
    while i < numChunks
      invariant i <= numChunks
      invariant i < numChunks ==> |out| == i * DiBlocksInChunk
      invariant i == numChunks ==> |out| == m
      invariant MidDone(w, t, s, tt, wide, ds, out)
      invariant Fits(acc, out, left)
    {
      ChunkBounds(m, i);
      var size := DiBlocksInChunk;
      if i + 1 == numChunks {
        size := m % DiBlocksInChunk;
        if size == 0 {
          size := DiBlocksInChunk;
        }
      }
      var si := OptSBlock(t, s, i);
      var out1, acc1 := Sweep(w, t, Center(si, tt), wide, true, left, ds, i * DiBlocksInChunk, size, out, acc);
      ChunkDone(w, t, s, tt, wide, ds, i, out, out1);
      out, acc := out1, acc1;
      i := i + 1;
    }
    assert |out| == m;
  }

  // ---------------------------------------------------------------
  // The layer functions of opt/zcz.c
  // ---------------------------------------------------------------

  /** encrypt_top_layer / encrypt_until: the top layer on the first n - 1 di-blocks and the X masks. */
  method EncryptTop(w: Lanes, t: Tbc, ds: seq<DiBlock>) returns (top: seq<DiBlock>, xm: DiBlock)
    requires |ds| >= 1
    ensures top == SweepLayer(w, t, TopEnc, true, ds[..|ds| - 1])
    ensures xm == XMask(t, |ds|, top)
  {
    var n := |ds|;
    FitsEmpty(true);
    var acc;
    top, acc := Sweep(w, t, TopEnc, true, true, true, ds, 0, n - 1, [], Acc(Zero(), Zero()));
    SweptIsLayer(w, t, TopEnc, true, ds, n - 1, top);
    FinishIsMask(t, n, acc, top, true);
    xm := Finish(t, n, acc, true);
  }

  /** encrypt_middle_layer: batched, with Y_R doubling the right halves, and the Y masks. */
  method EncryptMiddle(w: Lanes, t: Tbc, core: Core, top: seq<DiBlock>) returns (mid: seq<DiBlock>, ym: DiBlock)
    ensures mid == MidLayer(w, t, core.s, core.t, true, top)
    ensures ym == YMask(t, |top| + 1, mid)
  {
    var acc;
    mid, acc := MiddleSweep(w, t, core.s, core.t, true, false, top);
    FinishIsMask(t, |top| + 1, acc, mid, false);
    ym := Finish(t, |top| + 1, acc, false);
  }

  /** encrypt_bottom_layer: no hashing. */
  method EncryptBottom(w: Lanes, t: Tbc, mid: seq<DiBlock>) returns (bot: seq<DiBlock>)
    ensures bot == SweepLayer(w, t, BotEnc, true, mid)
  {
    var acc;
    bot, acc := Sweep(w, t, BotEnc, true, false, false, mid, 0, |mid|, [], Acc(Zero(), Zero()));
    SweptIsLayer(w, t, BotEnc, true, mid, |mid|, bot);
    assert mid[..|mid|] == mid;
  }

  /** decrypt_bottom_layer: the bottom layer on the first n - 1 di-blocks and the Y masks. */
  method DecryptBottom(w: Lanes, t: Tbc, cs: seq<DiBlock>) returns (mid: seq<DiBlock>, ym: DiBlock)
    requires |cs| >= 1
    ensures mid == SweepLayer(w, t, BotDec, true, cs[..|cs| - 1])
    ensures ym == YMask(t, |cs|, mid)
  {
    var n := |cs|;
    FitsEmpty(false);
    var acc;
    mid, acc := Sweep(w, t, BotDec, true, true, false, cs, 0, n - 1, [], Acc(Zero(), Zero()));
    SweptIsLayer(w, t, BotDec, true, cs, n - 1, mid);
    FinishIsMask(t, n, acc, mid, false);
    ym := Finish(t, n, acc, false);
  }

  /** decrypt_middle_layer: one di-block at a time, with X_L doubling the left halves, and the X masks. */
  method DecryptMiddle(w: Lanes, t: Tbc, core: Core, mid: seq<DiBlock>) returns (top: seq<DiBlock>, xm: DiBlock)
    ensures top == MidLayer(w, t, core.s, core.t, false, mid)
    ensures xm == XMask(t, |mid| + 1, top)
  {
    var acc;
    top, acc := MiddleSweep(w, t, core.s, core.t, false, true, mid);
    FinishIsMask(t, |mid| + 1, acc, top, true);
    xm := Finish(t, |mid| + 1, acc, true);
  }

  /** decrypt_top_layer: no hashing. */
  method DecryptTop(w: Lanes, t: Tbc, top: seq<DiBlock>) returns (p: seq<DiBlock>)
    ensures p == SweepLayer(w, t, TopDec, true, top)
  {
    var acc;
    p, acc := Sweep(w, t, TopDec, true, false, false, top, 0, |top|, [], Acc(Zero(), Zero()));
    SweptIsLayer(w, t, TopDec, true, top, |top|, p);
    assert top[..|top|] == top;
  }

  // ---------------------------------------------------------------
  // The optimised basic scheme
  // ---------------------------------------------------------------

  /** The basic encryption as the optimised layers compute it. */
  function BasicEncryptWith(w: Lanes, t: Tbc, ds: seq<DiBlock>): (c: seq<DiBlock>)
    requires |ds| >= 1
    ensures |c| == |ds|
  {
    var n := |ds|;
    var top := SweepLayer(w, t, TopEnc, true, ds[..n - 1]);
    var core := LastTop(t, n, ds[n - 1], XMask(t, n, top));
    var mid := MidLayer(w, t, core.s, core.t, true, top);
    SweepLayer(w, t, BotEnc, true, mid) + [LastBottom(t, n, core, YMask(t, n, mid))]
  }

  /** The basic decryption as the optimised layers compute it; its middle layer is not batched. */
  function BasicDecryptWith(w: Lanes, t: Tbc, cs: seq<DiBlock>): (p: seq<DiBlock>)
    requires |cs| >= 1
    ensures |p| == |cs|
  {
    var n := |cs|;
    var mid := SweepLayer(w, t, BotDec, true, cs[..n - 1]);
    var core := DecLastBottom(t, n, cs[n - 1], YMask(t, n, mid));
    var top := MidLayer(w, t, core.s, core.t, false, mid);
    SweepLayer(w, t, TopDec, true, top) + [DecLastTop(t, n, core, XMask(t, n, top))]
  }

  /** internal_zcz_basic_encrypt of opt/zcz.c. */
  method OptBasicEncrypt(w: Lanes, t: Tbc, ds: seq<DiBlock>) returns (c: seq<DiBlock>)
    requires |ds| >= 1
    ensures c == BasicEncryptWith(w, t, ds)
  {
    var n := |ds|;
    var top, xm := EncryptTop(w, t, ds);
    var core := LastTop(t, n, ds[n - 1], xm);
    var mid, ym := EncryptMiddle(w, t, core, top);
    var bot := EncryptBottom(w, t, mid);
    c := bot + [LastBottom(t, n, core, ym)];
  }

  /** internal_zcz_basic_decrypt of opt/zcz.c. */
  method OptBasicDecrypt(w: Lanes, t: Tbc, cs: seq<DiBlock>) returns (p: seq<DiBlock>)
    requires |cs| >= 1
    ensures p == BasicDecryptWith(w, t, cs)
  {
    var n := |cs|;
    var mid, ym := DecryptBottom(w, t, cs);
    var core := DecLastBottom(t, n, cs[n - 1], ym);
    var top, xm := DecryptMiddle(w, t, core, mid);
    var front := DecryptTop(w, t, top);
    p := front + [DecLastTop(t, n, core, xm)];
  }

  /**
   * Up to 256 di-blocks (no counter of the first n - 1 reaches 256), or
   * with full lane counters, the optimised basic scheme is the reference
   * one in both directions.
   */
  lemma {:induction false} OptIsReference(w: Lanes, t: Tbc, ds: seq<DiBlock>)
    requires |ds| >= 1 && (w.Full? || |ds| <= 256)
    ensures BasicEncryptWith(w, t, ds) == BasicEncrypt(t, ds)
    ensures BasicDecryptWith(w, t, ds) == BasicDecrypt(t, ds)
  {
    OptEncryptIsReference(w, t, ds);
    OptDecryptIsReference(w, t, ds);
  }

  lemma {:induction false} OptEncryptIsReference(w: Lanes, t: Tbc, ds: seq<DiBlock>)
    requires |ds| >= 1 && (w.Full? || |ds| <= 256)
    ensures BasicEncryptWith(w, t, ds) == BasicEncrypt(t, ds)
  {
    var n := |ds|;
    var front := ds[..n - 1];
    var top := TopLayer(t, front);
    assert SweepLayer(w, t, TopEnc, true, front) == top by {
      TopSweepIsReference(w, t, front);
    }
    var core := LastTop(t, n, ds[n - 1], XMask(t, n, top));
    var mid := MiddleLayer(t, core.s, core.t, top);
    assert MidLayer(w, t, core.s, core.t, true, top) == mid by {
      MidLayerIsReference(w, t, core.s, core.t, true, top);
    }
    assert SweepLayer(w, t, BotEnc, true, mid) == BotLayer(t, mid) by {
      BotSweepIsReference(w, t, mid);
    }
    var c := BotLayer(t, mid) + [LastBottom(t, n, core, YMask(t, n, mid))];
    assert BasicEncrypt(t, ds) == c;
    assert BasicEncryptWith(w, t, ds) == c;
  }

  lemma {:induction false} OptDecryptIsReference(w: Lanes, t: Tbc, cs: seq<DiBlock>)
    requires |cs| >= 1 && (w.Full? || |cs| <= 256)
    ensures BasicDecryptWith(w, t, cs) == BasicDecrypt(t, cs)
  {
    var n := |cs|;
    var front := cs[..n - 1];
    var mid := DecBotLayer(t, front);
    assert SweepLayer(w, t, BotDec, true, front) == mid by {
      BotSweepIsReference(w, t, front);
    }
    var core := DecLastBottom(t, n, cs[n - 1], YMask(t, n, mid));
    var top := MiddleLayer(t, core.s, core.t, mid);
    assert MidLayer(w, t, core.s, core.t, false, mid) == top by {
      MidLayerIsReference(w, t, core.s, core.t, false, mid);
    }
    assert SweepLayer(w, t, TopDec, true, top) == DecTopLayer(t, top) by {
      TopSweepIsReference(w, t, top);
    }
    var p := DecTopLayer(t, top) + [DecLastTop(t, n, core, XMask(t, n, top))];
    assert BasicDecrypt(t, cs) == p;
    assert BasicDecryptWith(w, t, cs) == p;
  }

  /** Under those conditions the optimised decryption inverts the optimised encryption. */
  lemma {:induction false} OptRoundTrip(w: Lanes, t: Tbc, ds: seq<DiBlock>)
    requires Inverts(t) && |ds| >= 1 && (w.Full? || |ds| <= 256)
    ensures BasicDecryptWith(w, t, BasicEncryptWith(w, t, ds)) == ds
  {
    OptIsReference(w, t, ds);
    OptIsReference(w, t, BasicEncrypt(t, ds));
    BasicRoundTrip(t, ds);
  }

  // ---------------------------------------------------------------
  // The optimised partial-block path and API
  // ---------------------------------------------------------------

  /** internal_zcz_encrypt of opt/zcz.c: the reference partial path around the optimised basic encryption. */
  function PartialEncryptDiWith(w: Lanes, t: Tbc, ds: seq<DiBlock>, ps: seq<Byte>, r: nat): (o: PartialOut)
    requires |ds| >= 1 && |ps| == 32 && r < 32
    ensures |o.ds| == |ds| && |o.tail| == 32
  {
    var n := |ds|;
    var last := DiXor(ds[n - 1], Hash(t, DiOf(ps), CounterPartialTop));
    var c1 := BasicEncryptWith(w, t, ds[..n - 1] + [last]);
    var mid := Hash(t, DiXor(last, c1[n - 1]), CounterPartialCenter);
    var p2 := PadMessage(BytesOf(DiXor(DiOf(ps), mid)), r, 32);
    PartialOut(c1[..n - 1] + [DiXor(c1[n - 1], Hash(t, DiOf(p2), CounterPartialBottom))], p2)
  }

  /** internal_zcz_decrypt of opt/zcz.c. */
  function PartialDecryptDiWith(w: Lanes, t: Tbc, cs: seq<DiBlock>, ps: seq<Byte>, r: nat): (o: PartialOut)
    requires |cs| >= 1 && |ps| == 32 && r < 32
    ensures |o.ds| == |cs| && |o.tail| == 32
  {
    var n := |cs|;
    var last := DiXor(cs[n - 1], Hash(t, DiOf(ps), CounterPartialBottom));
    var m1 := BasicDecryptWith(w, t, cs[..n - 1] + [last]);
    var mid := Hash(t, DiXor(last, m1[n - 1]), CounterPartialCenter);
    var p2 := PadMessage(BytesOf(DiXor(DiOf(ps), mid)), r, 32);
    PartialOut(m1[..n - 1] + [DiXor(m1[n - 1], Hash(t, DiOf(p2), CounterPartialTop))], p2)
  }

  /** zcz_encrypt of opt/zcz.c on bytes. */
  function ZczEncryptWith(w: Lanes, t: Tbc, m: seq<Byte>): (c: Option<seq<Byte>>)
    ensures c.Some? <==> |m| >= MinMessageBytes
    ensures c.Some? ==> |c.value| == |m|
  {
    if IsLengthOkForBasic(|m|) then Some(Join(BasicEncryptWith(w, t, Split(m))))
    else if !IsLengthOkForZcz(|m|) then None
    else
      var full := |m| / 32 * 32;
      var o := PartialEncryptDiWith(w, t, Split(m[..full]), PaddedPartial(m[full..]), |m| % 32);
      Some(Join(o.ds) + o.tail[..|m| % 32])
  }

  /** zcz_decrypt of opt/zcz.c on bytes. */
  function ZczDecryptWith(w: Lanes, t: Tbc, c: seq<Byte>): (m: Option<seq<Byte>>)
    ensures m.Some? <==> |c| >= MinMessageBytes
    ensures m.Some? ==> |m.value| == |c|
  {
    if IsLengthOkForBasic(|c|) then Some(Join(BasicDecryptWith(w, t, Split(c))))
    else if !IsLengthOkForZcz(|c|) then None
    else
      var full := |c| / 32 * 32;
      var o := PartialDecryptDiWith(w, t, Split(c[..full]), PaddedPartial(c[full..]), |c| % 32);
      Some(Join(o.ds) + o.tail[..|c| % 32])
  }

  /** internal_zcz_encrypt of opt/zcz.c around the optimised basic encryption. */
  method OptPartialEncrypt(w: Lanes, t: Tbc, ds: seq<DiBlock>, ps: seq<Byte>, r: nat) returns (o: PartialOut)
    requires |ds| >= 1 && |ps| == 32 && r < 32
    ensures o == PartialEncryptDiWith(w, t, ds, ps, r)
  {
    var n := |ds|;
    var last := DiXor(ds[n - 1], Hash(t, DiOf(ps), CounterPartialTop));
    var c1 := OptBasicEncrypt(w, t, ds[..n - 1] + [last]);
    var mid := Hash(t, DiXor(last, c1[n - 1]), CounterPartialCenter);
    var p2 := PadMessage(BytesOf(DiXor(DiOf(ps), mid)), r, 32);
    o := PartialOut(c1[..n - 1] + [DiXor(c1[n - 1], Hash(t, DiOf(p2), CounterPartialBottom))], p2);
  }

  /** internal_zcz_decrypt of opt/zcz.c around the optimised basic decryption. */
  method OptPartialDecrypt(w: Lanes, t: Tbc, cs: seq<DiBlock>, ps: seq<Byte>, r: nat) returns (o: PartialOut)
    requires |cs| >= 1 && |ps| == 32 && r < 32
    ensures o == PartialDecryptDiWith(w, t, cs, ps, r)
  {
    var n := |cs|;
    var last := DiXor(cs[n - 1], Hash(t, DiOf(ps), CounterPartialBottom));
    var m1 := OptBasicDecrypt(w, t, cs[..n - 1] + [last]);
    var mid := Hash(t, DiXor(last, m1[n - 1]), CounterPartialCenter);
    var p2 := PadMessage(BytesOf(DiXor(DiOf(ps), mid)), r, 32);
    o := PartialOut(m1[..n - 1] + [DiXor(m1[n - 1], Hash(t, DiOf(p2), CounterPartialTop))], p2);
  }

  /** zcz_encrypt: the basic scheme, nothing, or the partial path, each through the optimised layers. */
  method OptZczEncrypt(w: Lanes, t: Tbc, m: seq<Byte>) returns (c: Option<seq<Byte>>)
    ensures c == ZczEncryptWith(w, t, m)
  {
    if IsLengthOkForBasic(|m|) {
      var cs := OptBasicEncrypt(w, t, Split(m));
      return Some(Join(cs));
    }
    if !IsLengthOkForZcz(|m|) {
      return None;
    }
    var full := |m| / 32 * 32;
    var o := OptPartialEncrypt(w, t, Split(m[..full]), PaddedPartial(m[full..]), |m| % 32);
    c := Some(Join(o.ds) + o.tail[..|m| % 32]);
  }

  /** zcz_decrypt through the optimised layers. */
  method OptZczDecrypt(w: Lanes, t: Tbc, c: seq<Byte>) returns (m: Option<seq<Byte>>)
    ensures m == ZczDecryptWith(w, t, c)
  {
    if IsLengthOkForBasic(|c|) {
      var ps := OptBasicDecrypt(w, t, Split(c));
      return Some(Join(ps));
    }
    if !IsLengthOkForZcz(|c|) {
      return None;
    }
    var full := |c| / 32 * 32;
    var o := OptPartialDecrypt(w, t, Split(c[..full]), PaddedPartial(c[full..]), |c| % 32);
    m := Some(Join(o.ds) + o.tail[..|c| % 32]);
  }

  /**
   * Below 257 full di-blocks (8224 bytes), or with full lane counters, the
   * optimised API is the reference one; on the lengths of the basic
   * scheme it always is.
   */
  lemma {:induction false} OptZczIsReference(w: Lanes, t: Tbc, m: seq<Byte>)
    requires w.Full? || |m| / 32 <= 256
    ensures ZczEncryptWith(w, t, m) == ZczEncrypt(t, m)
    ensures ZczDecryptWith(w, t, m) == ZczDecrypt(t, m)
  {
    OptZczEncryptIsReference(w, t, m);
    OptZczDecryptIsReference(w, t, m);
  }

  lemma {:induction false} OptZczEncryptIsReference(w: Lanes, t: Tbc, m: seq<Byte>)
    requires w.Full? || |m| / 32 <= 256
    ensures ZczEncryptWith(w, t, m) == ZczEncrypt(t, m)
  {
    if IsLengthOkForBasic(|m|) {
      var c := BasicEncrypt(t, Split(m));
      assert BasicEncryptWith(w, t, Split(m)) == c by {
        OptEncryptIsReference(w, t, Split(m));
      }
      assert ZczEncrypt(t, m) == Some(Join(c));
    } else if IsLengthOkForZcz(|m|) {
      var full := |m| / 32 * 32;
      var o := PartialEncryptDi(t, Split(m[..full]), PaddedPartial(m[full..]), |m| % 32);
      assert PartialEncryptDiWith(w, t, Split(m[..full]), PaddedPartial(m[full..]), |m| % 32) == o by {
        PartialEncryptIsReference(w, t, Split(m[..full]), PaddedPartial(m[full..]), |m| % 32);
      }
      assert ZczEncrypt(t, m) == Some(Join(o.ds) + o.tail[..|m| % 32]);
    }
  }

  lemma {:induction false} OptZczDecryptIsReference(w: Lanes, t: Tbc, c: seq<Byte>)
    requires w.Full? || |c| / 32 <= 256
    ensures ZczDecryptWith(w, t, c) == ZczDecrypt(t, c)
  {
    if IsLengthOkForBasic(|c|) {
      var p := BasicDecrypt(t, Split(c));
      assert BasicDecryptWith(w, t, Split(c)) == p by {
        OptDecryptIsReference(w, t, Split(c));
      }
      assert ZczDecrypt(t, c) == Some(Join(p));
    } else if IsLengthOkForZcz(|c|) {
      var full := |c| / 32 * 32;
      var o := PartialDecryptDi(t, Split(c[..full]), PaddedPartial(c[full..]), |c| % 32);
      assert PartialDecryptDiWith(w, t, Split(c[..full]), PaddedPartial(c[full..]), |c| % 32) == o by {
        PartialDecryptIsReference(w, t, Split(c[..full]), PaddedPartial(c[full..]), |c| % 32);
      }
      assert ZczDecrypt(t, c) == Some(Join(o.ds) + o.tail[..|c| % 32]);
    }
  }

  /** The partial encryption around the optimised basic scheme, under the same conditions. */
  lemma {:induction false} PartialEncryptIsReference(w: Lanes, t: Tbc, ds: seq<DiBlock>, ps: seq<Byte>, r: nat)
    requires |ds| >= 1 && |ps| == 32 && r < 32 && (w.Full? || |ds| <= 256)
    ensures PartialEncryptDiWith(w, t, ds, ps, r) == PartialEncryptDi(t, ds, ps, r)
  {
    var n := |ds|;
    var last := DiXor(ds[n - 1], Hash(t, DiOf(ps), CounterPartialTop));
    var x := ds[..n - 1] + [last];
    var c1 := BasicEncrypt(t, x);
    assert BasicEncryptWith(w, t, x) == c1 by {
      OptEncryptIsReference(w, t, x);
    }
    var mid := Hash(t, DiXor(last, c1[n - 1]), CounterPartialCenter);
    var p2 := PadMessage(BytesOf(DiXor(DiOf(ps), mid)), r, 32);
    var o := PartialOut(c1[..n - 1] + [DiXor(c1[n - 1], Hash(t, DiOf(p2), CounterPartialBottom))], p2);
    assert PartialEncryptDi(t, ds, ps, r) == o;
    assert PartialEncryptDiWith(w, t, ds, ps, r) == o;
  }

  /** The partial decryption around the optimised basic scheme, under the same conditions. */
  lemma {:induction false} PartialDecryptIsReference(w: Lanes, t: Tbc, cs: seq<DiBlock>, ps: seq<Byte>, r: nat)
    requires |cs| >= 1 && |ps| == 32 && r < 32 && (w.Full? || |cs| <= 256)
    ensures PartialDecryptDiWith(w, t, cs, ps, r) == PartialDecryptDi(t, cs, ps, r)
  {
    var n := |cs|;
    var last := DiXor(cs[n - 1], Hash(t, DiOf(ps), CounterPartialBottom));
    var x := cs[..n - 1] + [last];
    var m1 := BasicDecrypt(t, x);
    assert BasicDecryptWith(w, t, x) == m1 by {
      OptDecryptIsReference(w, t, x);
    }
    var mid := Hash(t, DiXor(last, m1[n - 1]), CounterPartialCenter);
    var p2 := PadMessage(BytesOf(DiXor(DiOf(ps), mid)), r, 32);
    var o := PartialOut(m1[..n - 1] + [DiXor(m1[n - 1], Hash(t, DiOf(p2), CounterPartialTop))], p2);
    assert PartialDecryptDi(t, cs, ps, r) == o;
    assert PartialDecryptDiWith(w, t, cs, ps, r) == o;
  }

  /** Basic lengths stay far below the wrap, so there the optimised basic API is the reference one whatever the lanes. */
  lemma {:induction false} OptBasicIsReference(w: Lanes, t: Tbc, m: seq<Byte>)
    ensures IsLengthOkForBasic(|m|) ==> ZczEncryptWith(w, t, m) == ZczBasicEncrypt(t, m)
    ensures IsLengthOkForBasic(|m|) ==> ZczDecryptWith(w, t, m) == ZczBasicDecrypt(t, m)
  {
    if IsLengthOkForBasic(|m|) {
      OptZczIsReference(w, t, m);
    }
  }

  /** The optimised API decrypts what it encrypted, under the same conditions. */
  lemma {:induction false} OptZczRoundTrip(w: Lanes, t: Tbc, m: seq<Byte>)
    requires Inverts(t) && (w.Full? || |m| / 32 <= 256)
    ensures ZczEncryptWith(w, t, m).Some? ==> ZczDecryptWith(w, t, ZczEncryptWith(w, t, m).value) == Some(m)
  {
    OptZczIsReference(w, t, m);
    ZczRoundTrip(t, m);
    if ZczEncrypt(t, m).Some? {
      OptZczIsReference(w, t, ZczEncrypt(t, m).value);
    }
  }

  // ---------------------------------------------------------------
  // Past 256 di-blocks the lane counters wrap
  // ---------------------------------------------------------------

  /** The outer layers invert whatever the lanes: both directions batch the same di-blocks under the same counters. */
  lemma {:induction false} SweepInverse(w: Lanes, t: Tbc, ds: seq<DiBlock>)
    requires Inverts(t)
    ensures SweepLayer(w, t, TopDec, true, SweepLayer(w, t, TopEnc, true, ds)) == ds
    ensures SweepLayer(w, t, BotDec, true, SweepLayer(w, t, BotEnc, true, ds)) == ds
  {
    forall j | 0 <= j < |ds|
      ensures SweepLayer(w, t, TopDec, true, SweepLayer(w, t, TopEnc, true, ds))[j] == ds[j]
      ensures SweepLayer(w, t, BotDec, true, SweepLayer(w, t, BotEnc, true, ds))[j] == ds[j]
    {
      var c := SweepCounter(w, true, 0, |ds|, j);
      StepInverse(t, c, c, ds[j].l, ds[j].r, ds[j]);
    }
  }

  /**
   * With 257 di-blocks the middle layer runs over 256: di-block 255, the
   * last lane of the last batch of chunk 1, gets counter 0 when
   * encrypting but 256 when decrypting; full lanes give 256 both times.
   */
  lemma WrappedMiddleCounters()
    ensures MidCounter(Wrapping, true, 256, 255) == 0
    ensures MidCounter(Wrapping, false, 256, 255) == 256
    ensures MidCounter(Full, true, 256, 255) == 256
  {
    assert ChunkSize(256, 1) == 128;
  }

  /** Every bit of a block flipped. */
  function Complement(x: Block): (r: Block)
    ensures forall i | 0 <= i < 16 :: r[i] == !x[i]
  {
    Xor(x, seq(16, _ => 0xFF))
  }

  /** A tweakable cipher that complements its input under counter 0 and passes it through otherwise. */
  function FlipAtZero(): Tbc
  {
    Tbc((d: nat, c: nat, tb: Block, x: Block) => if c == 0 then Complement(x) else x,
        (d: nat, c: nat, tb: Block, x: Block) => if c == 0 then Complement(x) else x)
  }

  lemma FlipAtZeroInverts()
    ensures Inverts(FlipAtZero())
  {
    forall d: nat, c: nat, tb: Block, x: Block
      ensures FlipAtZero().dec(d, c, tb, FlipAtZero().enc(d, c, tb, x)) == x
    {
      if c == 0 {
        assert forall i | 0 <= i < 16 :: Complement(Complement(x))[i] == x[i];
      }
    }
  }

  /** Under it, the top decryption step tells different inputs apart. */
  lemma FlipAtZeroTopDecInjective(c: nat, x: DiBlock, y: DiBlock)
    requires Step(FlipAtZero(), TopDec, c, x) == Step(FlipAtZero(), TopDec, c, y)
    ensures x == y
  {
    if c == 0 {
      var a := Step(FlipAtZero(), TopDec, c, x).l;
      assert forall i | 0 <= i < 16 :: x.l[i] == !a[i] == y.l[i];
    }
  }

  /**
   * As written, decrypting the optimised encryption of any 257-di-block
   * message (8224 bytes) under this inverting cipher does not give the
   * message back: di-block 255 comes out wrong.
   */
  lemma {:induction false} WrappedRoundTripFails(ds: seq<DiBlock>)
    requires |ds| == 257
    ensures BasicDecryptWith(Wrapping, FlipAtZero(), BasicEncryptWith(Wrapping, FlipAtZero(), ds))[255] != ds[255]
  {
    var t, w, n := FlipAtZero(), Wrapping, 257;
    FlipAtZeroInverts();
    var front := ds[..n - 1];
    var top := SweepLayer(w, t, TopEnc, true, front);
    var core := LastTop(t, n, ds[n - 1], XMask(t, n, top));
    var mid := MidLayer(w, t, core.s, core.t, true, top);
    var cs := BasicEncryptWith(w, t, ds);
    assert cs[..n - 1] == SweepLayer(w, t, BotEnc, true, mid);
    assert SweepLayer(w, t, BotDec, true, cs[..n - 1]) == mid by {
      SweepInverse(w, t, mid);
    }
    assert DecLastBottom(t, n, cs[n - 1], YMask(t, n, mid)) == core by {
      LastBottomInverse(t, n, core, YMask(t, n, mid));
    }
    var top' := MidLayer(w, t, core.s, core.t, false, mid);
    var c := SweepCounter(w, true, 0, n - 1, 255);
    assert BasicDecryptWith(w, t, cs)[255] == Step(t, TopDec, c, top'[255]);
    var si := OptSBlock(t, core.s, 1);
    WrappedMiddleCounters();
    assert mid[255] == Step(t, Center(si, core.t), 0, top[255]);
    assert top'[255] == Step(t, Center(si, core.t), 256, mid[255]);
    StepInverse(t, 0, 256, si, core.t, top[255]);
    assert Complement(si)[0] != si[0];
    assert top'[255] != top[255];
    assert top[255] == Step(t, TopEnc, c, ds[255]);
    StepInverse(t, c, c, si, core.t, ds[255]);
    if Step(t, TopDec, c, top'[255]) == ds[255] {
      FlipAtZeroTopDecInjective(c, top'[255], top[255]);
    }
  }
}
