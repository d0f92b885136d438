/**
 * The ZCZ wide-block cipher of the reference build (ref/zcz.c,
 * ref/zcz.h) over an abstract tweakable block cipher.
 *
 * A message of n >= 32 bytes is cut into di-blocks of two 16-byte blocks
 * (L_i, R_i).  The basic scheme works on whole di-blocks in five steps:
 * the top layer, the last di-block's top step, the middle layer, the
 * bottom layer and the last di-block's bottom step.  Lengths that are not
 * a multiple of 32 (or exceed the basic maximum) take the partial-block
 * path, which hashes the padded partial di-block into the last full one
 * around a basic encryption.
 *
 * The tweakable block cipher E(domain, counter, tweak block, x) and its
 * inverse D are parameters here; ZczDeoxys instantiates them with
 * Deoxys-BC-128-384.  Buffers the C code writes into are
 * returned as fresh sequences; the heap state buffer is one of them.
 */
module Zcz {
  import opened Wrappers
  import opened Bytes
  import Gf

  // ---------------------------------------------------------------
  // Constants
  // ---------------------------------------------------------------

  const DomainTop: nat := 0
  const DomainBot: nat := 1
  const DomainCenter: nat := 2
  const DomainS: nat := 3
  const DomainTopLast: nat := 4
  const DomainCenterLast: nat := 5
  const DomainBotLast: nat := 6
  const DomainSLast: nat := 7
  const DomainXl: nat := 8
  const DomainXr: nat := 9
  const DomainYl: nat := 10
  const DomainYr: nat := 11
  const DomainPartial: nat := 12

  const CounterPartialTop: nat := 0
  const CounterPartialCenter: nat := 2
  const CounterPartialBottom: nat := 4

  const BlocksInDiBlock: nat := 2
  const BytesInBlock: nat := 16
  const BytesInDiBlock: nat := BlocksInDiBlock * BytesInBlock
  const MinMessageBytes: nat := BytesInDiBlock
  const DiBlocksInChunk: nat := BytesInBlock * 8
  const BytesInChunk: nat := DiBlocksInChunk * BytesInDiBlock
  const BasicMaxMessageBytes: nat := BytesInDiBlock * BytesInBlock * 8

  /** All thirteen domains, in the order of their definitions. */
  function Domains(): seq<nat>
  {
    [DomainTop, DomainBot, DomainCenter, DomainS, DomainTopLast, DomainCenterLast, DomainBotLast,
     DomainSLast, DomainXl, DomainXr, DomainYl, DomainYr, DomainPartial]
  }

  /** The tweak counters the three partial-block hashes use under the partial domain. */
  function PartialCounters(): seq<nat>
  {
    [CounterPartialTop, CounterPartialTop + 1, CounterPartialCenter, CounterPartialCenter + 1,
     CounterPartialBottom, CounterPartialBottom + 1]
  }

  /**
   * Every call of the cipher is separated by its domain: the thirteen
   * domains are 0 .. 12 and pairwise distinct, and the partial hashes'
   * counters c, c + 1 for c in {0, 2, 4} are six distinct values.
   */
  lemma ConstantsDistinct()
    ensures |Domains()| == 13
    ensures forall i | 0 <= i < 13 :: Domains()[i] == i
    ensures forall i, j | 0 <= i < j < 13 :: Domains()[i] != Domains()[j]
    ensures |PartialCounters()| == 6
    ensures forall i, j | 0 <= i < j < 6 :: PartialCounters()[i] != PartialCounters()[j]
  {
  }

  /** A di-block is 32 bytes, a chunk 128 di-blocks, and the basic maximum exactly one chunk. */
  lemma SizesAgree()
    ensures BytesInDiBlock == 32 && MinMessageBytes == 32
    ensures DiBlocksInChunk == 128 && BasicMaxMessageBytes == 4096
    ensures BasicMaxMessageBytes == DiBlocksInChunk * BytesInDiBlock
  {
  }

  // ---------------------------------------------------------------
  // Lengths
  // ---------------------------------------------------------------

  predicate IsTooShort(n: nat) { n < MinMessageBytes }

  predicate IsLengthOkForZcz(n: nat) { !IsTooShort(n) }

  function NumFullDiBlocks(n: nat): nat { n / BytesInDiBlock }

  predicate IsLengthOkForBasic(n: nat)
  {
    !IsTooShort(n) && n <= BasicMaxMessageBytes && n % BytesInDiBlock == 0
  }

  /** The two length predicates in closed form; a basic message has 1 .. 128 di-blocks and no rest. */
  lemma LengthPredicates(n: nat)
    ensures IsLengthOkForZcz(n) <==> n >= 32
    ensures IsLengthOkForBasic(n) <==> 32 <= n <= 4096 && n % 32 == 0
    ensures IsLengthOkForBasic(n) ==> 1 <= NumFullDiBlocks(n) <= 128 && NumFullDiBlocks(n) * 32 == n
  {
  }

  /** get_num_chunks: ceiling division by the chunk size. */
  function NumChunks(m: nat): (c: nat)
    ensures c * DiBlocksInChunk >= m
    ensures c > 0 ==> (c - 1) * DiBlocksInChunk < m
  {
    (m + DiBlocksInChunk - 1) / DiBlocksInChunk
  }

  /** The number of di-blocks the middle layer handles in chunk i (the last chunk may be short). */
  function ChunkSize(m: nat, i: nat): nat
    requires i < NumChunks(m)
  {
    if i + 1 == NumChunks(m) then (if m % DiBlocksInChunk == 0 then DiBlocksInChunk else m % DiBlocksInChunk)
    else DiBlocksInChunk
  }

  /** Chunk i starts at di-block 128 i, and chunks before the last are full. */
  lemma ChunkBounds(m: nat, i: nat)
    requires i < NumChunks(m)
    ensures 1 <= ChunkSize(m, i) <= DiBlocksInChunk
    ensures i * DiBlocksInChunk + ChunkSize(m, i) <= m
    ensures i + 1 == NumChunks(m) <==> i * DiBlocksInChunk + ChunkSize(m, i) == m
  {
  }

  // ---------------------------------------------------------------
  // Di-blocks and byte strings
  // ---------------------------------------------------------------

  datatype DiBlock = DiBlock(l: Block, r: Block)

  function DiOf(b: seq<Byte>): (d: DiBlock)
    requires |b| == 32
    ensures d.l == b[..16] && d.r == b[16..]
  {
    DiBlock(b[..16], b[16..])
  }

  function BytesOf(d: DiBlock): (b: seq<Byte>)
    ensures |b| == 32
  {
    d.l + d.r
  }

  lemma DiRoundTrip(b: seq<Byte>, d: DiBlock)
    requires |b| == 32
    ensures BytesOf(DiOf(b)) == b
    ensures DiOf(BytesOf(d)) == d
  {
    assert BytesOf(d)[..16] == d.l;
    assert BytesOf(d)[16..] == d.r;
  }

  /** A byte string of whole di-blocks as its di-blocks. */
  function Split(m: seq<Byte>): (ds: seq<DiBlock>)
    requires |m| % 32 == 0
    ensures |ds| == |m| / 32
    decreases |m|
  {
    if |m| == 0 then [] else [DiOf(m[..32])] + Split(m[32..])
  }

  function Join(ds: seq<DiBlock>): (m: seq<Byte>)
    ensures |m| == 32 * |ds|
  {
    if |ds| == 0 then [] else BytesOf(ds[0]) + Join(ds[1..])
  }

  lemma {:induction false} JoinSplit(m: seq<Byte>)
    requires |m| % 32 == 0
    ensures Join(Split(m)) == m
    decreases |m|
  {
    if |m| > 0 {
      JoinSplit(m[32..]);
      DiRoundTrip(m[..32], DiBlock(Zeros(16), Zeros(16)));
      assert m == m[..32] + m[32..];
    }
  }

  lemma {:induction false} SplitJoin(ds: seq<DiBlock>)
    ensures Split(Join(ds)) == ds
  {
    if |ds| > 0 {
      SplitJoin(ds[1..]);
      var m := Join(ds);
      assert m[..32] == BytesOf(ds[0]);
      assert m[32..] == Join(ds[1..]);
      DiRoundTrip(m[..32], ds[0]);
      assert ds == [ds[0]] + ds[1..];
    }
  }

  /** Di-blocks are joined and split as the byte strings they stand for. */
  lemma JoinSplitRoundTrip(m: seq<Byte>, ds: seq<DiBlock>)
    requires |m| % 32 == 0
    ensures Join(Split(m)) == m
    ensures Split(Join(ds)) == ds
  {
    JoinSplit(m);
    SplitJoin(ds);
  }

  function DiXor(a: DiBlock, b: DiBlock): DiBlock
  {
    DiBlock(Xor(a.l, b.l), Xor(a.r, b.r))
  }

  /** XOR of di-blocks is XOR of their bytes; it cancels and commutes. */
  lemma DiXorFacts(a: DiBlock, b: DiBlock)
    ensures BytesOf(DiXor(a, b)) == Xor(BytesOf(a), BytesOf(b))
    ensures DiXor(DiXor(a, b), b) == a
    ensures DiXor(a, b) == DiXor(b, a)
  {
    XorConcat(a.l, a.r, b.l, b.r);
    XorCancel(a.l, b.l);
    XorCancel(a.r, b.r);
  }

  // ---------------------------------------------------------------
  // The tweakable block cipher
  // ---------------------------------------------------------------

  /** E(domain, counter, tweak block, input) and its inverse. */
  datatype Tbc = Tbc(enc: (nat, nat, Block, Block) -> Block, dec: (nat, nat, Block, Block) -> Block)

  /** D inverts E under the same domain, counter and tweak block. */
  ghost predicate Inverts(t: Tbc)
  {
    forall d: nat, c: nat, tb: Block, x: Block :: t.dec(d, c, tb, t.enc(d, c, tb, x)) == x
  }

  lemma DecEnc(t: Tbc, d: nat, c: nat, tb: Block, x: Block)
    requires Inverts(t)
    ensures t.dec(d, c, tb, t.enc(d, c, tb, x)) == x
  {
  }

  // ---------------------------------------------------------------
  // Polynomial hashes
  // ---------------------------------------------------------------

  /** gf_double_block. */
  function DoubleBlock(b: Block): Block { Gf.Double(b) }

  /** gf_times_four_block. */
  function TimesFourBlock(b: Block): Block { Gf.TimesFour(b) }

  /** The hash value after the first n values, one step h <- f(h) XOR x at a time, from zero. */
  function Horner(f: Block -> Block, xs: seq<Block>, n: nat): Block
    requires n <= |xs|
  {
    if n == 0 then Zeros(16) else Xor(f(Horner(f, xs, n - 1)), xs[n - 1])
  }

  /** The hash depends only on the values it has consumed. */
  lemma {:induction false} HornerPrefix(f: Block -> Block, xs: seq<Block>, ys: seq<Block>, n: nat)
    requires n <= |xs| && n <= |ys| && xs[..n] == ys[..n]
    ensures Horner(f, xs, n) == Horner(f, ys, n)
  {
    if n > 0 {
      assert xs[n - 1] == xs[..n][n - 1];
      assert ys[n - 1] == ys[..n][n - 1];
      assert xs[..n - 1] == xs[..n][..n - 1];
      assert ys[..n - 1] == ys[..n][..n - 1];
      HornerPrefix(f, xs, ys, n - 1);
    }
  }

  function Lefts(ds: seq<DiBlock>): (r: seq<Block>)
    ensures |r| == |ds|
  {
    seq(|ds|, i requires 0 <= i < |ds| => ds[i].l)
  }

  function Rights(ds: seq<DiBlock>): (r: seq<Block>)
    ensures |r| == |ds|
  {
    seq(|ds|, i requires 0 <= i < |ds| => ds[i].r)
  }

  function Sums(ds: seq<DiBlock>): (r: seq<Block>)
    ensures |r| == |ds|
  {
    seq(|ds|, i requires 0 <= i < |ds| => SumOf(ds[i]))
  }

  function SumOf(d: DiBlock): Block { Xor(d.l, d.r) }

  /**
   * The masks of the last di-block: the X hashes over the top layer's
   * output (X_L over the X_i by doubling, X_R over X_i XOR R_i times
   * four) encrypted under the domains XL and XR.
   */
  function XMask(t: Tbc, n: nat, top: seq<DiBlock>): DiBlock
  {
    var xl := Horner(DoubleBlock, Lefts(top), |top|);
    var xr := Horner(TimesFourBlock, Sums(top), |top|);
    DiBlock(t.enc(DomainXl, n, xr, xl), t.enc(DomainXr, n, xl, xr))
  }

  /**
   * The Y masks: over the middle layer's output (L'_i, Y_i), Y_R by
   * doubling the Y_i and Y_L times four over Y_i XOR L'_i.
   */
  function YMask(t: Tbc, n: nat, mid: seq<DiBlock>): DiBlock
  {
    var yr := Horner(DoubleBlock, Rights(mid), |mid|);
    var yl := Horner(TimesFourBlock, Sums(mid), |mid|);
    DiBlock(t.enc(DomainYl, n, yr, yl), t.enc(DomainYr, n, yl, yr))
  }

  // ---------------------------------------------------------------
  // Top and bottom layers
  // ---------------------------------------------------------------

  /** Di-block i of the top layer: X_i = E(top, i + 1, R_i, L_i); R_i is copied. */
  function TopDi(t: Tbc, i: nat, d: DiBlock): DiBlock
  {
    DiBlock(t.enc(DomainTop, i + 1, d.r, d.l), d.r)
  }

  function DecTopDi(t: Tbc, i: nat, d: DiBlock): DiBlock
  {
    DiBlock(t.dec(DomainTop, i + 1, d.r, d.l), d.r)
  }

  /** encrypt_top_layer on the first n - 1 di-blocks; the right halves are copied unchanged. */
  function TopLayer(t: Tbc, ds: seq<DiBlock>): (r: seq<DiBlock>)
    ensures |r| == |ds|
    ensures forall i | 0 <= i < |ds| :: r[i].r == ds[i].r
  {
    seq(|ds|, i requires 0 <= i < |ds| => TopDi(t, i, ds[i]))
  }

  /** decrypt_top_layer. */
  function DecTopLayer(t: Tbc, ds: seq<DiBlock>): (r: seq<DiBlock>)
    ensures |r| == |ds|
    ensures forall i | 0 <= i < |ds| :: r[i].r == ds[i].r
  {
    seq(|ds|, i requires 0 <= i < |ds| => DecTopDi(t, i, ds[i]))
  }

  lemma TopLayerInverse(t: Tbc, ds: seq<DiBlock>)
    requires Inverts(t)
    ensures DecTopLayer(t, TopLayer(t, ds)) == ds
  {
    forall i | 0 <= i < |ds|
      ensures DecTopLayer(t, TopLayer(t, ds))[i] == ds[i]
    {
      DecEnc(t, DomainTop, i + 1, ds[i].r, ds[i].l);
    }
  }

  /** Di-block i of the bottom layer: L'_i is copied, R'_i = E(bottom, i + 1, L'_i, Y_i). */
  function BotDi(t: Tbc, i: nat, d: DiBlock): DiBlock
  {
    DiBlock(d.l, t.enc(DomainBot, i + 1, d.l, d.r))
  }

  function DecBotDi(t: Tbc, i: nat, d: DiBlock): DiBlock
  {
    DiBlock(d.l, t.dec(DomainBot, i + 1, d.l, d.r))
  }

  /** encrypt_bottom_layer on the first n - 1 di-blocks; the left halves are copied unchanged. */
  function BotLayer(t: Tbc, ds: seq<DiBlock>): (r: seq<DiBlock>)
    ensures |r| == |ds|
    ensures forall i | 0 <= i < |ds| :: r[i].l == ds[i].l
  {
    seq(|ds|, i requires 0 <= i < |ds| => BotDi(t, i, ds[i]))
  }

  /** decrypt_bottom_layer. */
  function DecBotLayer(t: Tbc, ds: seq<DiBlock>): (r: seq<DiBlock>)
    ensures |r| == |ds|
    ensures forall i | 0 <= i < |ds| :: r[i].l == ds[i].l
  {
    seq(|ds|, i requires 0 <= i < |ds| => DecBotDi(t, i, ds[i]))
  }

  lemma BotLayerInverse(t: Tbc, ds: seq<DiBlock>)
    requires Inverts(t)
    ensures DecBotLayer(t, BotLayer(t, ds)) == ds
  {
    forall i | 0 <= i < |ds|
      ensures DecBotLayer(t, BotLayer(t, ds))[i] == ds[i]
    {
      DecEnc(t, DomainBot, i + 1, ds[i].l, ds[i].r);
    }
  }

  // ---------------------------------------------------------------
  // Middle layer
  // ---------------------------------------------------------------

  /** The tweak block of S_i: bytes 0 .. 7 zero, bytes 8 .. 15 the little-endian chunk number i + 1. */
  function STweak(i: nat): Block
  {
    Zeros(8) + ToLe(WordOf(i + 1))
  }

  /** A size_t value as the 64-bit word to_le_array writes. */
  function WordOf(n: nat): Word
  {
    (n % 0x1_0000_0000_0000_0000) as Word
  }

  /** S_i = E(S, 0, chunk tweak, S), one per chunk. */
  function SBlock(t: Tbc, s: Block, i: nat): Block
  {
    t.enc(DomainS, 0, STweak(i), s)
  }

  /**
   * Di-block k of the middle layer, in chunk i = k / 128: with
   * Z = E(center, k + 1, T, S_i), L'_k = X_k XOR Z and
   * Y_k = R_k XOR Z XOR S_i.
   */
  function MiddleDi(t: Tbc, s: Block, tt: Block, k: nat, d: DiBlock): DiBlock
  {
    var si := SBlock(t, s, k / DiBlocksInChunk);
    Mix(d, t.enc(DomainCenter, k + 1, tt, si), si)
  }

  /** (X, R) with Z and S_i becomes (X XOR Z, R XOR Z XOR S_i). */
  function Mix(d: DiBlock, z: Block, si: Block): DiBlock
  {
    DiBlock(Xor(d.l, z), Xor(Xor(d.r, z), si))
  }

  /** The middle layer on the first n - 1 di-blocks, the same in both directions. */
  function MiddleLayer(t: Tbc, s: Block, tt: Block, ds: seq<DiBlock>): (r: seq<DiBlock>)
    ensures |r| == |ds|
  {
    seq(|ds|, k requires 0 <= k < |ds| => MiddleDi(t, s, tt, k, ds[k]))
  }

  lemma MiddleDiInvolution(t: Tbc, s: Block, tt: Block, k: nat, d: DiBlock)
    ensures MiddleDi(t, s, tt, k, MiddleDi(t, s, tt, k, d)) == d
  {
    var si := SBlock(t, s, k / DiBlocksInChunk);
    var z := t.enc(DomainCenter, k + 1, tt, si);
    XorCancel(d.l, z);
    XorCancel(Xor(d.r, z), si);
    XorCancel(d.r, z);
  }

  /** For fixed S and T the middle layer is an involution: it needs no inverse cipher. */
  lemma MiddleLayerInvolution(t: Tbc, s: Block, tt: Block, ds: seq<DiBlock>)
    ensures MiddleLayer(t, s, tt, MiddleLayer(t, s, tt, ds)) == ds
  {
    forall k | 0 <= k < |ds|
      ensures MiddleLayer(t, s, tt, MiddleLayer(t, s, tt, ds))[k] == ds[k]
    {
      MiddleDiInvolution(t, s, tt, k, ds[k]);
    }
  }

  /**
   * encrypt_middle_layer / decrypt_middle_layer as written: chunk by
   * chunk, one S_i per chunk, and di-block j of chunk i under counter
   * 128 i + j + 1; the hashes are updated as it goes.  The result is the
   * flat layer, with every counter 1 .. n - 1 used once in order, and the
   * hashes over its output: encryption keeps Y_R (doubling over the right
   * halves) and Y_L (times four over the sums), decryption X_L (doubling
   * over the left halves) and X_R (times four over the sums).
   */
  method MiddleLayerLoop(t: Tbc, s: Block, tt: Block, ds: seq<DiBlock>)
    returns (out: seq<DiBlock>, h: Hashes)
    ensures out == MiddleLayer(t, s, tt, ds)
    ensures h.l == Horner(DoubleBlock, Lefts(out), |out|)
    ensures h.r == Horner(DoubleBlock, Rights(out), |out|)
    ensures h.s == Horner(TimesFourBlock, Sums(out), |out|)
  {
    var m := |ds|;
    var numChunks := NumChunks(m);
    out := [];
    h := Hashes(Zeros(16), Zeros(16), Zeros(16));
    var i := 0;
    while i < numChunks
      invariant 0 <= i <= numChunks
      invariant i < numChunks ==> |out| == i * DiBlocksInChunk
      invariant i == numChunks ==> |out| == m
      invariant Hashed(MiddleLayer(t, s, tt, ds), out, h)
    {
      var size := DiBlocksInChunk;
      if i + 1 == numChunks {
        size := m % DiBlocksInChunk;
        if size == 0 {
          size := DiBlocksInChunk;
        }
      }
      ChunkBounds(m, i);
      out, h := MiddleChunk(t, s, tt, ds, i, size, out, h);
      i := i + 1;
    }
    HashesOfIsHorner(out);
  }

  /** The inner loop: the di-blocks of chunk i, all under the same S_i. */
  method MiddleChunk(t: Tbc, s: Block, tt: Block, ds: seq<DiBlock>, i: nat, size: nat,
                     out0: seq<DiBlock>, h0: Hashes)
    returns (out: seq<DiBlock>, h: Hashes)
    requires size <= DiBlocksInChunk && |out0| == i * DiBlocksInChunk && |out0| + size <= |ds|
    requires Hashed(MiddleLayer(t, s, tt, ds), out0, h0)
    ensures |out| == |out0| + size
    ensures Hashed(MiddleLayer(t, s, tt, ds), out, h)
  {
    out, h := out0, h0;
    var si := SBlock(t, s, i);
    var j := 0;
    while j < size
      invariant 0 <= j <= size && |out| == i * DiBlocksInChunk + j
      invariant Hashed(MiddleLayer(t, s, tt, ds), out, h)
    {
      out, h := MiddleStep(t, s, tt, ds, i, si, i * DiBlocksInChunk + j, out, h);
      j := j + 1;
    }
  }

  /** Di-block k = 128 i + j, in chunk i: Z under counter k + 1, the mix, and the hash updates. */
  method MiddleStep(t: Tbc, s: Block, tt: Block, ds: seq<DiBlock>, i: nat, si: Block, k: nat,
                    out0: seq<DiBlock>, h0: Hashes)
    returns (out: seq<DiBlock>, h: Hashes)
    requires si == SBlock(t, s, i) && k == |out0| < |ds|
    requires i * DiBlocksInChunk <= k < i * DiBlocksInChunk + DiBlocksInChunk
    requires Hashed(MiddleLayer(t, s, tt, ds), out0, h0)
    ensures |out| == |out0| + 1
    ensures Hashed(MiddleLayer(t, s, tt, ds), out, h)
  {
    var next := Mix(ds[k], t.enc(DomainCenter, k + 1, tt, si), si);
    MiddleAt(t, s, tt, ds, i, k);
    HashedStep(MiddleLayer(t, s, tt, ds), out0, h0, next);
    out := out0 + [next];
    h := Absorb(h0, next);
  }

  /** The three running hashes of a layer: doubling over the left and the right halves, times four over the sums. */
  datatype Hashes = Hashes(l: Block, r: Block, s: Block)

  /** One di-block into all three hashes. */
  function Absorb(h: Hashes, d: DiBlock): Hashes
  {
    Hashes(Xor(DoubleBlock(h.l), d.l), Xor(DoubleBlock(h.r), d.r), Xor(TimesFourBlock(h.s), SumOf(d)))
  }

  /** The three hashes over a sequence of di-blocks, absorbing them from the first. */
  function HashesOf(ds: seq<DiBlock>): Hashes
  {
    if |ds| == 0 then Hashes(Zeros(16), Zeros(16), Zeros(16))
    else Absorb(HashesOf(ds[..|ds| - 1]), ds[|ds| - 1])
  }

  lemma HashesSnoc(ds: seq<DiBlock>, d: DiBlock)
    ensures HashesOf(ds + [d]) == Absorb(HashesOf(ds), d)
  {
    assert (ds + [d])[..|ds|] == ds;
  }

  /** HashesOf computes the three Horner hashes of the layer. */
  lemma {:induction false} HashesOfIsHorner(ds: seq<DiBlock>)
    ensures HashesOf(ds).l == Horner(DoubleBlock, Lefts(ds), |ds|)
    ensures HashesOf(ds).r == Horner(DoubleBlock, Rights(ds), |ds|)
    ensures HashesOf(ds).s == Horner(TimesFourBlock, Sums(ds), |ds|)
  {
    if |ds| > 0 {
      var front := ds[..|ds| - 1];
      var d := ds[|ds| - 1];
      HashesOfIsHorner(front);
      assert ds == front + [d];
      HornerAppend(front, d);
    }
  }

  /** The loop's state: a prefix of the layer is done and the hashes cover it. */
  ghost predicate Hashed(spec: seq<DiBlock>, out: seq<DiBlock>, h: Hashes)
  {
    |out| <= |spec| && out == spec[..|out|] && h == HashesOf(out)
  }

  lemma HashedStep(spec: seq<DiBlock>, out: seq<DiBlock>, h: Hashes, next: DiBlock)
    requires Hashed(spec, out, h) && |out| < |spec| && next == spec[|out|]
    ensures Hashed(spec, out + [next], Absorb(h, next))
  {
    HashesSnoc(out, next);
    assert spec[..|out| + 1] == spec[..|out|] + [spec[|out|]];
  }

  /** Di-block k of the layer, when it lies in chunk i. */
  lemma MiddleAt(t: Tbc, s: Block, tt: Block, ds: seq<DiBlock>, i: nat, k: nat)
    requires k < |ds| && i * DiBlocksInChunk <= k < i * DiBlocksInChunk + DiBlocksInChunk
    ensures MiddleLayer(t, s, tt, ds)[k]
      == Mix(ds[k], t.enc(DomainCenter, k + 1, tt, SBlock(t, s, i)), SBlock(t, s, i))
  {
    ChunkOf(i, k);
  }

  lemma ChunkOf(i: nat, k: nat)
    requires i * 128 <= k < i * 128 + 128
    ensures k / 128 == i
  {
  }

  /** Appending a value advances the hash by one step. */
  lemma HornerSnoc(f: Block -> Block, xs: seq<Block>, x: Block)
    ensures Horner(f, xs + [x], |xs| + 1) == Xor(f(Horner(f, xs, |xs|)), x)
  {
    var e := xs + [x];
    var n := |xs|;
    assert e[..n] == xs[..n];
    HornerPrefix(f, e, xs, n);
    var h := Horner(f, e, n);
    assert e[n] == x;
    assert Horner(f, e, n + 1) == Xor(f(h), e[n]);
  }

  lemma ColumnsSnoc(ds: seq<DiBlock>, d: DiBlock)
    ensures Lefts(ds + [d]) == Lefts(ds) + [d.l]
    ensures Rights(ds + [d]) == Rights(ds) + [d.r]
    ensures Sums(ds + [d]) == Sums(ds) + [SumOf(d)]
  {
  }

  /** One more di-block advances every hash by one step. */
  lemma HornerAppend(ds: seq<DiBlock>, d: DiBlock)
    ensures Horner(DoubleBlock, Lefts(ds + [d]), |ds| + 1)
      == Xor(DoubleBlock(Horner(DoubleBlock, Lefts(ds), |ds|)), d.l)
    ensures Horner(DoubleBlock, Rights(ds + [d]), |ds| + 1)
      == Xor(DoubleBlock(Horner(DoubleBlock, Rights(ds), |ds|)), d.r)
    ensures Horner(TimesFourBlock, Sums(ds + [d]), |ds| + 1)
      == Xor(TimesFourBlock(Horner(TimesFourBlock, Sums(ds), |ds|)), SumOf(d))
  {
    ColumnsSnoc(ds, d);
    HornerSnoc(DoubleBlock, Lefts(ds), d.l);
    HornerSnoc(DoubleBlock, Rights(ds), d.r);
    HornerSnoc(TimesFourBlock, Sums(ds), SumOf(d));
  }

  // ---------------------------------------------------------------
  // The last di-block
  // ---------------------------------------------------------------

  /** The values S and T the last di-block carries between the top and the bottom. */
  datatype Core = Core(s: Block, t: Block)

  /**
   * encrypt_last_di_block_top: L' = L_n XOR X-mask left, R' = R_n XOR
   * X-mask right; S = E(top last, n, R', L') and T = E(S last, n, S, R').
   */
  function LastTop(t: Tbc, n: nat, last: DiBlock, xm: DiBlock): Core
  {
    var l' := Xor(last.l, xm.l);
    var r' := Xor(last.r, xm.r);
    var s := t.enc(DomainTopLast, n, r', l');
    Core(s, t.enc(DomainSLast, n, s, r'))
  }

  /** decrypt_last_di_block_top: R' = D(S last, n, S, T), L' = D(top last, n, R', S), then unmask. */
  function DecLastTop(t: Tbc, n: nat, c: Core, xm: DiBlock): DiBlock
  {
    var r' := t.dec(DomainSLast, n, c.s, c.t);
    var l' := t.dec(DomainTopLast, n, r', c.s);
    DiBlock(Xor(l', xm.l), Xor(r', xm.r))
  }

  lemma LastTopInverse(t: Tbc, n: nat, last: DiBlock, xm: DiBlock)
    requires Inverts(t)
    ensures DecLastTop(t, n, LastTop(t, n, last, xm), xm) == last
  {
    var l' := Xor(last.l, xm.l);
    var r' := Xor(last.r, xm.r);
    var s := t.enc(DomainTopLast, n, r', l');
    DecEnc(t, DomainSLast, n, s, r');
    DecEnc(t, DomainTopLast, n, r', l');
    XorCancel(last.l, xm.l);
    XorCancel(last.r, xm.r);
  }

  /**
   * encrypt_last_di_block_bottom: L = E(center last, n, T, S),
   * R = E(bottom last, n, L, T), each XORed with its Y mask.
   */
  function LastBottom(t: Tbc, n: nat, c: Core, ym: DiBlock): DiBlock
  {
    var l := t.enc(DomainCenterLast, n, c.t, c.s);
    var r := t.enc(DomainBotLast, n, l, c.t);
    DiBlock(Xor(l, ym.l), Xor(r, ym.r))
  }

  /** decrypt_last_di_block_bottom: unmask, then T = D(bottom last, n, L, R), S = D(center last, n, T, L). */
  function DecLastBottom(t: Tbc, n: nat, last: DiBlock, ym: DiBlock): Core
  {
    var l := Xor(last.l, ym.l);
    var r := Xor(last.r, ym.r);
    var tt := t.dec(DomainBotLast, n, l, r);
    Core(t.dec(DomainCenterLast, n, tt, l), tt)
  }

  lemma LastBottomInverse(t: Tbc, n: nat, c: Core, ym: DiBlock)
    requires Inverts(t)
    ensures DecLastBottom(t, n, LastBottom(t, n, c, ym), ym) == c
  {
    var l := t.enc(DomainCenterLast, n, c.t, c.s);
    var r := t.enc(DomainBotLast, n, l, c.t);
    XorCancel(l, ym.l);
    XorCancel(r, ym.r);
    DecEnc(t, DomainBotLast, n, l, c.t);
    DecEnc(t, DomainCenterLast, n, c.t, l);
  }

  // ---------------------------------------------------------------
  // The basic scheme
  // ---------------------------------------------------------------

  /**
   * internal_zcz_basic_encrypt on n >= 1 di-blocks: the top layer on the
   * first n - 1, the last di-block's top step, the middle layer, the
   * bottom layer and the last di-block's bottom step.  The partial path
   * passes a modified last di-block.
   */
  function BasicEncrypt(t: Tbc, ds: seq<DiBlock>): (c: seq<DiBlock>)
    requires |ds| >= 1
    ensures |c| == |ds|
  {
    var n := |ds|;
    var top := TopLayer(t, ds[..n - 1]);
    var core := LastTop(t, n, ds[n - 1], XMask(t, n, top));
    var mid := MiddleLayer(t, core.s, core.t, top);
    BotLayer(t, mid) + [LastBottom(t, n, core, YMask(t, n, mid))]
  }

  /** internal_zcz_basic_decrypt: the steps in reverse order, each with its inverse. */
  function BasicDecrypt(t: Tbc, cs: seq<DiBlock>): (p: seq<DiBlock>)
    requires |cs| >= 1
    ensures |p| == |cs|
  {
    var n := |cs|;
    var mid := DecBotLayer(t, cs[..n - 1]);
    var core := DecLastBottom(t, n, cs[n - 1], YMask(t, n, mid));
    var top := MiddleLayer(t, core.s, core.t, mid);
    DecTopLayer(t, top) + [DecLastTop(t, n, core, XMask(t, n, top))]
  }

  /** BasicDecrypt once its bottom steps are known to give mid and core. */
  lemma BasicDecryptFrom(t: Tbc, cs: seq<DiBlock>, mid: seq<DiBlock>, core: Core)
    requires |cs| >= 1
    requires DecBotLayer(t, cs[..|cs| - 1]) == mid
    requires DecLastBottom(t, |cs|, cs[|cs| - 1], YMask(t, |cs|, mid)) == core
    ensures BasicDecrypt(t, cs)
         == DecTopLayer(t, MiddleLayer(t, core.s, core.t, mid))
            + [DecLastTop(t, |cs|, core, XMask(t, |cs|, MiddleLayer(t, core.s, core.t, mid)))]
  {
  }

  /** The bottom steps of the decryption undo those of the encryption. */
  lemma {:induction false} BasicBottomInverse(t: Tbc, ds: seq<DiBlock>, top: seq<DiBlock>, core: Core)
    requires Inverts(t) && |ds| >= 1
    requires top == TopLayer(t, ds[..|ds| - 1])
    requires core == LastTop(t, |ds|, ds[|ds| - 1], XMask(t, |ds|, top))
    ensures DecBotLayer(t, BasicEncrypt(t, ds)[..|ds| - 1]) == MiddleLayer(t, core.s, core.t, top)
    ensures DecLastBottom(t, |ds|, BasicEncrypt(t, ds)[|ds| - 1],
                          YMask(t, |ds|, MiddleLayer(t, core.s, core.t, top))) == core
  {
    var n := |ds|;
    var mid := MiddleLayer(t, core.s, core.t, top);
    var ym := YMask(t, n, mid);
    var c := BasicEncrypt(t, ds);
    assert c[..n - 1] == BotLayer(t, mid);
    assert c[n - 1] == LastBottom(t, n, core, ym);
    BotLayerInverse(t, mid);
    LastBottomInverse(t, n, core, ym);
  }

  /** The basic scheme decrypts what it encrypted, for every number of di-blocks. */
  lemma {:induction false} BasicRoundTrip(t: Tbc, ds: seq<DiBlock>)
    requires Inverts(t) && |ds| >= 1
    ensures BasicDecrypt(t, BasicEncrypt(t, ds)) == ds
  {
    var n := |ds|;
    var front := ds[..n - 1];
    var top := TopLayer(t, front);
    var xm := XMask(t, n, top);
    var core := LastTop(t, n, ds[n - 1], xm);
    var mid := MiddleLayer(t, core.s, core.t, top);
    BasicBottomInverse(t, ds, top, core);
    BasicDecryptFrom(t, BasicEncrypt(t, ds), mid, core);
    MiddleLayerInvolution(t, core.s, core.t, top);
    TopLayerInverse(t, front);
    LastTopInverse(t, n, ds[n - 1], xm);
    assert front + [ds[n - 1]] == ds;
  }

  // ---------------------------------------------------------------
  // Padding and the partial-block hash
  // ---------------------------------------------------------------

  /**
   * pad_message: byte src becomes 0x80 and bytes src + 1 .. tgt - 1
   * become zero.  If tgt <= src the message cannot be padded and nothing
   * is written (the source prints a fatal message).
   */
  function PadMessage(target: seq<Byte>, src: nat, tgt: nat): (r: seq<Byte>)
    requires tgt <= |target|
    ensures |r| == |target|
    ensures tgt <= src ==> r == target
    ensures src < tgt ==> r[src] == 0x80
    ensures src < tgt ==> forall i | src < i < tgt :: r[i] == 0
    ensures forall i | 0 <= i < |target| && (i < src || i >= tgt) :: r[i] == target[i]
  {
    if tgt <= src then target
    else target[..src] + [0x80] + Zeros(tgt - src - 1) + target[tgt..]
  }

  /** Padding keeps only the first src bytes of what was there, so it is idempotent. */
  lemma PadPrefix(a: seq<Byte>, b: seq<Byte>, src: nat, tgt: nat)
    requires src < tgt == |a| == |b| && a[..src] == b[..src]
    ensures PadMessage(a, src, tgt) == PadMessage(b, src, tgt)
    ensures PadMessage(PadMessage(a, src, tgt), src, tgt) == PadMessage(a, src, tgt)
  {
    var pa := PadMessage(a, src, tgt);
    var pb := PadMessage(b, src, tgt);
    forall i | 0 <= i < tgt
      ensures pa[i] == pb[i]
    {
      if i < src {
        assert a[i] == a[..src][i];
        assert b[i] == b[..src][i];
      }
    }
  }

  /**
   * hash: the di-block (u, v) becomes
   * (E(partial, c, v, u), E(partial, c + 1, v, u)).
   */
  function Hash(t: Tbc, d: DiBlock, c: nat): DiBlock
  {
    DiBlock(t.enc(DomainPartial, c, d.r, d.l), t.enc(DomainPartial, c + 1, d.r, d.l))
  }

  // ---------------------------------------------------------------
  // The partial-block path
  // ---------------------------------------------------------------

  /**
   * The padded partial di-block: its r bytes, then 0x80 and zeros.  The
   * source copies the r bytes into an uninitialised buffer; padding
   * overwrites everything after them, so zeros stand for that buffer.
   */
  function PaddedPartial(part: seq<Byte>): (p: seq<Byte>)
    requires |part| < 32
    ensures |p| == 32 && p[..|part|] == part
  {
    PadMessage(part + Zeros(32 - |part|), |part|, 32)
  }

  /** The result of the partial path on di-blocks: the full di-blocks and the padded partial one. */
  datatype PartialOut = PartialOut(ds: seq<DiBlock>, tail: seq<Byte>)

  /**
   * internal_zcz_encrypt on the full di-blocks and the padded partial
   * di-block ps holding r message bytes:
   *  - the top hash of ps (counter 0) is XORed into the last full di-block;
   *  - the basic scheme runs on the full di-blocks;
   *  - the middle hash (counter 2) of the last di-block before and after
   *    it is XORed into ps, which is padded again after r bytes;
   *  - the bottom hash (counter 4) of that is XORed into the last
   *    ciphertext di-block.
   */
  function PartialEncryptDi(t: Tbc, ds: seq<DiBlock>, ps: seq<Byte>, r: nat): (o: PartialOut)
    requires |ds| >= 1 && |ps| == 32 && r < 32
    ensures |o.ds| == |ds| && |o.tail| == 32
  {
    var n := |ds|;
    var last := DiXor(ds[n - 1], Hash(t, DiOf(ps), CounterPartialTop));
    var c1 := BasicEncrypt(t, ds[..n - 1] + [last]);
    var mid := Hash(t, DiXor(last, c1[n - 1]), CounterPartialCenter);
    var p2 := PadMessage(BytesOf(DiXor(DiOf(ps), mid)), r, 32);
    PartialOut(c1[..n - 1] + [DiXor(c1[n - 1], Hash(t, DiOf(p2), CounterPartialBottom))], p2)
  }

  /** internal_zcz_decrypt: the bottom hash first, the basic decryption, the middle hash, the top hash last. */
  function PartialDecryptDi(t: Tbc, cs: seq<DiBlock>, ps: seq<Byte>, r: nat): (o: PartialOut)
    requires |cs| >= 1 && |ps| == 32 && r < 32
    ensures |o.ds| == |cs| && |o.tail| == 32
  {
    var n := |cs|;
    var last := DiXor(cs[n - 1], Hash(t, DiOf(ps), CounterPartialBottom));
    var m1 := BasicDecrypt(t, cs[..n - 1] + [last]);
    var mid := Hash(t, DiXor(last, m1[n - 1]), CounterPartialCenter);
    var p2 := PadMessage(BytesOf(DiXor(DiOf(ps), mid)), r, 32);
    PartialOut(m1[..n - 1] + [DiXor(m1[n - 1], Hash(t, DiOf(p2), CounterPartialTop))], p2)
  }

  /** internal_zcz_encrypt on bytes: the full di-blocks, then the r bytes of the partial one. */
  function PartialEncrypt(t: Tbc, m: seq<Byte>): (c: seq<Byte>)
    requires |m| >= 32
    ensures |c| == |m|
  {
    var full := |m| / 32 * 32;
    var o := PartialEncryptDi(t, Split(m[..full]), PaddedPartial(m[full..]), |m| % 32);
    Join(o.ds) + o.tail[..|m| % 32]
  }

  /** internal_zcz_decrypt on bytes. */
  function PartialDecrypt(t: Tbc, c: seq<Byte>): (m: seq<Byte>)
    requires |c| >= 32
    ensures |m| == |c|
  {
    var full := |c| / 32 * 32;
    var o := PartialDecryptDi(t, Split(c[..full]), PaddedPartial(c[full..]), |c| % 32);
    Join(o.ds) + o.tail[..|c| % 32]
  }

  /** The byte form of XORing a di-block into the di-block of 32 bytes. */
  lemma DiXorBytes(a: seq<Byte>, b: DiBlock)
    requires |a| == 32
    ensures BytesOf(DiXor(DiOf(a), b)) == Xor(a, BytesOf(b))
  {
    DiXorFacts(DiOf(a), b);
    DiRoundTrip(a, b);
  }

  /**
   * The partial di-block after the middle hash: XORing the same mask
   * into the padded result and padding again gives back the padded
   * input, because only the first r bytes survive the padding.
   */
  lemma PadXorPad(ps: seq<Byte>, mid: DiBlock, r: nat)
    requires |ps| == 32 && r < 32
    ensures var p2 := PadMessage(BytesOf(DiXor(DiOf(ps), mid)), r, 32);
      PadMessage(BytesOf(DiXor(DiOf(p2), mid)), r, 32) == PadMessage(ps, r, 32)
  {
    var x := BytesOf(DiXor(DiOf(ps), mid));
    var p2 := PadMessage(x, r, 32);
    var y := BytesOf(DiXor(DiOf(p2), mid));
    DiXorBytes(ps, mid);
    DiXorBytes(p2, mid);
    forall i | 0 <= i < r
      ensures y[i] == ps[i]
    {
      assert p2[i] == x[i];
    }
    assert y[..r] == ps[..r];
    PadPrefix(y, ps, r, 32);
  }

  /** The partial ciphertext bytes, padded again, are the padded block the bottom hash saw. */
  lemma RepadPartial(p2: seq<Byte>, r: nat)
    requires |p2| == 32 && r < 32 && PadMessage(p2, r, 32) == p2
    ensures PaddedPartial(p2[..r]) == p2
  {
    var a := p2[..r] + Zeros(32 - r);
    assert a[..r] == p2[..r];
    PadPrefix(a, p2, r, 32);
  }

  /** The padded partial block of a message is already padded. */
  lemma PaddedPartialIsPadded(part: seq<Byte>)
    requires |part| < 32
    ensures PadMessage(PaddedPartial(part), |part|, 32) == PaddedPartial(part)
  {
    PadPrefix(part + Zeros(32 - |part|), part + Zeros(32 - |part|), |part|, 32);
  }

  /** A sequence is its front and its last element. */
  lemma FrontLast<T>(s: seq<T>)
    requires |s| >= 1
    ensures s[..|s| - 1] + [s[|s| - 1]] == s
  {
  }

  /** Masking the last di-block and unmasking it again restores the sequence. */
  lemma UnmaskLast(c1: seq<DiBlock>, h: DiBlock)
    requires |c1| >= 1
    ensures var cs := c1[..|c1| - 1] + [DiXor(c1[|c1| - 1], h)];
      cs[..|c1| - 1] + [DiXor(cs[|c1| - 1], h)] == c1
  {
    var n := |c1|;
    DiXorFacts(c1[n - 1], h);
    var cs := c1[..n - 1] + [DiXor(c1[n - 1], h)];
    assert cs[..n - 1] == c1[..n - 1];
    FrontLast(c1);
  }

  /** The basic decryption inside the partial path sees the basic encryption's output. */
  lemma PartialBasicStep(t: Tbc, ds: seq<DiBlock>, last: DiBlock, h: DiBlock)
    requires Inverts(t) && |ds| >= 1
    ensures var c1 := BasicEncrypt(t, ds[..|ds| - 1] + [last]);
      var cs := c1[..|ds| - 1] + [DiXor(c1[|ds| - 1], h)];
      BasicDecrypt(t, cs[..|ds| - 1] + [DiXor(cs[|ds| - 1], h)]) == ds[..|ds| - 1] + [last]
  {
    var n := |ds|;
    var c1 := BasicEncrypt(t, ds[..n - 1] + [last]);
    UnmaskLast(c1, h);
    BasicRoundTrip(t, ds[..n - 1] + [last]);
  }

  /** On di-blocks the partial path decrypts what it encrypted, when ps is padded after r bytes. */
  lemma PartialDiRoundTrip(t: Tbc, ds: seq<DiBlock>, ps: seq<Byte>, r: nat)
    requires Inverts(t) && |ds| >= 1 && |ps| == 32 && r < 32
    requires PadMessage(ps, r, 32) == ps
    ensures var o := PartialEncryptDi(t, ds, ps, r);
      PartialDecryptDi(t, o.ds, o.tail, r) == PartialOut(ds, ps)
  {
    var n := |ds|;
    var hTop := Hash(t, DiOf(ps), CounterPartialTop);
    var last := DiXor(ds[n - 1], hTop);
    var c1 := BasicEncrypt(t, ds[..n - 1] + [last]);
    var mid := Hash(t, DiXor(last, c1[n - 1]), CounterPartialCenter);
    var p2 := PadMessage(BytesOf(DiXor(DiOf(ps), mid)), r, 32);
    var hBot := Hash(t, DiOf(p2), CounterPartialBottom);
    PartialBasicStep(t, ds, last, hBot);
    UnmaskLast(c1, hBot);
    var m1 := ds[..n - 1] + [last];
    assert m1[..n - 1] == ds[..n - 1] && m1[n - 1] == last;
    DiXorFacts(c1[n - 1], last);
    PadXorPad(ps, mid, r);
    DiXorFacts(ds[n - 1], hTop);
    FrontLast(ds);
  }

  /** A message of at least 32 bytes is its full di-blocks and the rest. */
  lemma CutMessage(m: seq<Byte>, ds: seq<DiBlock>, tail: seq<Byte>)
    requires |m| >= 32 && ds == Split(m[..|m| / 32 * 32]) && |tail| == 32
    requires tail[..|m| % 32] == m[|m| / 32 * 32..]
    ensures Join(ds) + tail[..|m| % 32] == m
  {
    JoinSplit(m[..|m| / 32 * 32]);
    assert m == m[..|m| / 32 * 32] + m[|m| / 32 * 32..];
  }

  /** The tail the partial path writes is padded after r bytes. */
  lemma PartialTailPadded(t: Tbc, ds: seq<DiBlock>, ps: seq<Byte>, r: nat)
    requires |ds| >= 1 && |ps| == 32 && r < 32
    ensures PadMessage(PartialEncryptDi(t, ds, ps, r).tail, r, 32) == PartialEncryptDi(t, ds, ps, r).tail
  {
    var x := PartialEncryptDi(t, ds, ps, r).tail;
    var n := |ds|;
    var last := DiXor(ds[n - 1], Hash(t, DiOf(ps), CounterPartialTop));
    var c1 := BasicEncrypt(t, ds[..n - 1] + [last]);
    var mid := Hash(t, DiXor(last, c1[n - 1]), CounterPartialCenter);
    var y := BytesOf(DiXor(DiOf(ps), mid));
    PadPrefix(y, y, r, 32);
  }

  /** How the decryption reads the bytes the partial path wrote. */
  lemma PartialView(o: PartialOut, r: nat)
    requires |o.tail| == 32 && r < 32 && PadMessage(o.tail, r, 32) == o.tail
    ensures var c := Join(o.ds) + o.tail[..r];
      && |c| / 32 * 32 == 32 * |o.ds| && |c| % 32 == r
      && Split(c[..|c| / 32 * 32]) == o.ds && PaddedPartial(c[|c| / 32 * 32..]) == o.tail
  {
    var c := Join(o.ds) + o.tail[..r];
    assert c[..32 * |o.ds|] == Join(o.ds);
    assert c[32 * |o.ds|..] == o.tail[..r];
    SplitJoin(o.ds);
    RepadPartial(o.tail, r);
  }

  /** The partial-block path decrypts what it encrypted, for every length of at least 32 bytes. */
  lemma PartialRoundTrip(t: Tbc, m: seq<Byte>)
    requires Inverts(t) && |m| >= 32
    ensures PartialDecrypt(t, PartialEncrypt(t, m)) == m
  {
    var full := |m| / 32 * 32;
    var r := |m| % 32;
    var ds := Split(m[..full]);
    var ps := PaddedPartial(m[full..]);
    var o := PartialEncryptDi(t, ds, ps, r);
    PartialTailPadded(t, ds, ps, r);
    PartialView(o, r);
    PaddedPartialIsPadded(m[full..]);
    PartialDiRoundTrip(t, ds, ps, r);
    CutMessage(m, ds, ps);
  }

  // ---------------------------------------------------------------
  // The public API
  // ---------------------------------------------------------------

  /** internal_zcz_basic_encrypt on a whole message of di-blocks. */
  function BasicEncryptBytes(t: Tbc, m: seq<Byte>): (c: seq<Byte>)
    requires |m| >= 32 && |m| % 32 == 0
    ensures |c| == |m|
  {
    Join(BasicEncrypt(t, Split(m)))
  }

  /** internal_zcz_basic_decrypt on a whole ciphertext of di-blocks. */
  function BasicDecryptBytes(t: Tbc, c: seq<Byte>): (m: seq<Byte>)
    requires |c| >= 32 && |c| % 32 == 0
    ensures |m| == |c|
  {
    Join(BasicDecrypt(t, Split(c)))
  }

  lemma BasicBytesRoundTrip(t: Tbc, m: seq<Byte>)
    requires Inverts(t) && |m| >= 32 && |m| % 32 == 0
    ensures BasicDecryptBytes(t, BasicEncryptBytes(t, m)) == m
  {
    var cs := BasicEncrypt(t, Split(m));
    SplitJoin(cs);
    BasicRoundTrip(t, Split(m));
    JoinSplit(m);
  }

  /** zcz_basic_encrypt: only lengths the basic scheme accepts; otherwise nothing is written. */
  function ZczBasicEncrypt(t: Tbc, m: seq<Byte>): (c: Option<seq<Byte>>)
    ensures c.Some? <==> IsLengthOkForBasic(|m|)
    ensures c.Some? ==> |c.value| == |m|
  {
    if IsLengthOkForBasic(|m|) then Some(BasicEncryptBytes(t, m)) else None
  }

  function ZczBasicDecrypt(t: Tbc, c: seq<Byte>): (m: Option<seq<Byte>>)
    ensures m.Some? <==> IsLengthOkForBasic(|c|)
    ensures m.Some? ==> |m.value| == |c|
  {
    if IsLengthOkForBasic(|c|) then Some(BasicDecryptBytes(t, c)) else None
  }

  /**
   * zcz_encrypt: the basic scheme where it applies, nothing for fewer
   * than 32 bytes, and the partial-block path otherwise, including whole
   * di-blocks beyond the basic maximum.
   */
  function ZczEncrypt(t: Tbc, m: seq<Byte>): (c: Option<seq<Byte>>)
    ensures c.Some? <==> |m| >= MinMessageBytes
    ensures c.Some? ==> |c.value| == |m|
  {
    if IsLengthOkForBasic(|m|) then Some(BasicEncryptBytes(t, m))
    else if !IsLengthOkForZcz(|m|) then None
    else Some(PartialEncrypt(t, m))
  }

  function ZczDecrypt(t: Tbc, c: seq<Byte>): (m: Option<seq<Byte>>)
    ensures m.Some? <==> |c| >= MinMessageBytes
    ensures m.Some? ==> |m.value| == |c|
  {
    if IsLengthOkForBasic(|c|) then Some(BasicDecryptBytes(t, c))
    else if !IsLengthOkForZcz(|c|) then None
    else Some(PartialDecrypt(t, c))
  }

  /** Both APIs decrypt what they encrypted, whenever they accept the length. */
  lemma ZczRoundTrip(t: Tbc, m: seq<Byte>)
    requires Inverts(t)
    ensures ZczEncrypt(t, m).Some? ==> ZczDecrypt(t, ZczEncrypt(t, m).value) == Some(m)
    ensures ZczBasicEncrypt(t, m).Some? ==> ZczBasicDecrypt(t, ZczBasicEncrypt(t, m).value) == Some(m)
  {
    if IsLengthOkForBasic(|m|) {
      BasicBytesRoundTrip(t, m);
    } else if IsLengthOkForZcz(|m|) {
      PartialRoundTrip(t, m);
    }
  }

  /** On basic lengths the two APIs agree; elsewhere the basic one writes nothing. */
  lemma BasicIsZcz(t: Tbc, m: seq<Byte>)
    ensures IsLengthOkForBasic(|m|) ==> ZczBasicEncrypt(t, m) == ZczEncrypt(t, m)
    ensures IsLengthOkForBasic(|m|) ==> ZczBasicDecrypt(t, m) == ZczDecrypt(t, m)
    ensures !IsLengthOkForBasic(|m|) ==> ZczBasicEncrypt(t, m).None?
  {
  }
}
