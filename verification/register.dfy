/**
 * The 128-bit SIMD register of the optimised build (opt/utils-opt.h), as
 * its 128 bits.  Bit i has weight 2^i in the little-endian value, so the
 * memory byte j of a store holds bits 8j .. 8j+7.  The 64-bit lanes are
 * bits 0..63 (low) and 64..127 (high); the 32-bit lanes are bits
 * 32m .. 32m+31 for m = 0..3.
 *
 * Only the intrinsics the modelled code uses are defined, each by what it
 * does to every bit.
 */
module Register {
  import opened Bytes

  type Reg = s: seq<bool> | |s| == 128 witness seq(128, _ => false)

  function Zero(): Reg { seq(128, i => false) }

  /** vxor: bitwise exclusive or. */
  function VXor(a: Reg, b: Reg): (r: Reg)
    ensures forall i | 0 <= i < 128 :: r[i] == (a[i] != b[i])
  {
    seq(128, i requires 0 <= i < 128 => a[i] != b[i])
  }

  /** vand: bitwise and. */
  function VAnd(a: Reg, b: Reg): (r: Reg)
    ensures forall i | 0 <= i < 128 :: r[i] == (a[i] && b[i])
  {
    seq(128, i requires 0 <= i < 128 => a[i] && b[i])
  }

  // ---------------------------------------------------------------
  // Constants
  // ---------------------------------------------------------------

  /** Bit b of a natural number. */
  function NatBit(n: nat, b: nat): bool
  {
    if b == 0 then n % 2 == 1 else NatBit(n / 2, b - 1)
  }

  /** set32(x3, x2, x1, x0) = _mm_set_epi32: x0 is the lowest 32-bit lane. */
  function Set32(x3: nat, x2: nat, x1: nat, x0: nat): Reg
  {
    seq(128, i requires 0 <= i < 128 =>
      NatBit(if i < 32 then x0 else if i < 64 then x1 else if i < 96 then x2 else x3, i % 32))
  }

  // ---------------------------------------------------------------
  // Shifts and shuffles
  // ---------------------------------------------------------------

  /** vshift_left_64 = _mm_slli_epi64: each 64-bit lane shifted left, bits leaving a lane are lost. */
  function Sll64(v: Reg, k: nat): Reg
    requires k < 64
  {
    seq(128, i requires 0 <= i < 128 => i % 64 >= k && v[i - k])
  }

  /** vshift_right_64 = _mm_srli_epi64: each 64-bit lane shifted right, zeros come in at the top. */
  function Srl64(v: Reg, k: nat): Reg
    requires k < 64
  {
    seq(128, i requires 0 <= i < 128 => i % 64 + k < 64 && v[i + k])
  }

  /** vshift_left_32 = _mm_slli_epi32. */
  function Sll32(v: Reg, k: nat): Reg
    requires k < 32
  {
    seq(128, i requires 0 <= i < 128 => i % 32 >= k && v[i - k])
  }

  /** _mm_srai_epi32: arithmetic right shift of each 32-bit lane; the lane's sign bit comes in at the top. */
  function Sra32(v: Reg, k: nat): Reg
    requires k < 32
  {
    seq(128, i requires 0 <= i < 128 => if i % 32 + k < 32 then v[i + k] else v[i - i % 32 + 31])
  }

  /** vshift_bytes_left = _mm_bslli_si128: the whole register moves up by n bytes. */
  function BytesLeft(v: Reg, n: nat): Reg
  {
    seq(128, i requires 0 <= i < 128 => i >= 8 * n && v[i - 8 * n])
  }

  /** _MM_SHUFFLE(z, y, x, w): the immediate that picks source lane w for lane 0, x for 1, y for 2, z for 3. */
  function MmShuffle(z: nat, y: nat, x: nat, w: nat): nat
    requires z < 4 && y < 4 && x < 4 && w < 4
  {
    64 * z + 16 * y + 4 * x + w
  }

  /** The source lane that _mm_shuffle_epi32 puts into lane m. */
  function Selector(imm: nat, m: nat): nat
    requires m < 4
  {
    if m == 0 then imm % 4
    else if m == 1 then imm / 4 % 4
    else if m == 2 then imm / 16 % 4
    else imm / 64 % 4
  }

  /** _mm_shuffle_epi32(v, imm): lane m of the result is lane Selector(imm, m) of v. */
  function Shuffle32(v: Reg, imm: nat): Reg
  {
    seq(128, i requires 0 <= i < 128 => v[32 * Selector(imm, i / 32) + i % 32])
  }

  // ---------------------------------------------------------------
  // Carry-less multiplication
  // ---------------------------------------------------------------

  /**
   * Bit i of the carry-less product of the 64-bit lanes starting at bit
   * `oa` of `a` and bit `ob` of `b`, summing the partial products of the
   * first n bits of the first factor.
   */
  function ClMulBit(a: Reg, oa: nat, b: Reg, ob: nat, i: int, n: nat): bool
    requires (oa == 0 || oa == 64) && (ob == 0 || ob == 64) && n <= 64
  {
    if n == 0 then false
    else ClMulBit(a, oa, b, ob, i, n - 1) != (a[oa + n - 1] && 0 <= i - (n - 1) < 64 && b[ob + i - (n - 1)])
  }

  /**
   * clmul = _mm_clmulepi64_si128(a, b, imm): bit 0 of imm selects the
   * high lane of `a`, bit 4 the high lane of `b`; the result is their
   * 128-bit carry-less product.
   */
  function ClMul(a: Reg, b: Reg, imm: nat): Reg
  {
    var oa := if imm % 2 == 1 then 64 else 0;
    var ob := if imm / 16 % 2 == 1 then 64 else 0;
    seq(128, i requires 0 <= i < 128 => ClMulBit(a, oa, b, ob, i, 64))
  }

  // ---------------------------------------------------------------
  // Loads and stores
  // ---------------------------------------------------------------

  /** Bit k of a byte. */
  predicate Bit(x: Byte, k: nat)
    requires k < 8
  {
    if k == 0 then x & 0x01 != 0
    else if k == 1 then x & 0x02 != 0
    else if k == 2 then x & 0x04 != 0
    else if k == 3 then x & 0x08 != 0
    else if k == 4 then x & 0x10 != 0
    else if k == 5 then x & 0x20 != 0
    else if k == 6 then x & 0x40 != 0
    else x & 0x80 != 0
  }

  /** The eight bits of a byte, least significant first. */
  function BitsOf(x: Byte): (r: seq<bool>)
    ensures |r| == 8
  {
    [Bit(x, 0), Bit(x, 1), Bit(x, 2), Bit(x, 3), Bit(x, 4), Bit(x, 5), Bit(x, 6), Bit(x, 7)]
  }

  /** The byte whose bits, from least significant, are t[0] .. t[7]. */
  function Pack(t: seq<bool>): Byte
    requires |t| == 8
  {
    (if t[0] then 0x01 else 0) | (if t[1] then 0x02 else 0) | (if t[2] then 0x04 else 0)
    | (if t[3] then 0x08 else 0) | (if t[4] then 0x10 else 0) | (if t[5] then 0x20 else 0)
    | (if t[6] then 0x40 else 0) | (if t[7] then 0x80 else 0)
  }

  /** load / loadu: sixteen bytes of memory as a register. */
  function Load(b: Block): Reg
  {
    seq(128, i requires 0 <= i < 128 => Bit(b[i / 8], i % 8))
  }

  /** store / storeu: the sixteen bytes of a register in memory order. */
  function Store(v: Reg): Block
  {
    seq(16, j requires 0 <= j < 16 => Pack(v[8 * j..8 * j + 8]))
  }

  lemma BitsOfPack(t: seq<bool>)
    requires |t| == 8
    ensures BitsOf(Pack(t)) == t
  {
  }

  lemma DivMod8(j: nat, r: nat)
    requires r < 8
    ensures (8 * j + r) / 8 == j && (8 * j + r) % 8 == r
  {
  }

  /** The eight bits of byte j of a register are those of the byte x. */
  predicate ByteBits(l: Reg, j: nat, x: Byte)
    requires j < 16
  {
    l[8 * j] == Bit(x, 0) && l[8 * j + 1] == Bit(x, 1) && l[8 * j + 2] == Bit(x, 2)
    && l[8 * j + 3] == Bit(x, 3) && l[8 * j + 4] == Bit(x, 4) && l[8 * j + 5] == Bit(x, 5)
    && l[8 * j + 6] == Bit(x, 6) && l[8 * j + 7] == Bit(x, 7)
  }

  /** A register whose byte j has the bits of x stores x there. */
  lemma StoreByteBits(t: Reg, j: nat, x: Byte)
    requires j < 16 && ByteBits(t, j, x)
    ensures Store(t)[j] == x
  {
    var u := t[8 * j..8 * j + 8];
    assert u[0] == t[8 * j] && u[1] == t[8 * j + 1] && u[2] == t[8 * j + 2] && u[3] == t[8 * j + 3];
    assert u[4] == t[8 * j + 4] && u[5] == t[8 * j + 5] && u[6] == t[8 * j + 6] && u[7] == t[8 * j + 7];
    PackOfBits(x, u);
  }

  /** Pack inverts the bit predicate. */
  lemma PackOfBits(x: Byte, u: seq<bool>)
    requires |u| == 8
    requires u[0] == Bit(x, 0) && u[1] == Bit(x, 1) && u[2] == Bit(x, 2) && u[3] == Bit(x, 3)
    requires u[4] == Bit(x, 4) && u[5] == Bit(x, 5) && u[6] == Bit(x, 6) && u[7] == Bit(x, 7)
    ensures Pack(u) == x
  {
  }

  /** Bit r of byte j of a loaded block. */
  lemma LoadBit(b: Block, j: nat, r: nat)
    requires j < 16 && r < 8
    ensures Load(b)[8 * j + r] == Bit(b[j], r)
  {
    DivMod8(j, r);
  }

  /** Byte j of a loaded block has the bits of b[j]. */
  lemma LoadByteBits(b: Block, j: nat)
    requires j < 16
    ensures ByteBits(Load(b), j, b[j])
  {
    forall r | 0 <= r < 8
      ensures Load(b)[8 * j + r] == Bit(b[j], r)
    {
      LoadBit(b, j, r);
    }
  }

  lemma LoadOfStoreAt(v: Reg, j: nat, r: nat)
    requires j < 16 && r < 8
    ensures Load(Store(v))[8 * j + r] == v[8 * j + r]
  {
    DivMod8(j, r);
    BitsOfPack(v[8 * j..8 * j + 8]);
  }

  lemma StoreOfLoadAt(b: Block, j: nat)
    requires j < 16
    ensures Store(Load(b))[j] == b[j]
  {
    LoadByteBits(b, j);
    StoreByteBits(Load(b), j, b[j]);
  }

  /** Storing and loading are mutually inverse. */
  lemma LoadStore(v: Reg, b: Block)
    ensures Load(Store(v)) == v
    ensures Store(Load(b)) == b
  {
    forall i | 0 <= i < 128
      ensures Load(Store(v))[i] == v[i]
    {
      LoadOfStoreAt(v, i / 8, i % 8);
    }
    forall j | 0 <= j < 16
      ensures Store(Load(b))[j] == b[j]
    {
      StoreOfLoadAt(b, j);
    }
  }
}
