/**
 * The Deoxys-BC tweakable block cipher of the reference build
 * (ref/deoxysbc.c): the tweakey permutation H, the byte LFSRs, the round
 * constants, the tweakey schedules of the 128-128, 128-256 and 128-384
 * variants, and encryption and decryption over abstract AES rounds.
 *
 * The AES round functions are not part of this model (ref/aes.h only
 * declares them).  They are the fields of an `Aes` value, and the facts
 * the cipher needs are the inverse laws of FIPS 197 sections 5.3.1 to
 * 5.3.3 and the linearity of InvMixColumns that the equivalent inverse
 * cipher of FIPS 197 section 5.3.5 rests on.
 */
module Deoxys {
  import opened Bytes

  // ---------------------------------------------------------------
  // The tweakey permutation H
  // ---------------------------------------------------------------

  /** H_PERMUTATION: byte i of the permuted block is byte H[i] of the input. */
  function HPermutation(): (h: seq<nat>)
    ensures |h| == 16
  {
    [7, 0, 13, 10, 11, 4, 1, 14, 15, 8, 5, 2, 3, 12, 9, 6]
  }

  /** The inverse of H, which is also H^7. */
  function HInverse(): (h: seq<nat>)
    ensures |h| == 16
  {
    [1, 6, 11, 12, 5, 10, 15, 0, 9, 14, 3, 4, 13, 2, 7, 8]
  }

  /** Sixteen indices into a block. */
  predicate IsIndexMap(p: seq<nat>)
  {
    |p| == 16 && forall i | 0 <= i < 16 :: p[i] < 16
  }

  /** permute(x, mask): byte i of the result is byte mask[i] of x. */
  function Permute(x: Block, p: seq<nat>): (r: Block)
    requires IsIndexMap(p)
  {
    seq(16, i requires 0 <= i < 16 => x[p[i]])
  }

  /** permute_tweak: the permutation H. */
  function PermuteTweak(x: Block): Block
  {
    HIndexMap();
    Permute(x, HPermutation())
  }

  /** The tables agree as mutual inverses from index i on. */
  predicate InverseFrom(i: nat)
    decreases 16 - i
  {
    i >= 16 ||
    (HPermutation()[i] < 16 && HInverse()[i] < 16
     && HInverse()[HPermutation()[i]] == i && HPermutation()[HInverse()[i]] == i
     && InverseFrom(i + 1))
  }

  lemma {:induction false} InverseAt(i: nat, k: nat)
    requires InverseFrom(i) && i <= k < 16
    ensures HPermutation()[k] < 16 && HInverse()[k] < 16
    ensures HInverse()[HPermutation()[k]] == k && HPermutation()[HInverse()[k]] == k
    decreases k - i
  {
    if i < k {
      InverseAt(i + 1, k);
    }
  }

  /** H and its inverse index within a block. */
  lemma HIndexMap()
    ensures IsIndexMap(HPermutation()) && IsIndexMap(HInverse())
  {
    assert InverseFrom(0);
    forall k | 0 <= k < 16
      ensures HPermutation()[k] < 16 && HInverse()[k] < 16
    {
      InverseAt(0, k);
    }
  }

  /** H maps 0..15 one-to-one onto 0..15, and HInverse undoes it. */
  lemma HIsPermutation()
    ensures IsIndexMap(HPermutation()) && IsIndexMap(HInverse())
    ensures forall i | 0 <= i < 16 :: HInverse()[HPermutation()[i]] == i && HPermutation()[HInverse()[i]] == i
    ensures forall i, j | 0 <= i < 16 && 0 <= j < 16 && i != j :: HPermutation()[i] != HPermutation()[j]
  {
    assert InverseFrom(0);
    forall k | 0 <= k < 16
      ensures HPermutation()[k] < 16 && HInverse()[k] < 16
      ensures HInverse()[HPermutation()[k]] == k && HPermutation()[HInverse()[k]] == k
    {
      InverseAt(0, k);
    }
  }

  /** permute_tweak only reorders bytes: the inverse index map undoes it, on both sides. */
  lemma PermuteTweakInverse(x: Block)
    ensures IsIndexMap(HInverse())
    ensures Permute(PermuteTweak(x), HInverse()) == x
    ensures PermuteTweak(Permute(x, HInverse())) == x
  {
    HIsPermutation();
  }

  /** H applied k times. */
  function PermutePow(x: Block, k: nat): Block
  {
    if k == 0 then x else PermuteTweak(PermutePow(x, k - 1))
  }

  /** Permuting distributes over XOR. */
  lemma PermuteXor(a: Block, b: Block, p: seq<nat>)
    requires IsIndexMap(p)
    ensures Permute(Xor(a, b), p) == Xor(Permute(a, p), Permute(b, p))
  {
  }

  lemma {:induction false} PermutePowXor(a: Block, b: Block, k: nat)
    ensures PermutePow(Xor(a, b), k) == Xor(PermutePow(a, k), PermutePow(b, k))
  {
    if k > 0 {
      PermutePowXor(a, b, k - 1);
      HIndexMap();
      PermuteXor(PermutePow(a, k - 1), PermutePow(b, k - 1), HPermutation());
    }
  }

  // ---------------------------------------------------------------
  // The byte LFSRs
  // ---------------------------------------------------------------

  /** lfsr_two_byte: shift left, feed bit 7 XOR bit 5 into bit 0. */
  function Lfsr2Byte(b: Byte): Byte
  {
    ((b << 1) & 0xFE) | (((b >> 7) ^ (b >> 5)) & 0x01)
  }

  /** lfsr_three_byte: shift right, feed bit 0 XOR bit 6 into bit 7. */
  function Lfsr3Byte(b: Byte): Byte
  {
    ((b >> 1) & 0x7F) | (((b << 7) ^ (b << 1)) & 0x80)
  }

  /** The two LFSRs are inverse to each other on every byte. */
  lemma LfsrByteInverse(b: Byte)
    ensures Lfsr3Byte(Lfsr2Byte(b)) == b
    ensures Lfsr2Byte(Lfsr3Byte(b)) == b
  {
  }

  lemma Lfsr2ByteXor(a: Byte, b: Byte)
    ensures Lfsr2Byte(a ^ b) == Lfsr2Byte(a) ^ Lfsr2Byte(b)
  {
  }

  lemma Lfsr3ByteXor(a: Byte, b: Byte)
    ensures Lfsr3Byte(a ^ b) == Lfsr3Byte(a) ^ Lfsr3Byte(b)
  {
  }

  /** A byte function applied to each byte of a block. */
  function MapBytes(f: Byte -> Byte, x: Block): Block
  {
    seq(16, i requires 0 <= i < 16 => f(x[i]))
  }

  /** A bytewise map of a byte function that distributes over XOR distributes over XOR of blocks. */
  lemma MapBytesXor(f: Byte -> Byte, a: Block, b: Block)
    requires forall x: Byte, y: Byte :: f(x ^ y) == f(x) ^ f(y)
    ensures MapBytes(f, Xor(a, b)) == Xor(MapBytes(f, a), MapBytes(f, b))
  {
  }

  /** lfsr_two on a block: byte by byte. */
  function Lfsr2(x: Block): Block
  {
    MapBytes(Lfsr2Byte, x)
  }

  /** lfsr_three on a block: byte by byte. */
  function Lfsr3(x: Block): Block
  {
    MapBytes(Lfsr3Byte, x)
  }

  lemma LfsrInverse(x: Block)
    ensures Lfsr3(Lfsr2(x)) == x
    ensures Lfsr2(Lfsr3(x)) == x
  {
    forall i | 0 <= i < 16
      ensures Lfsr3(Lfsr2(x))[i] == x[i] && Lfsr2(Lfsr3(x))[i] == x[i]
    {
      LfsrByteInverse(x[i]);
    }
  }

  /** Being bytewise, the LFSRs commute with every byte permutation. */
  lemma LfsrPermute(x: Block, p: seq<nat>)
    requires IsIndexMap(p)
    ensures Lfsr2(Permute(x, p)) == Permute(Lfsr2(x), p)
    ensures Lfsr3(Permute(x, p)) == Permute(Lfsr3(x), p)
  {
  }

  /** Being bytewise and linear on bytes, the LFSRs distribute over XOR. */
  lemma Lfsr2Xor(a: Block, b: Block)
    ensures Lfsr2(Xor(a, b)) == Xor(Lfsr2(a), Lfsr2(b))
  {
    forall x: Byte, y: Byte
      ensures Lfsr2Byte(x ^ y) == Lfsr2Byte(x) ^ Lfsr2Byte(y)
    {
      Lfsr2ByteXor(x, y);
    }
    MapBytesXor(Lfsr2Byte, a, b);
  }

  lemma Lfsr3Xor(a: Block, b: Block)
    ensures Lfsr3(Xor(a, b)) == Xor(Lfsr3(a), Lfsr3(b))
  {
    forall x: Byte, y: Byte
      ensures Lfsr3Byte(x ^ y) == Lfsr3Byte(x) ^ Lfsr3Byte(y)
    {
      Lfsr3ByteXor(x, y);
    }
    MapBytesXor(Lfsr3Byte, a, b);
  }

  // ---------------------------------------------------------------
  // Round constants
  // ---------------------------------------------------------------

  function Rcon(): (r: seq<Byte>)
    ensures |r| == 17
  {
    [0x2f, 0x5e, 0xbc, 0x63, 0xc6, 0x97, 0x35, 0x6a,
     0xd4, 0xb3, 0x7d, 0xfa, 0xef, 0xc5, 0x91, 0x39,
     0x72]
  }

  /** The constant XORed into round key i: 1, 2, 4, 8, then RCON[i] four times, then zeros. */
  function RoundConstant(i: nat): Block
    requires i < 17
  {
    var c := Rcon()[i];
    [1, 2, 4, 8, c, c, c, c, 0, 0, 0, 0, 0, 0, 0, 0]
  }

  /**
   * add_round_constants(subkeys, num_rounds): round keys 0 .. num_rounds
   * get their constant; bytes 8..15 and any later key stay as they were.
   */
  method AddRoundConstants(keys: seq<Block>, numRounds: nat) returns (r: seq<Block>)
    requires numRounds < |keys| && numRounds <= 16
    ensures |r| == |keys|
    ensures forall i | 0 <= i <= numRounds :: r[i] == Xor(keys[i], RoundConstant(i))
    ensures forall i | 0 <= i <= numRounds :: r[i][8..] == keys[i][8..]
    ensures forall i | numRounds < i < |keys| :: r[i] == keys[i]
  {
    r := keys;
    var i := 0;
    while i <= numRounds
      invariant 0 <= i <= numRounds + 1 && |r| == |keys|
      invariant forall j | 0 <= j < i :: r[j] == Xor(keys[j], RoundConstant(j))
      invariant forall j | i <= j < |keys| :: r[j] == keys[j]
    {
      r := r[i := Xor(r[i], RoundConstant(i))];
      i := i + 1;
    }
    forall i | 0 <= i <= numRounds
      ensures r[i][8..] == keys[i][8..]
    {
      assert forall k | 8 <= k < 16 :: RoundConstant(i)[k] == 0;
    }
  }

  // ---------------------------------------------------------------
  // Tweakey schedules
  // ---------------------------------------------------------------

  datatype Variant = Deoxys128x128 | Deoxys128x256 | Deoxys128x384

  /** DEOXYS_BC_128_*_NUM_ROUNDS. */
  function NumRounds(v: Variant): nat
  {
    match v
    case Deoxys128x128 => 12
    case Deoxys128x256 => 14
    case Deoxys128x384 => 16
  }

  /** The tweak length in bytes: none, DEOXYS_BC_128_256_TWEAK_LEN, DEOXYS_BC_128_384_TWEAK_LEN. */
  function TweakLen(v: Variant): nat
  {
    match v
    case Deoxys128x128 => 0
    case Deoxys128x256 => 16
    case Deoxys128x384 => 32
  }

  /** One step of the key part of the schedule: H alone, H after LFSR2, H after LFSR3. */
  function KeyStep(v: Variant, x: Block): Block
  {
    match v
    case Deoxys128x128 => PermuteTweak(x)
    case Deoxys128x256 => PermuteTweak(Lfsr2(x))
    case Deoxys128x384 => PermuteTweak(Lfsr3(x))
  }

  /** The key part of round key i, before the round constant. */
  function KeyTk(v: Variant, key: Block, i: nat): Block
  {
    if i == 0 then key else KeyStep(v, KeyTk(v, key, i - 1))
  }

  /** TK2 of round i: TK2_0 is the second tweak half, TK2_i = LFSR2(H(TK2_(i-1))). */
  function Tk2(t: Block, i: nat): Block
  {
    if i == 0 then t else Lfsr2(PermuteTweak(Tk2(t, i - 1)))
  }

  /** The round tweakey i of each variant, written as one closed expression. */
  function RoundTweakey(v: Variant, key: Block, tweak: seq<Byte>, i: nat): Block
    requires |tweak| == TweakLen(v) && i <= NumRounds(v)
  {
    var base := Xor(KeyTk(v, key, i), RoundConstant(i));
    match v
    case Deoxys128x128 => base
    case Deoxys128x256 => Xor(base, PermutePow(tweak, i))
    case Deoxys128x384 => Xor(Xor(base, PermutePow(tweak[..16], i)), Tk2(tweak[16..], i))
  }

  function RoundTweakeys(v: Variant, key: Block, tweak: seq<Byte>): (r: seq<Block>)
    requires |tweak| == TweakLen(v)
    ensures |r| == NumRounds(v) + 1
  {
    seq(NumRounds(v) + 1, i requires 0 <= i <= NumRounds(v) => RoundTweakey(v, key, tweak, i))
  }

  /** The key chain of setup_key: subkeys[0] = key, subkeys[i+1] = KeyStep(subkeys[i]). */
  method ExpandKey(v: Variant, key: Block) returns (subkeys: seq<Block>)
    ensures |subkeys| == NumRounds(v) + 1
    ensures forall j | 0 <= j < |subkeys| :: subkeys[j] == KeyTk(v, key, j)
  {
    subkeys := [key];
    var i := 0;
    while i < NumRounds(v)
      invariant 0 <= i <= NumRounds(v) && |subkeys| == i + 1
      invariant forall j | 0 <= j <= i :: subkeys[j] == KeyTk(v, key, j)
    {
      subkeys := subkeys + [KeyStep(v, subkeys[i])];
      i := i + 1;
    }
  }

  /** x after k applications of step. */
  function Iterate(step: Block -> Block, x: Block, k: nat): Block
  {
    if k == 0 then x else step(Iterate(step, x, k - 1))
  }

  lemma {:induction false} PermutePowIsIterate(x: Block, k: nat)
    ensures PermutePow(x, k) == Iterate(PermuteTweak, x, k)
  {
    if k > 0 {
      PermutePowIsIterate(x, k - 1);
    }
  }

  /**
   * The shape of the 128-256 tweak loop: XOR the running tweak into key
   * i, then advance the tweak by one step.
   */
  method XorChain(keys: seq<Block>, start: Block, step: Block -> Block) returns (subkeys: seq<Block>)
    ensures |subkeys| == |keys|
    ensures forall j | 0 <= j < |keys| :: subkeys[j] == Xor(keys[j], Iterate(step, start, j))
  {
    subkeys := keys;
    var subtweak := start;
    var i := 0;
    while i < |keys|
      invariant 0 <= i <= |keys| && |subkeys| == |keys|
      invariant subtweak == Iterate(step, start, i)
      invariant forall j | 0 <= j < i :: subkeys[j] == Xor(keys[j], Iterate(step, start, j))
      invariant forall j | i <= j < |keys| :: subkeys[j] == keys[j]
    {
      subkeys := subkeys[i := Xor(subkeys[i], subtweak)];
      subtweak := step(subtweak);
      i := i + 1;
    }
  }

  /** The 128-256 tweak loop: round key i gets H^i(tweak). */
  method XorTweak256(keys: seq<Block>, tweak: Block) returns (subkeys: seq<Block>)
    ensures |subkeys| == |keys|
    ensures forall j | 0 <= j < |keys| :: subkeys[j] == Xor(keys[j], PermutePow(tweak, j))
  {
    subkeys := XorChain(keys, tweak, PermuteTweak);
    forall j | 0 <= j < |keys|
      ensures subkeys[j] == Xor(keys[j], PermutePow(tweak, j))
    {
      PermutePowIsIterate(tweak, j);
    }
  }

  /** The 128-384 tweak loop: round key i gets H^i(TK1) and TK2_i. */
  method XorTweak384(keys: seq<Block>, tk1: Block, tk2: Block) returns (subkeys: seq<Block>)
    requires |keys| >= 1
    ensures |subkeys| == |keys|
    ensures forall j | 0 <= j < |keys| :: subkeys[j] == Xor(Xor(keys[j], PermutePow(tk1, j)), Tk2(tk2, j))
  {
    var subtweak1 := tk1;
    var subtweak2 := tk2;
    subkeys := keys[0 := Xor(Xor(keys[0], subtweak1), subtweak2)];
    var i := 1;
    while i < |keys|
      invariant 1 <= i <= |keys| && |subkeys| == |keys|
      invariant subtweak1 == PermutePow(tk1, i - 1) && subtweak2 == Tk2(tk2, i - 1)
      invariant forall j | 0 <= j < i :: subkeys[j] == Xor(Xor(keys[j], PermutePow(tk1, j)), Tk2(tk2, j))
      invariant forall j | i <= j < |keys| :: subkeys[j] == keys[j]
    {
      subtweak1 := PermuteTweak(subtweak1);
      subtweak2 := PermuteTweak(subtweak2);
      subtweak2 := Lfsr2(subtweak2);
      subkeys := subkeys[i := Xor(Xor(subkeys[i], subtweak1), subtweak2)];
      i := i + 1;
    }
  }

  /**
   * deoxys_bc_128_*_setup_key, the encryption half: the key chain, the
   * round constants, then the tweak schedule XORed in, loop by loop as
   * the C code does it.  The result is the closed schedule above.
   */
  method SetupKey(v: Variant, key: Block, tweak: seq<Byte>) returns (subkeys: seq<Block>)
    requires |tweak| == TweakLen(v)
    ensures subkeys == RoundTweakeys(v, key, tweak)
  {
    var chain := ExpandKey(v, key);
    var based := AddRoundConstants(chain, NumRounds(v));
    if v == Deoxys128x128 {
      subkeys := based;
    } else if v == Deoxys128x256 {
      subkeys := XorTweak256(based, tweak);
    } else {
      subkeys := XorTweak384(based, tweak[..16], tweak[16..]);
    }
    forall j | 0 <= j <= NumRounds(v)
      ensures subkeys[j] == RoundTweakeys(v, key, tweak)[j]
    {
    }
  }

  // ---------------------------------------------------------------
  // Abstract AES rounds
  // ---------------------------------------------------------------

  /** The AES round transformations of FIPS 197 section 5, as uninterpreted maps on blocks. */
  datatype Aes = Aes(
    subBytes: Block -> Block, invSubBytes: Block -> Block,
    shiftRows: Block -> Block, invShiftRows: Block -> Block,
    mixColumns: Block -> Block, invMixColumns: Block -> Block)

  /**
   * The facts about AES the cipher relies on: each inverse transformation
   * undoes its forward one (FIPS 197 sections 5.3.1 to 5.3.3), and
   * InvMixColumns is linear over XOR, the fact behind the equivalent
   * inverse cipher of FIPS 197 section 5.3.5.
   */
  ghost predicate Inverses(a: Aes)
  {
    && (forall x: Block :: a.invSubBytes(a.subBytes(x)) == x)
    && (forall x: Block :: a.invShiftRows(a.shiftRows(x)) == x)
    && (forall x: Block :: a.invMixColumns(a.mixColumns(x)) == x)
    && (forall x: Block :: a.mixColumns(a.invMixColumns(x)) == x)
    && (forall x: Block, y: Block :: a.invMixColumns(Xor(x, y)) == Xor(a.invMixColumns(x), a.invMixColumns(y)))
  }

  /** aes_encrypt_round (AESENC): SubBytes, ShiftRows, MixColumns, AddRoundKey. */
  function EncRound(a: Aes, s: Block, k: Block): Block
  {
    Xor(a.mixColumns(a.shiftRows(a.subBytes(s))), k)
  }

  /** aes_decrypt_round (AESDEC): InvShiftRows, InvSubBytes, InvMixColumns, AddRoundKey. */
  function DecRound(a: Aes, s: Block, k: Block): Block
  {
    Xor(a.invMixColumns(a.invSubBytes(a.invShiftRows(s))), k)
  }

  /** The state after the whitening and rounds 1 .. i of encryption. */
  function EncState(a: Aes, keys: seq<Block>, p: Block, i: nat): Block
    requires i < |keys|
  {
    if i == 0 then Xor(p, keys[0]) else EncRound(a, EncState(a, keys, p, i - 1), keys[i])
  }

  /** deoxys_bc_128_*_encrypt after setup: whitening with key 0, then one AES round per key. */
  function Cipher(a: Aes, keys: seq<Block>, p: Block): Block
    requires |keys| >= 1
  {
    EncState(a, keys, p, |keys| - 1)
  }

  /**
   * setup_decryption_key: the keys stay in their order (the comment in
   * the C code says "invert the order", the loop copies); every key but
   * the last gets InvMixColumns.
   */
  function DecryptionKeys(a: Aes, keys: seq<Block>): (r: seq<Block>)
    ensures |r| == |keys|
  {
    seq(|keys|, i requires 0 <= i < |keys| => DecryptionKey(a, keys, i))
  }

  function DecryptionKey(a: Aes, keys: seq<Block>, i: nat): Block
    requires i < |keys|
  {
    if i < |keys| - 1 then a.invMixColumns(keys[i]) else keys[i]
  }

  /** Decryption rounds i, i-1, .., 0 on the state u. */
  function DecFrom(a: Aes, dk: seq<Block>, u: Block, i: nat): Block
    requires i < |dk|
    decreases i
  {
    var s := DecRound(a, u, dk[i]);
    if i == 0 then s else DecFrom(a, dk, s, i - 1)
  }

  /**
   * deoxys_bc_128_*_decrypt after setup: XOR the last key, InvMixColumns,
   * decryption rounds from the second-to-last key down to key 0, and a
   * final MixColumns.
   */
  function InvCipher(a: Aes, dk: seq<Block>, c: Block): Block
    requires |dk| >= 2
  {
    var n := |dk| - 1;
    a.mixColumns(DecFrom(a, dk, a.invMixColumns(Xor(c, dk[n])), n - 1))
  }

  /** One decryption round undoes one encryption round up to the InvMixColumns the keys carry. */
  lemma DecRoundOfEncRound(a: Aes, s: Block, k: Block)
    requires Inverses(a)
    ensures DecRound(a, a.shiftRows(a.subBytes(s)), a.invMixColumns(k)) == a.invMixColumns(Xor(s, k))
  {
  }

  /** Rounds i .. 0 of decryption undo whitening and rounds 1 .. i of encryption. */
  lemma {:induction false} DecFromEncState(a: Aes, keys: seq<Block>, p: Block, i: nat)
    requires Inverses(a) && |keys| >= 2 && i < |keys| - 1
    ensures DecFrom(a, DecryptionKeys(a, keys), a.shiftRows(a.subBytes(EncState(a, keys, p, i))), i)
         == a.invMixColumns(p)
  {
    var dk := DecryptionKeys(a, keys);
    var s := EncState(a, keys, p, i);
    DecRoundOfEncRound(a, s, keys[i]);
    if i == 0 {
      XorCancel(p, keys[0]);
    } else {
      var prev := EncState(a, keys, p, i - 1);
      XorCancel(a.mixColumns(a.shiftRows(a.subBytes(prev))), keys[i]);
      DecFromEncState(a, keys, p, i - 1);
    }
  }

  /** Decryption with the derived keys inverts encryption, for any number of rounds. */
  lemma CipherRoundTrip(a: Aes, keys: seq<Block>, p: Block)
    requires Inverses(a) && |keys| >= 2
    ensures InvCipher(a, DecryptionKeys(a, keys), Cipher(a, keys, p)) == p
  {
    var n := |keys| - 1;
    var prev := EncState(a, keys, p, n - 1);
    XorCancel(a.mixColumns(a.shiftRows(a.subBytes(prev))), keys[n]);
    DecFromEncState(a, keys, p, n - 1);
  }

  /** deoxys_bc_128_*_encrypt(ctx, key, [tweak,] plaintext, ciphertext). */
  function Encrypt(a: Aes, v: Variant, key: Block, tweak: seq<Byte>, p: Block): Block
    requires |tweak| == TweakLen(v)
  {
    Cipher(a, RoundTweakeys(v, key, tweak), p)
  }

  /** deoxys_bc_128_*_decrypt(ctx, key, [tweak,] ciphertext, plaintext). */
  function Decrypt(a: Aes, v: Variant, key: Block, tweak: seq<Byte>, c: Block): Block
    requires |tweak| == TweakLen(v)
  {
    InvCipher(a, DecryptionKeys(a, RoundTweakeys(v, key, tweak)), c)
  }

  /** Every variant decrypts what it encrypts under the same key and tweak. */
  lemma EncryptDecrypt(a: Aes, v: Variant, key: Block, tweak: seq<Byte>, p: Block)
    requires Inverses(a) && |tweak| == TweakLen(v)
    ensures Decrypt(a, v, key, tweak, Encrypt(a, v, key, tweak, p)) == p
  {
    CipherRoundTrip(a, RoundTweakeys(v, key, tweak), p);
  }
}
