/**
 * Byte utilities shared by the reference and the optimised build
 * (shared/utils.c): little- and big-endian word encoders, bytewise logic,
 * the OR-accumulating compare, zeroisation and byte reversal.
 *
 * Every C routine that writes into a `target` buffer is modelled as a
 * function or method that takes the old contents of the target and returns
 * the new contents, so "nothing else changes" is a statement about the
 * returned sequence.
 */
module Bytes {

  type Byte = bv8
  type Word = bv64

  /** A 16-byte AES/Deoxys block. */
  type Block = s: seq<Byte> | |s| == 16 witness seq(16, _ => 0)

  function Zeros(n: nat): (r: seq<Byte>)
    ensures |r| == n
    ensures forall i | 0 <= i < n :: r[i] == 0
  {
    seq(n, _ => 0)
  }

  // ---------------------------------------------------------------
  // Little- and big-endian encoding of one 64-bit word
  // ---------------------------------------------------------------

  /** Byte k of `v` counted from the least significant end. */
  function ByteOf(v: Word, k: nat): Byte
    requires k < 8
  {
    if k == 0 then (v & 0xFF) as Byte
    else if k == 1 then ((v >> 8) & 0xFF) as Byte
    else if k == 2 then ((v >> 16) & 0xFF) as Byte
    else if k == 3 then ((v >> 24) & 0xFF) as Byte
    else if k == 4 then ((v >> 32) & 0xFF) as Byte
    else if k == 5 then ((v >> 40) & 0xFF) as Byte
    else if k == 6 then ((v >> 48) & 0xFF) as Byte
    else ((v >> 56) & 0xFF) as Byte
  }

  /** Little-endian layout: byte i holds bits 8i .. 8i+7 of `v`. */
  function ToLe(v: Word): (r: seq<Byte>)
    ensures |r| == 8
  {
    seq(8, i requires 0 <= i < 8 => ByteOf(v, i))
  }

  /** Big-endian layout of to_be_array: byte i holds `v >> (56 - 8i)`. */
  function ToBe(v: Word): (r: seq<Byte>)
    ensures |r| == 8
  {
    seq(8, i requires 0 <= i < 8 => ByteOf(v, 7 - i))
  }

  /** Reads eight bytes back as a little-endian word. */
  function FromLe(s: seq<Byte>): Word
    requires |s| == 8
  {
    (s[0] as Word) | (s[1] as Word << 8) | (s[2] as Word << 16)
    | (s[3] as Word << 24) | (s[4] as Word << 32) | (s[5] as Word << 40)
    | (s[6] as Word << 48) | (s[7] as Word << 56)
  }

  function Reverse<T>(s: seq<T>): (r: seq<T>)
    ensures |r| == |s|
    ensures forall i | 0 <= i < |s| :: r[i] == s[|s| - 1 - i]
  {
    seq(|s|, i requires 0 <= i < |s| => s[|s| - 1 - i])
  }

  /** The little-endian encoding is a bijection between words and 8-byte strings. */
  lemma LeRoundTrip(v: Word, s: seq<Byte>)
    requires |s| == 8
    ensures FromLe(ToLe(v)) == v
    ensures ToLe(FromLe(s)) == s
    ensures FromLe(s) == v <==> ToLe(v) == s
  {
  }

  /** The big-endian encoding is the little-endian one read backwards. */
  lemma BeIsReversedLe(v: Word)
    ensures ToBe(v) == Reverse(ToLe(v))
  {
  }

  /**
   * to_le_array shifts the word right by eight after each byte: that
   * drops the low byte of the encoding and brings in a zero.
   */
  lemma ShiftLe(v: Word)
    ensures ToLe(v >> 8) == ToLe(v)[1..] + [0]
  {
  }

  /**
   * to_le_array: writes the low byte of a running copy of the word and
   * shifts the copy right by eight, eight times.  The running copy always
   * encodes the bytes still to be written followed by zeros.
   */
  method ToLeArray(target: seq<Byte>, source: Word) returns (r: seq<Byte>)
    requires 8 <= |target|
    ensures |r| == |target|
    ensures r[..8] == ToLe(source)
    ensures r[8..] == target[8..]
  {
    r := target;
    var v := source;
    var i := 0;
    while i < 8
      invariant 0 <= i <= 8
      invariant |r| == |target|
      invariant ToLe(v) == ToLe(source)[i..] + Zeros(i)
      invariant r[..i] == ToLe(source)[..i]
      invariant r[i..] == target[i..]
    {
      ShiftStep(v, ToLe(source), i);
      r := r[..i] + [ByteOf(v, 0)] + r[i + 1..];
      v := v >> 8;
      i := i + 1;
    }
  }

  /** One step of to_le_array: the low byte is the next one to write, and the shifted copy keeps the invariant. */
  lemma ShiftStep(v: Word, s: seq<Byte>, i: nat)
    requires |s| == 8 && i < 8
    requires ToLe(v) == s[i..] + Zeros(i)
    ensures ByteOf(v, 0) == s[i]
    ensures ToLe(v >> 8) == s[i + 1..] + Zeros(i + 1)
  {
    ShiftLe(v);
    assert ToLe(v)[0] == s[i];
    assert ToLe(v)[1..] + [0] == s[i + 1..] + Zeros(i + 1);
  }

  // ---------------------------------------------------------------
  // Arrays of words
  // ---------------------------------------------------------------

  /** Byte i of the concatenated encodings of `words`. */
  function StreamByte(words: seq<Word>, i: nat, bigEndian: bool): Byte
    requires i < 8 * |words|
  {
    (if bigEndian then ToBe(words[i / 8]) else ToLe(words[i / 8]))[i % 8]
  }

  /** The stream byte is the matching byte of the word's own encoding. */
  lemma StreamByteOfWord(words: seq<Word>, k: nat, j: nat, bigEndian: bool)
    requires k < |words| && j < 8
    ensures StreamByte(words, 8 * k + j, bigEndian)
      == (if bigEndian then ToBe(words[k]) else ToLe(words[k]))[j]
  {
    assert (8 * k + j) / 8 == k && (8 * k + j) % 8 == j;
  }

  /**
   * many_to_le_array / many_to_be_array: word k is encoded into bytes
   * 8k .. 8k+7 (byte by byte, as to_le_array / to_be_array do); bytes from
   * 8*numWords on are untouched.
   */
  method ManyToArray(target: seq<Byte>, source: seq<Word>, numWords: nat, bigEndian: bool)
    returns (r: seq<Byte>)
    requires numWords <= |source| && 8 * numWords <= |target|
    ensures |r| == |target|
    ensures forall i | 0 <= i < 8 * numWords :: r[i] == StreamByte(source, i, bigEndian)
    ensures r[8 * numWords..] == target[8 * numWords..]
  {
    r := target;
    var k := 0;
    while k < numWords
      invariant 0 <= k <= numWords
      invariant |r| == |target|
      invariant forall i | 0 <= i < 8 * k :: r[i] == StreamByte(source, i, bigEndian)
      invariant r[8 * k..] == target[8 * k..]
    {
      var word := if bigEndian then ToBe(source[k]) else ToLe(source[k]);
      var j := 0;
      while j < 8
        invariant 0 <= j <= 8
        invariant |r| == |target|
        invariant forall i | 0 <= i < 8 * k + j :: r[i] == StreamByte(source, i, bigEndian)
        invariant r[8 * k + j..] == target[8 * k + j..]
      {
        StreamByteOfWord(source, k, j, bigEndian);
        r := r[8 * k + j := word[j]];
        j := j + 1;
      }
      k := k + 1;
    }
  }

  /**
   * to_array_partial: the first `numBytes` bytes of the big-endian stream
   * of `source`.  The word after the full ones is read only when a
   * remainder exists, which is exactly what the precondition asks for.
   */
  method ToArrayPartial(target: seq<Byte>, source: seq<Word>, numBytes: nat)
    returns (r: seq<Byte>)
    requires numBytes <= |target|
    requires numBytes / 8 + (if numBytes % 8 == 0 then 0 else 1) <= |source|
    ensures |r| == |target|
    ensures forall i | 0 <= i < numBytes :: r[i] == StreamByte(source, i, true)
    ensures r[numBytes..] == target[numBytes..]
  {
    var numFullWords := numBytes / 8;
    r := ManyToArray(target, source, numFullWords, true);
    var numRemaining := numBytes % 8;
    var start := numFullWords * 8;
    var j := 0;
    while j < numRemaining
      invariant 0 <= j <= numRemaining
      invariant |r| == |target|
      invariant forall i | 0 <= i < start + j :: r[i] == StreamByte(source, i, true)
      invariant r[start + j..] == target[start + j..]
    {
      StreamByteOfWord(source, numFullWords, j, true);
      r := r[start + j := ToBe(source[numFullWords])[j]];
      j := j + 1;
    }
  }

  // ---------------------------------------------------------------
  // Bytewise logic, zeroisation, compare
  // ---------------------------------------------------------------

  function Xor(a: seq<Byte>, b: seq<Byte>): (r: seq<Byte>)
    requires |a| == |b|
    ensures |r| == |a|
    ensures forall i | 0 <= i < |a| :: r[i] == a[i] ^ b[i]
  {
    seq(|a|, i requires 0 <= i < |a| => a[i] ^ b[i])
  }

  /** The little-endian encoding turns XOR of words into bytewise XOR. */
  lemma ToLeXor(a: Word, b: Word)
    ensures ToLe(a ^ b) == Xor(ToLe(a), ToLe(b))
  {
    forall k | 0 <= k < 8
      ensures ToLe(a ^ b)[k] == Xor(ToLe(a), ToLe(b))[k]
    {
      ByteOfXor(a, b, k);
    }
  }

  /**
   * Byte k of a XOR is the XOR of the bytes.  Each index is its own lemma:
   * one bit-vector fact per proof keeps every proof small.
   */
  lemma ByteOfXor(a: Word, b: Word, k: nat)
    requires k < 8
    ensures ByteOf(a ^ b, k) == ByteOf(a, k) ^ ByteOf(b, k)
  {
    if k == 0 { ByteOfXor0(a, b); }
    else if k == 1 { ByteOfXor1(a, b); }
    else if k == 2 { ByteOfXor2(a, b); }
    else if k == 3 { ByteOfXor3(a, b); }
    else if k == 4 { ByteOfXor4(a, b); }
    else if k == 5 { ByteOfXor5(a, b); }
    else if k == 6 { ByteOfXor6(a, b); }
    else { ByteOfXor7(a, b); }
  }

  lemma ByteOfXor0(a: Word, b: Word)
    ensures ByteOf(a ^ b, 0) == ByteOf(a, 0) ^ ByteOf(b, 0)
  {
  }

  lemma ByteOfXor1(a: Word, b: Word)
    ensures ByteOf(a ^ b, 1) == ByteOf(a, 1) ^ ByteOf(b, 1)
  {
  }

  lemma ByteOfXor2(a: Word, b: Word)
    ensures ByteOf(a ^ b, 2) == ByteOf(a, 2) ^ ByteOf(b, 2)
  {
  }

  lemma ByteOfXor3(a: Word, b: Word)
    ensures ByteOf(a ^ b, 3) == ByteOf(a, 3) ^ ByteOf(b, 3)
  {
  }

  lemma ByteOfXor4(a: Word, b: Word)
    ensures ByteOf(a ^ b, 4) == ByteOf(a, 4) ^ ByteOf(b, 4)
  {
  }

  lemma ByteOfXor5(a: Word, b: Word)
    ensures ByteOf(a ^ b, 5) == ByteOf(a, 5) ^ ByteOf(b, 5)
  {
  }

  lemma ByteOfXor6(a: Word, b: Word)
    ensures ByteOf(a ^ b, 6) == ByteOf(a, 6) ^ ByteOf(b, 6)
  {
  }

  lemma ByteOfXor7(a: Word, b: Word)
    ensures ByteOf(a ^ b, 7) == ByteOf(a, 7) ^ ByteOf(b, 7)
  {
  }

  /** XOR of concatenations of equal-length parts splits into the parts. */
  lemma XorConcat(a: seq<Byte>, b: seq<Byte>, c: seq<Byte>, d: seq<Byte>)
    requires |a| == |c| && |b| == |d|
    ensures Xor(a + b, c + d) == Xor(a, c) + Xor(b, d)
  {
  }

  /** XOR with the same mask twice is the identity; XOR commutes. */
  lemma XorCancel(a: seq<Byte>, b: seq<Byte>)
    requires |a| == |b|
    ensures Xor(Xor(a, b), b) == a
    ensures Xor(a, b) == Xor(b, a)
    ensures Xor(a, a) == Zeros(|a|)
  {
  }

  lemma XorAssoc(a: seq<Byte>, b: seq<Byte>, c: seq<Byte>)
    requires |a| == |b| == |c|
    ensures Xor(Xor(a, b), c) == Xor(a, Xor(b, c))
  {
  }

  /** Bytewise combination of the first n bytes of `a` and `b`. */
  function Zip(op: (Byte, Byte) -> Byte, a: seq<Byte>, b: seq<Byte>): (r: seq<Byte>)
    requires |a| == |b|
    ensures |r| == |a|
  {
    seq(|a|, i requires 0 <= i < |a| => op(a[i], b[i]))
  }

  function XorOp(x: Byte, y: Byte): Byte { x ^ y }
  function AndOp(x: Byte, y: Byte): Byte { x & y }
  function OrOp(x: Byte, y: Byte): Byte { x | y }

  /**
   * vxor / vand / vor called with `out` equal to `a`: the loop reads
   * a[i] before overwriting out[i], so aliasing gives the same bytes as a
   * separate output buffer, and bytes from n on keep their value.
   */
  method BytewiseInPlace(buf: seq<Byte>, b: seq<Byte>, n: nat, op: (Byte, Byte) -> Byte)
    returns (r: seq<Byte>)
    requires n <= |buf| && n <= |b|
    ensures |r| == |buf|
    ensures r[..n] == Zip(op, buf[..n], b[..n])
    ensures r[n..] == buf[n..]
  {
    r := buf;
    var i := 0;
    while i < n
      invariant 0 <= i <= n
      invariant |r| == |buf|
      invariant forall k | 0 <= k < i :: r[k] == op(buf[k], b[k])
      invariant r[i..] == buf[i..]
    {
      r := r[i := op(r[i], b[i])];
      i := i + 1;
    }
  }

  lemma ZipXorIsXor(a: seq<Byte>, b: seq<Byte>)
    requires |a| == |b|
    ensures Zip(XorOp, a, b) == Xor(a, b)
  {
    forall i | 0 <= i < |a|
      ensures Zip(XorOp, a, b)[i] == Xor(a, b)[i]
    {
      assert XorOp(a[i], b[i]) == a[i] ^ b[i];
    }
  }

  /** zeroize: the first n bytes become 0, the rest keep their value. */
  function Zeroize(x: seq<Byte>, n: nat): (r: seq<Byte>)
    requires n <= |x|
    ensures |r| == |x|
    ensures forall i | 0 <= i < |x| :: r[i] == if i < n then 0 else x[i]
  {
    Zeros(n) + x[n..]
  }

  /**
   * compare: ORs together the XORs of the first n byte pairs, so the
   * result is 0 exactly when the two ranges are equal.
   */
  method Compare(a: seq<Byte>, b: seq<Byte>, n: nat) returns (result: Byte)
    requires n <= |a| && n <= |b|
    ensures result == 0 <==> a[..n] == b[..n]
  {
    result := 0;
    var i := 0;
    while i < n
      invariant 0 <= i <= n
      invariant result == 0 <==> a[..i] == b[..i]
    {
      assert a[..i + 1] == a[..i] + [a[i]] && b[..i + 1] == b[..i] + [b[i]];
      result := result | (a[i] ^ b[i]);
      i := i + 1;
    }
    assert a[..n] == a[..i] && b[..n] == b[..i];
  }

  // ---------------------------------------------------------------
  // revert_bytes
  // ---------------------------------------------------------------

  /**
   * After the first i steps of revert_bytes, position k has been swapped
   * with its mirror n-1-k exactly once: by the step at k or by the step at
   * n-1-k, but not yet by both.
   */
  predicate SwappedOnce(k: int, i: int, n: int)
  {
    (k < i && i <= n - 1 - k) || (n - 1 - k < i && i <= k)
  }

  /**
   * revert_bytes as written: the loop runs over every index and swaps
   * positions i and n-1-i, so every pair is swapped twice and the array
   * ends as it started.
   */
  method RevertBytes<T>(a: seq<T>) returns (r: seq<T>)
    ensures r == a
  {
    var n := |a|;
    r := a;
    var i := 0;
    while i < n
      invariant 0 <= i <= n
      invariant |r| == n
      invariant forall k {:trigger r[k]} | 0 <= k < n ::
        r[k] == (if SwappedOnce(k, i, n) then a[n - 1 - k] else a[k])
    {
      var j := n - 1 - i;
      var prev := r;
      r := r[i := prev[j]][j := prev[i]];
      forall k | 0 <= k < n
        ensures r[k] == (if SwappedOnce(k, i + 1, n) then a[n - 1 - k] else a[k])
      {
        if k == j {
          assert r[k] == prev[i];
        } else if k == i {
          assert r[k] == prev[j];
        } else {
          assert r[k] == prev[k];
        }
      }
      i := i + 1;
    }
    forall k | 0 <= k < n
      ensures r[k] == a[k]
    {
      assert !SwappedOnce(k, i, n);
    }
  }

  /**
   * RevertBytes leaves every input as it was, which is a reversal only for
   * palindromes: any input whose first and last bytes differ shows the gap.
   */
  lemma RevertBytesIsNotReversal<T>(a: seq<T>)
    requires |a| >= 2 && a[0] != a[|a| - 1]
    ensures Reverse(a) != a
  {
    assert Reverse(a)[0] == a[|a| - 1];
  }

  /** The evidently intended reversal: swap only the first half against the second. */
  method RevertBytesCorrected<T>(a: seq<T>) returns (r: seq<T>)
    ensures r == Reverse(a)
  {
    var n := |a|;
    r := a;
    var i := 0;
    while i < n / 2
      invariant 0 <= i <= n / 2
      invariant |r| == n
      invariant forall k {:trigger r[k]} | 0 <= k < n ::
        r[k] == (if SwappedOnce(k, i, n) then a[n - 1 - k] else a[k])
    {
      var j := n - 1 - i;
      var prev := r;
      r := r[i := prev[j]][j := prev[i]];
      forall k | 0 <= k < n
        ensures r[k] == (if SwappedOnce(k, i + 1, n) then a[n - 1 - k] else a[k])
      {
        if k == j {
          assert r[k] == prev[i];
        } else if k == i {
          assert r[k] == prev[j];
        } else {
          assert r[k] == prev[k];
        }
      }
      i := i + 1;
    }
    forall k | 0 <= k < n
      ensures r[k] == Reverse(a)[k]
    {
      if k != n - 1 - k {
        assert SwappedOnce(k, i, n);
      }
    }
  }

  lemma ReverseInvolutive<T>(s: seq<T>)
    ensures Reverse(Reverse(s)) == s
  {
  }
}
