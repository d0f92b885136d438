/**
 * The hex helpers the test drivers use to turn test-vector fields into
 * bytes (shared/json_parser.cpp): to_byte_array cuts a hex string into
 * pairs of characters and runs C's strtol in base 16 on each, to_uint8_t
 * takes the first byte of the result and to_uint64_t reads eight of them
 * as a big-endian word.
 *
 * Each character stands for one byte of the string, as the C++ code
 * sees it: substr counts bytes, so a string is modelled as its bytes and
 * a character outside ASCII is not modelled as several bytes.
 */
module JsonParser {
  import opened Wrappers
  import opened Bytes

  // ---------------------------------------------------------------
  // Hexadecimal digits
  // ---------------------------------------------------------------

  predicate IsHexDigit(c: char)
  {
    '0' <= c <= '9' || 'a' <= c <= 'f' || 'A' <= c <= 'F'
  }

  function DigitValue(c: char): (v: nat)
    requires IsHexDigit(c)
    ensures v < 16
  {
    if '0' <= c <= '9' then c as int - '0' as int
    else if 'a' <= c <= 'f' then c as int - 'a' as int + 10
    else c as int - 'A' as int + 10
  }

  /** The digit for a value below 16, in lower or upper case. */
  function DigitOf(v: nat, upper: bool): (c: char)
    requires v < 16
    ensures IsHexDigit(c) && DigitValue(c) == v
  {
    if v < 10 then ('0' as int + v) as char
    else if upper then ('A' as int + v - 10) as char
    else ('a' as int + v - 10) as char
  }

  /** The value of a string of hex digits, most significant first. */
  function DigitsValue(ds: seq<char>): (v: nat)
    requires forall i | 0 <= i < |ds| :: IsHexDigit(ds[i])
  {
    if |ds| == 0 then 0 else 16 * DigitsValue(ds[..|ds| - 1]) + DigitValue(ds[|ds| - 1])
  }

  /** The longest prefix of `s` made of hex digits. */
  function HexRun(s: seq<char>): (r: seq<char>)
    ensures forall i | 0 <= i < |r| :: IsHexDigit(r[i])
  {
    if |s| > 0 && IsHexDigit(s[0]) then [s[0]] + HexRun(s[1..]) else []
  }

  // ---------------------------------------------------------------
  // strtol(s, NULL, 16)
  // ---------------------------------------------------------------

  /** The characters C's isspace accepts in the "C" locale. */
  predicate IsCSpace(c: char)
  {
    c == ' ' || '\t' <= c <= '\r'
  }

  function SkipCSpaces(s: seq<char>): seq<char>
  {
    if |s| > 0 && IsCSpace(s[0]) then SkipCSpaces(s[1..]) else s
  }

  /**
   * strtol in base 16: leading white space, an optional sign, an optional
   * "0x" or "0X" that counts only when a hex digit follows it, then the
   * longest run of hex digits; no digits at all gives 0.
   */
  function StrtolHex(s: seq<char>): int
  {
    var t := SkipCSpaces(s);
    var negative := |t| > 0 && t[0] == '-';
    var u := if |t| > 0 && (t[0] == '-' || t[0] == '+') then t[1..] else t;
    var v := if |u| >= 3 && u[0] == '0' && (u[1] == 'x' || u[1] == 'X') && IsHexDigit(u[2]) then u[2..] else u;
    var n: int := DigitsValue(HexRun(v));
    if negative then -n else n
  }

  /** The (char) cast and the push into a vector of uint8_t keep the value modulo 256. */
  function PairByte(p: seq<char>): Byte
  {
    PairValue(p) as Byte
  }

  function PairValue(p: seq<char>): (v: nat)
    ensures v < 256
  {
    StrtolHex(p) % 256
  }

  // ---------------------------------------------------------------
  // to_byte_array, to_uint8_t, to_uint64_t
  // ---------------------------------------------------------------

  /**
   * to_byte_array: one byte per pair of characters (substr(i, 2)), with a
   * trailing odd character parsed alone.
   */
  function ToByteArray(h: seq<char>): (r: seq<Byte>)
    ensures |r| == (|h| + 1) / 2
  {
    if |h| == 0 then []
    else if |h| == 1 then [PairByte(h)]
    else [PairByte(h[..2])] + ToByteArray(h[2..])
  }

  /** to_uint8_t: the first byte; reading an empty vector is undefined in the source. */
  function ToUint8(bytes: seq<Byte>): (r: Option<Byte>)
    ensures r.Some? <==> |bytes| >= 1
  {
    if |bytes| >= 1 then Some(bytes[0]) else None
  }

  /** Eight bytes read as a big-endian word, byte 0 the most significant. */
  function FromBe(s: seq<Byte>): Word
    requires |s| == 8
  {
    (s[0] as Word << 56) | (s[1] as Word << 48) | (s[2] as Word << 40)
    | (s[3] as Word << 32) | (s[4] as Word << 24) | (s[5] as Word << 16)
    | (s[6] as Word << 8) | (s[7] as Word)
  }

  /** to_uint64_t: asserts that there are exactly eight bytes. */
  function ToUint64(bytes: seq<Byte>): (r: Option<Word>)
    ensures r.Some? <==> |bytes| == 8
  {
    if |bytes| == 8 then Some(FromBe(bytes)) else None
  }

  // ---------------------------------------------------------------
  // Encoding, the partner of the parser
  // ---------------------------------------------------------------

  /** Two hex digits per byte, high nibble first, as the test vectors are written. */
  function HexEncode(b: seq<Byte>, upper: bool): (h: seq<char>)
    ensures |h| == 2 * |b|
    ensures forall i | 0 <= i < |h| :: IsHexDigit(h[i])
  {
    if |b| == 0 then []
    else [DigitOf(b[0] as nat / 16, upper), DigitOf(b[0] as nat % 16, upper)] + HexEncode(b[1..], upper)
  }

  /** A pair of hex digits gives the byte they spell. */
  lemma DigitPair(a: char, c: char)
    requires IsHexDigit(a) && IsHexDigit(c)
    ensures PairValue([a, c]) == 16 * DigitValue(a) + DigitValue(c)
  {
    var p := [a, c];
    assert SkipCSpaces(p) == p;
    assert HexRun(p) == p by {
      assert HexRun(p[1..]) == [c];
    }
    assert DigitsValue(p) == 16 * DigitsValue([a]) + DigitValue(c) by {
      assert p[..1] == [a];
    }
    assert DigitsValue([a]) == DigitValue(a) by {
      assert [a][..0] == [];
    }
  }

  /** A trailing odd hex digit gives its own value. */
  lemma DigitAlone(a: char)
    requires IsHexDigit(a)
    ensures PairValue([a]) == DigitValue(a)
  {
    var p := [a];
    assert SkipCSpaces(p) == p;
    assert HexRun(p) == p by {
      assert HexRun(p[1..]) == [];
    }
    assert DigitsValue(p) == 16 * DigitsValue([]) + DigitValue(a) by {
      assert p[..0] == [];
    }
  }

  /** to_byte_array inverts the encoding, in either case. */
  lemma {:induction false} HexRoundTrip(b: seq<Byte>, upper: bool)
    ensures ToByteArray(HexEncode(b, upper)) == b
  {
    if |b| > 0 {
      var h := HexEncode(b, upper);
      var hi, lo := DigitOf(b[0] as nat / 16, upper), DigitOf(b[0] as nat % 16, upper);
      assert h[..2] == [hi, lo];
      assert h[2..] == HexEncode(b[1..], upper);
      DigitPair(hi, lo);
      ByteOfValue(b[0]);
      HexRoundTrip(b[1..], upper);
    }
  }

  lemma ByteOfValue(x: Byte)
    ensures (x as nat) as Byte == x
  {
  }

  /** Parsing works pair by pair: an even-length prefix parses on its own. */
  lemma {:induction false} ByteArrayAppend(h1: seq<char>, h2: seq<char>)
    requires |h1| % 2 == 0
    ensures ToByteArray(h1 + h2) == ToByteArray(h1) + ToByteArray(h2)
    decreases |h1|
  {
    if |h1| == 0 {
      assert h1 + h2 == h2;
    } else {
      var h := h1 + h2;
      assert h[..2] == h1[..2];
      assert h[2..] == h1[2..] + h2;
      ByteArrayAppend(h1[2..], h2);
    }
  }

  /** An odd-length string ends in a byte parsed from its last character alone. */
  lemma OddTail(h: seq<char>, a: char)
    requires |h| % 2 == 0 && IsHexDigit(a)
    ensures ToByteArray(h + [a]) == ToByteArray(h) + [DigitValue(a) as Byte]
  {
    ByteArrayAppend(h, [a]);
    DigitAlone(a);
  }

  /**
   * Pairs that are not two hex digits are not rejected: strtol stops at
   * the first character it cannot use and the cast wraps negative values.
   */
  lemma MalformedPairs()
    ensures PairValue("4g") == 0x04
    ensures PairValue("zz") == 0
    ensures PairValue("0x") == 0
  {
    assert HexRun("4g") == "4" by { assert HexRun("g") == []; }
    assert DigitsValue("4") == 4 by { assert "4"[..0] == []; }
    assert HexRun("zz") == [];
    assert HexRun("0x") == "0" by { assert HexRun("x") == []; }
    assert DigitsValue("0") == 0 by { assert "0"[..0] == []; }
  }

  /** Leading white space is skipped, and a minus sign wraps through the cast. */
  lemma SpacedAndSignedPairs()
    ensures PairValue(" f") == 0x0F
    ensures PairValue("-1") == 0xFF
  {
    assert SkipCSpaces(" f") == "f";
    assert HexRun("f") == "f" by { assert HexRun([]) == []; }
    assert DigitsValue("f") == 15 by { assert "f"[..0] == []; }
    assert SkipCSpaces("-1") == "-1";
    assert HexRun("1") == "1" by { assert HexRun([]) == []; }
    assert DigitsValue("1") == 1 by { assert "1"[..0] == []; }
  }

  /** The big-endian reading and to_be_array's writing are inverse bijections. */
  lemma BeRoundTrip(v: Word, s: seq<Byte>)
    requires |s| == 8
    ensures FromBe(ToBe(v)) == v
    ensures ToBe(FromBe(s)) == s
  {
  }

  /** tweak_counter: the hex spelling of a counter's big-endian bytes reads back as the counter. */
  lemma CounterRoundTrip(v: Word, upper: bool)
    ensures ToUint64(ToByteArray(HexEncode(ToBe(v), upper))) == Some(v)
  {
    HexRoundTrip(ToBe(v), upper);
    BeRoundTrip(v, ToBe(v));
  }

  /** tweak_domain: only the first byte counts; later bytes of the field are ignored. */
  lemma DomainRoundTrip(b: seq<Byte>, upper: bool)
    requires |b| >= 1
    ensures ToUint8(ToByteArray(HexEncode(b, upper))) == Some(b[0])
  {
    HexRoundTrip(b, upper);
  }
}
