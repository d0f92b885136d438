/**
 * The reader of the benchmark plotting script (scripts/plot.py): each
 * line of a data file is either skipped, read as an (x, y) point, or
 * makes the conversion raise, which ends the whole read.
 *
 * Python's int() and float() are parameters: any partial conversion from
 * text, None where Python raises ValueError.
 */
module Plot {
  import opened Wrappers

  const CommentChar: char := '#'

  /** The characters Python's str.isspace accepts, so the ones str.strip() removes. */
  predicate IsSpace(c: char)
  {
    var n := c as int;
    9 <= n <= 13 || 28 <= n <= 32 || n == 0x85 || n == 0xA0 || n == 0x1680
    || 0x2000 <= n <= 0x200A || n == 0x2028 || n == 0x2029 || n == 0x202F
    || n == 0x205F || n == 0x3000
  }

  predicate AllSpace(s: string)
  {
    forall i | 0 <= i < |s| :: IsSpace(s[i])
  }

  // ---------------------------------------------------------------
  // str.strip() and str.split(' ')
  // ---------------------------------------------------------------

  function StripLeft(s: string): string
  {
    if |s| > 0 && IsSpace(s[0]) then StripLeft(s[1..]) else s
  }

  function StripRight(s: string): string
  {
    if |s| > 0 && IsSpace(s[|s| - 1]) then StripRight(s[..|s| - 1]) else s
  }

  /** str.strip(): the line without white space at either end. */
  function Strip(s: string): string
  {
    StripRight(StripLeft(s))
  }

  /** Putting the pieces back together with the separator between them. */
  function JoinWith(pieces: seq<string>, sep: char): string
  {
    if |pieces| == 0 then ""
    else if |pieces| == 1 then pieces[0]
    else pieces[0] + [sep] + JoinWith(pieces[1..], sep)
  }

  /**
   * str.split(sep) with an explicit separator: every occurrence cuts, so
   * two separators in a row leave an empty piece between them.
   */
  function SplitOn(s: string, sep: char): (r: seq<string>)
    ensures |r| >= 1
  {
    if |s| == 0 then [""]
    else
      var rest := SplitOn(s[1..], sep);
      if s[0] == sep then [""] + rest else [[s[0]] + rest[0]] + rest[1..]
  }

  // ---------------------------------------------------------------
  // get_tuple and read
  // ---------------------------------------------------------------

  /** What get_tuple makes of one line. */
  datatype Outcome<X, Y> = NoPoint | Point(x: X, y: Y) | Raises

  /**
   * get_tuple: blank lines, comment lines and lines without a space after
   * stripping give (None, None); otherwise the first two pieces of the
   * split go through int() and float(), and extra pieces are ignored.
   */
  function GetTuple<X, Y>(line: string, toInt: string -> Option<X>, toFloat: string -> Option<Y>): Outcome<X, Y>
  {
    var l := Strip(line);
    if |line| < 1 then NoPoint
    else if |l| < 1 || l[0] == CommentChar then NoPoint
    else
      var item := SplitOn(l, ' ');
      if |item| < 2 then NoPoint
      else match toInt(item[0])
        case None => Raises
        case Some(x) =>
          match toFloat(item[1])
          case None => Raises
          case Some(y) => Point(x, y)
  }

  /** read: the points of the file in order, or None if any line raises. */
  function Read<X, Y>(lines: seq<string>, toInt: string -> Option<X>, toFloat: string -> Option<Y>): (r: Option<(seq<X>, seq<Y>)>)
    ensures r.Some? ==> |r.value.0| == |r.value.1|
  {
    if |lines| == 0 then Some(([], []))
    else
      var rest := Read(lines[1..], toInt, toFloat);
      match GetTuple(lines[0], toInt, toFloat)
      case Raises => None
      case NoPoint => rest
      case Point(x, y) =>
        if rest.None? then None else Some(([x] + rest.value.0, [y] + rest.value.1))
  }

  /** Two reads glued together, the way the loop appends. */
  function Concat<X, Y>(a: Option<(seq<X>, seq<Y>)>, b: Option<(seq<X>, seq<Y>)>): Option<(seq<X>, seq<Y>)>
  {
    if a.None? || b.None? then None else Some((a.value.0 + b.value.0, a.value.1 + b.value.1))
  }

  /** Reading splits over the lines of a file: points keep their order across the cut. */
  lemma {:induction false} ReadAppend<X, Y>(a: seq<string>, b: seq<string>, toInt: string -> Option<X>, toFloat: string -> Option<Y>)
    ensures Read(a + b, toInt, toFloat) == Concat(Read(a, toInt, toFloat), Read(b, toInt, toFloat))
  {
    if |a| > 0 {
      assert (a + b)[0] == a[0];
      assert (a + b)[1..] == a[1..] + b;
      ReadAppend(a[1..], b, toInt, toFloat);
      var ra, rb := Read(a[1..], toInt, toFloat), Read(b, toInt, toFloat);
      match GetTuple(a[0], toInt, toFloat)
      case Raises =>
      case NoPoint =>
      case Point(x, y) =>
        if ra.Some? && rb.Some? {
          assert [x] + (ra.value.0 + rb.value.0) == ([x] + ra.value.0) + rb.value.0;
          assert [y] + (ra.value.1 + rb.value.1) == ([y] + ra.value.1) + rb.value.1;
        }
    } else {
      assert a + b == b;
      var rb := Read(b, toInt, toFloat);
      if rb.Some? {
        assert [] + rb.value.0 == rb.value.0 && [] + rb.value.1 == rb.value.1;
      }
    }
  }

  /** The loop of read: skip on None, append otherwise, and let an exception end it. */
  method ReadLoop<X, Y>(lines: seq<string>, toInt: string -> Option<X>, toFloat: string -> Option<Y>)
    returns (r: Option<(seq<X>, seq<Y>)>)
    ensures r == Read(lines, toInt, toFloat)
  {
    var xs: seq<X>, ys: seq<Y> := [], [];
    for i := 0 to |lines|
      invariant Read(lines[..i], toInt, toFloat) == Some((xs, ys))
    {
      assert lines[..i + 1] == lines[..i] + [lines[i]];
      ReadAppend(lines[..i], [lines[i]], toInt, toFloat);
      assert [lines[i]][1..] == [];
      match GetTuple(lines[i], toInt, toFloat)
      case Raises =>
        assert Read(lines[..i + 1], toInt, toFloat) == None;
        assert lines == lines[..i + 1] + lines[i + 1..];
        ReadAppend(lines[..i + 1], lines[i + 1..], toInt, toFloat);
        return None;
      case NoPoint =>
        assert Read([lines[i]], toInt, toFloat) == Some(([], []));
        assert xs + [] == xs && ys + [] == ys;
      case Point(x, y) =>
        assert Read([lines[i]][1..], toInt, toFloat) == Some(([], []));
        assert [x] + [] == [x] && [y] + [] == [y];
        assert Read([lines[i]], toInt, toFloat) == Some(([x], [y]));
        xs, ys := xs + [x], ys + [y];
    }
    assert lines[..|lines|] == lines;
    r := Some((xs, ys));
  }

  // ---------------------------------------------------------------
  // A written data line reads back
  // ---------------------------------------------------------------

  /** The line a benchmark writes: x, one space, y, with any padding around it. */
  predicate Field(f: string)
  {
    |f| > 0 && ' ' !in f && !IsSpace(f[0]) && !IsSpace(f[|f| - 1])
  }

  lemma {:induction false} StripLeftPadding(pre: string, x: string)
    requires AllSpace(pre) && |x| > 0 && !IsSpace(x[0])
    ensures StripLeft(pre + x) == x
  {
    if |pre| > 0 {
      assert (pre + x)[0] == pre[0];
      assert (pre + x)[1..] == pre[1..] + x;
      StripLeftPadding(pre[1..], x);
    } else {
      assert pre + x == x;
    }
  }

  lemma {:induction false} StripRightPadding(x: string, post: string)
    requires AllSpace(post) && |x| > 0 && !IsSpace(x[|x| - 1])
    ensures StripRight(x + post) == x
  {
    if |post| > 0 {
      var s := x + post;
      assert s[|s| - 1] == post[|post| - 1];
      assert s[..|s| - 1] == x + post[..|post| - 1];
      StripRightPadding(x, post[..|post| - 1]);
    } else {
      assert x + post == x;
    }
  }

  /** str.strip() removes exactly the padding around a body that starts and ends with a visible character. */
  lemma StripPadding(pre: string, body: string, post: string)
    requires AllSpace(pre) && AllSpace(post)
    requires |body| > 0 && !IsSpace(body[0]) && !IsSpace(body[|body| - 1])
    ensures Strip(pre + body + post) == body
  {
    assert pre + body + post == pre + (body + post);
    StripLeftPadding(pre, body + post);
    StripRightPadding(body, post);
  }

  /** Splitting undoes joining when no piece holds the separator. */
  lemma {:induction false} SplitJoin(pieces: seq<string>, sep: char)
    requires |pieces| >= 1
    requires forall k | 0 <= k < |pieces| :: sep !in pieces[k]
    ensures SplitOn(JoinWith(pieces, sep), sep) == pieces
    decreases |JoinWith(pieces, sep)|, |pieces|
  {
    var p := pieces[0];
    if |p| > 0 {
      var tail := [p[1..]] + pieces[1..];
      JoinWithHead(pieces, sep);
      var j := JoinWith(tail, sep);
      assert p[0] != sep by { assert p[0] in p; }
      assert sep !in p[1..] by {
        assert forall i | 0 <= i < |p[1..]| :: p[1..][i] == p[i + 1];
      }
      assert forall k | 0 <= k < |tail| :: sep !in tail[k] by {
        forall k | 1 <= k < |tail|
          ensures sep !in tail[k]
        {
          assert tail[k] == pieces[k];
        }
      }
      SplitJoin(tail, sep);
      assert ([p[0]] + j)[0] == p[0] && ([p[0]] + j)[1..] == j;
      assert [p[0]] + p[1..] == p;
      assert pieces == [[p[0]] + tail[0]] + tail[1..];
    } else if |pieces| > 1 {
      var j := JoinWith(pieces[1..], sep);
      assert JoinWith(pieces, sep) == [sep] + j;
      assert ([sep] + j)[0] == sep && ([sep] + j)[1..] == j;
      assert forall k | 0 <= k < |pieces[1..]| :: sep !in pieces[1..][k] by {
        forall k | 0 <= k < |pieces[1..]|
          ensures sep !in pieces[1..][k]
        {
          assert pieces[1..][k] == pieces[k + 1];
        }
      }
      SplitJoin(pieces[1..], sep);
      assert pieces == [""] + pieces[1..];
    }
  }

  /** Joining undoes splitting: no character is lost or added. */
  lemma {:induction false} JoinSplit(s: string, sep: char)
    ensures JoinWith(SplitOn(s, sep), sep) == s
  {
    if |s| > 0 {
      var rest := SplitOn(s[1..], sep);
      JoinSplit(s[1..], sep);
      if s[0] == sep {
        assert SplitOn(s, sep) == [""] + rest;
        assert ([""] + rest)[1..] == rest;
        assert JoinWith([""] + rest, sep) == "" + [sep] + JoinWith(rest, sep);
        assert s == [sep] + s[1..];
      } else {
        var pieces := [[s[0]] + rest[0]] + rest[1..];
        assert SplitOn(s, sep) == pieces;
        JoinWithHead(pieces, sep);
        assert pieces[0][0] == s[0] && pieces[0][1..] == rest[0];
        assert [pieces[0][1..]] + pieces[1..] == rest;
        assert s == [s[0]] + s[1..];
      }
    }
  }

  /** A line splits into more than one piece exactly when it holds the separator. */
  lemma {:induction false} SplitCount(s: string, sep: char)
    ensures |SplitOn(s, sep)| >= 2 <==> sep in s
  {
    if |s| > 0 {
      SplitCount(s[1..], sep);
      assert sep in s <==> s[0] == sep || sep in s[1..] by {
        assert s == [s[0]] + s[1..];
      }
    }
  }

  lemma JoinWithHead(pieces: seq<string>, sep: char)
    requires |pieces| >= 1 && |pieces[0]| > 0
    ensures JoinWith(pieces, sep) == [pieces[0][0]] + JoinWith([pieces[0][1..]] + pieces[1..], sep)
  {
  }

  /** Every line of the form "<x> <y>", padded with white space, reads as the point (x, y). */
  lemma DataLineReads<X, Y>(pre: string, xt: string, yt: string, post: string,
                            toInt: string -> Option<X>, toFloat: string -> Option<Y>)
    requires AllSpace(pre) && AllSpace(post) && Field(xt) && Field(yt) && xt[0] != CommentChar
    requires toInt(xt).Some? && toFloat(yt).Some?
    ensures GetTuple(pre + xt + " " + yt + post, toInt, toFloat) == Point(toInt(xt).value, toFloat(yt).value)
  {
    var body := xt + " " + yt;
    assert pre + xt + " " + yt + post == pre + body + post;
    StripPadding(pre, body, post);
    assert JoinWith([xt, yt], ' ') == body;
    SplitJoin([xt, yt], ' ');
  }

  /**
   * Fields separated by two spaces are not one gap: the split leaves an
   * empty second piece, and float('') raises.
   */
  lemma DoubleSpaceRaises<X, Y>(xt: string, yt: string, toInt: string -> Option<X>, toFloat: string -> Option<Y>)
    requires Field(xt) && Field(yt) && xt[0] != CommentChar
    requires toInt(xt).Some? && toFloat("").None?
    ensures GetTuple(xt + "  " + yt, toInt, toFloat) == Raises
  {
    var body := xt + "  " + yt;
    StripPadding("", body, "");
    assert "" + body + "" == body;
    assert [xt, "", yt][1..] == ["", yt] && ["", yt][1..] == [yt];
    assert JoinWith(["", yt], ' ') == " " + yt;
    assert JoinWith([xt, "", yt], ' ') == xt + " " + (" " + yt) == body;
    SplitJoin([xt, "", yt], ' ');
  }

  // ---------------------------------------------------------------
  // Which lines are skipped, which end the read
  // ---------------------------------------------------------------

  /** get_tuple skips a line exactly when it is blank, a comment, or has no space after stripping. */
  lemma SkipRules<X, Y>(line: string, toInt: string -> Option<X>, toFloat: string -> Option<Y>)
    ensures GetTuple(line, toInt, toFloat).NoPoint?
        <==> Strip(line) == "" || Strip(line)[0] == CommentChar || ' ' !in Strip(line)
  {
    SplitCount(Strip(line), ' ');
  }

  /** read fails exactly when some line makes int() or float() raise. */
  lemma {:induction false} ReadRaises<X, Y>(lines: seq<string>, toInt: string -> Option<X>, toFloat: string -> Option<Y>)
    ensures Read(lines, toInt, toFloat).None? <==> exists i | 0 <= i < |lines| :: GetTuple(lines[i], toInt, toFloat).Raises?
  {
    if |lines| > 0 {
      ReadRaises(lines[1..], toInt, toFloat);
      if exists i | 1 <= i < |lines| :: GetTuple(lines[i], toInt, toFloat).Raises? {
        var i :| 1 <= i < |lines| && GetTuple(lines[i], toInt, toFloat).Raises?;
        assert lines[1..][i - 1] == lines[i];
      }
      if exists i | 0 <= i < |lines[1..]| :: GetTuple(lines[1..][i], toInt, toFloat).Raises? {
        var i :| 0 <= i < |lines[1..]| && GetTuple(lines[1..][i], toInt, toFloat).Raises?;
        assert lines[1..][i] == lines[i + 1];
      }
    }
  }

  /** A successful read yields one point per line that get_tuple reads as a point. */
  lemma {:induction false} ReadCounts<X, Y>(lines: seq<string>, toInt: string -> Option<X>, toFloat: string -> Option<Y>)
    requires Read(lines, toInt, toFloat).Some?
    ensures |Read(lines, toInt, toFloat).value.0| == PointCount(lines, toInt, toFloat)
  {
    if |lines| > 0 {
      ReadCounts(lines[1..], toInt, toFloat);
    }
  }

  function PointCount<X, Y>(lines: seq<string>, toInt: string -> Option<X>, toFloat: string -> Option<Y>): nat
  {
    if |lines| == 0 then 0
    else (if GetTuple(lines[0], toInt, toFloat).Point? then 1 else 0) + PointCount(lines[1..], toInt, toFloat)
  }
}
