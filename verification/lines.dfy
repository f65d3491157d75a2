/** Text as the boxing core sees it: a C string cut at its first NUL, split
    into '\n'-separated segments, measured by its longest segment. */
module Lines {

  const NEW_LINE: char := '\n'
  const NULL_TERM: char := '\0'

  /** Index of the first NUL in `buf`, or its length when it holds none. */
  function NulIndex(buf: seq<char>): (n: nat)
    ensures n <= |buf|
    ensures forall k :: 0 <= k < n ==> buf[k] != NULL_TERM
    ensures n < |buf| ==> buf[n] == NULL_TERM
  {
    if |buf| == 0 || buf[0] == NULL_TERM then 0 else 1 + NulIndex(buf[1..])
  }

  /** The C string a buffer holds: every character before the first NUL, or
      the whole buffer when it holds none. */
  function CStr(buf: seq<char>): (s: string)
    ensures |s| <= |buf| && s == buf[..|s|]
    ensures NULL_TERM !in s
    ensures |s| < |buf| ==> buf[|s|] == NULL_TERM
  {
    buf[..NulIndex(buf)]
  }

  /** A scan that stopped at index `i` because it met a NUL or the end of the
      buffer, and saw no NUL before it, has read exactly the C string. */
  lemma CStrAt(buf: seq<char>, i: nat)
    requires i <= |buf|
    requires NULL_TERM !in buf[..i]
    requires i == |buf| || buf[i] == NULL_TERM
    ensures CStr(buf) == buf[..i]
  {
    var s := CStr(buf);
    assert forall j :: 0 <= j < i ==> buf[j] != NULL_TERM by {
      forall j | 0 <= j < i
        ensures buf[j] != NULL_TERM
      {
        assert buf[..i][j] == buf[j];
      }
    }
    assert forall j :: 0 <= j < |s| ==> buf[j] != NULL_TERM by {
      forall j | 0 <= j < |s|
        ensures buf[j] != NULL_TERM
      {
        assert s[j] == buf[j];
      }
    }
  }

  /** Extending a prefix by one character. */
  lemma PrefixSnoc(s: seq<char>, i: nat)
    requires i < |s|
    ensures s[..i + 1] == s[..i] + [s[i]]
  {
  }

  /** Number of '\n' characters in `s`. */
  function NewlineCount(s: string): nat
  {
    multiset(s)[NEW_LINE]
  }

  /** The '\n'-separated segments of `s`, the final (possibly empty,
      unterminated) one included. Defined by appending the last character, the
      order in which a left-to-right scan sees it. */
  function Segments(s: string): (segs: seq<string>)
    ensures |segs| > 0
    decreases |s|
  {
    if |s| == 0 then [""]
    else
      var init := Segments(s[..|s| - 1]);
      if s[|s| - 1] == NEW_LINE then init + [""]
      else init[..|init| - 1] + [init[|init| - 1] + [s[|s| - 1]]]
  }

  /** There is one segment more than there are newlines, and no segment
      holds a newline. */
  lemma {:induction false} SegmentsShape(s: string)
    ensures |Segments(s)| == NewlineCount(s) + 1
    ensures forall k :: 0 <= k < |Segments(s)| ==> NEW_LINE !in Segments(s)[k]
    decreases |s|
  {
    if |s| > 0 {
      var p := s[..|s| - 1];
      var c := s[|s| - 1];
      assert s == p + [c];
      SegmentsShape(p);
      SegmentsSnoc(p, c);
      var sp := Segments(p);
      if c != NEW_LINE {
        assert NEW_LINE !in Last(sp);
        assert forall k :: 0 <= k < |Segments(s)| - 1 ==> Segments(s)[k] == sp[k];
      }
    }
  }

  /** One step of the definition: what appending a character does. */
  lemma SegmentsSnoc(p: string, c: char)
    ensures Segments(p + [c])
         == if c == NEW_LINE then Segments(p) + [""]
            else Init(Segments(p)) + [Last(Segments(p)) + [c]]
  {
    assert (p + [c])[..|p|] == p;
  }

  function Last(segs: seq<string>): string
    requires |segs| > 0
  {
    segs[|segs| - 1]
  }

  function Init(segs: seq<string>): seq<string>
    requires |segs| > 0
  {
    segs[..|segs| - 1]
  }

  /** Segments joined back with '\n' between neighbours. */
  function Join(lines: seq<string>): string
    requires |lines| > 0
  {
    if |lines| == 1 then lines[0]
    else Join(Init(lines)) + [NEW_LINE] + Last(lines)
  }

  /** Splitting on '\n' and joining again gives the text back. */
  lemma {:induction false} JoinSegments(s: string)
    ensures Join(Segments(s)) == s
    decreases |s|
  {
    if |s| > 0 {
      var p := s[..|s| - 1];
      var c := s[|s| - 1];
      assert s == p + [c];
      JoinSegments(p);
      var init := Segments(p);
      if c == NEW_LINE {
        assert Init(init + [""]) == init;
      } else if |init| == 1 {
        assert Segments(s) == [init[0] + [c]];
      } else {
        var segs := Segments(s);
        assert Init(segs) == Init(init);
        assert Last(segs) == Last(init) + [c];
        assert Join(init) == Join(Init(init)) + [NEW_LINE] + Last(init);
      }
    }
  }

  /** Segments of a concatenation: the last segment of `x` fuses with the
      first segment of `y`. */
  lemma {:induction false} SegmentsConcat(x: string, y: string)
    ensures Segments(x + y)
         == Init(Segments(x)) + [Last(Segments(x)) + Segments(y)[0]] + Segments(y)[1..]
    decreases |y|
  {
    var sx := Segments(x);
    if |y| == 0 {
      assert x + y == x;
      assert Segments(y) == [""];
      assert Last(sx) + Segments(y)[0] == Last(sx);
      assert Segments(y)[1..] == [];
      assert sx == Init(sx) + [Last(sx) + Segments(y)[0]] + Segments(y)[1..];
    } else {
      var q := y[..|y| - 1];
      var c := y[|y| - 1];
      assert y == q + [c];
      assert x + y == (x + q) + [c];
      SegmentsConcat(x, q);
      SegmentsSnoc(x + q, c);
      SegmentsSnoc(q, c);
      if c == NEW_LINE {
        AppendEmptyFused(Init(sx), Last(sx), Segments(q));
      } else {
        AppendCharFused(Init(sx), Last(sx), Segments(q), c);
      }
    }
  }

  /** Sequence algebra for SegmentsConcat when the appended character is a
      newline. */
  lemma AppendEmptyFused(A: seq<string>, b: string, sq: seq<string>)
    requires |sq| > 0
    ensures A + [b + sq[0]] + sq[1..] + [""]
         == A + [b + (sq + [""])[0]] + (sq + [""])[1..]
  {
    assert (sq + [""])[1..] == sq[1..] + [""];
  }

  /** Sequence algebra for SegmentsConcat when the appended character extends
      the last segment. */
  lemma AppendCharFused(A: seq<string>, b: string, sq: seq<string>, c: char)
    requires |sq| > 0
    ensures var sxq := A + [b + sq[0]] + sq[1..];
            var sy := Init(sq) + [Last(sq) + [c]];
            Init(sxq) + [Last(sxq) + [c]] == A + [b + sy[0]] + sy[1..]
  {
    var sxq := A + [b + sq[0]] + sq[1..];
    var sy := Init(sq) + [Last(sq) + [c]];
    if |sq| == 1 {
      assert sy == [sq[0] + [c]];
      assert Init(sxq) == A;
      assert Last(sxq) + [c] == b + sy[0];
    } else {
      var mid := sq[1..|sq| - 1];
      assert sy[0] == sq[0];
      assert sy[1..] == mid + [Last(sq) + [c]];
      assert sxq == A + [b + sq[0]] + mid + [Last(sq)];
      assert Init(sxq) == A + [b + sq[0]] + mid;
    }
  }

  /** Splitting a join of newline-free lines recovers the lines. */
  lemma {:induction false} SegmentsJoin(lines: seq<string>)
    requires |lines| > 0
    requires forall k :: 0 <= k < |lines| ==> NEW_LINE !in lines[k]
    ensures Segments(Join(lines)) == lines
    decreases |lines|
  {
    if |lines| == 1 {
      SegmentsPlain(lines[0]);
    } else {
      var init := Init(lines);
      SegmentsJoin(init);
      var a := Join(init) + [NEW_LINE];
      SegmentsConcat(Join(init), [NEW_LINE]);
      assert Segments([NEW_LINE]) == ["", ""] by {
        assert [NEW_LINE][..0] == [];
      }
      assert Last(init) + Segments([NEW_LINE])[0] == Last(init);
      assert Init(init) + [Last(init)] == init;
      assert Segments(a) == init + [""];
      SegmentsConcat(a, Last(lines));
      SegmentsPlain(Last(lines));
      assert Init(init + [""]) == init;
      assert "" + Last(lines) == Last(lines);
      assert Segments(a + Last(lines)) == init + [Last(lines)];
      assert lines == init + [Last(lines)];
    }
  }

  /** A newline-free text is a single segment. */
  lemma {:induction false} SegmentsPlain(s: string)
    requires NEW_LINE !in s
    ensures Segments(s) == [s]
    decreases |s|
  {
    if |s| > 0 {
      var p := s[..|s| - 1];
      assert s == p + [s[|s| - 1]];
      SegmentsPlain(p);
      SegmentsSnoc(p, s[|s| - 1]);
    }
  }

  /** The longest length in `lines`; 0 when there are none. */
  function MaxLen(lines: seq<string>): nat
  {
    if |lines| == 0 then 0
    else
      var m0 := MaxLen(Init(lines));
      var n := |Last(lines)|;
      if n > m0 then n else m0
  }

  /** MaxLen bounds every length and is attained by some line. */
  lemma {:induction false} MaxLenIsMax(lines: seq<string>)
    ensures forall k :: 0 <= k < |lines| ==> |lines[k]| <= MaxLen(lines)
    ensures |lines| > 0 ==> exists k :: 0 <= k < |lines| && |lines[k]| == MaxLen(lines)
    ensures |lines| == 0 ==> MaxLen(lines) == 0
    decreases |lines|
  {
    if |lines| > 0 {
      var init := Init(lines);
      MaxLenIsMax(init);
      assert forall k :: 0 <= k < |init| ==> init[k] == lines[k];
      if |Last(lines)| <= MaxLen(init) && |init| > 0 {
        var k :| 0 <= k < |init| && |init[k]| == MaxLen(init);
        assert |lines[k]| == MaxLen(lines);
      }
    }
  }

  /** Any bound on the lengths that some line attains is MaxLen. */
  lemma MaxLenUnique(lines: seq<string>, m: nat)
    requires forall k :: 0 <= k < |lines| ==> |lines[k]| <= m
    requires exists k :: 0 <= k < |lines| && |lines[k]| == m
    ensures MaxLen(lines) == m
  {
    MaxLenIsMax(lines);
  }

  /** A scanned newline closes the segment in progress and opens an empty
      one. */
  lemma ScanNewline(seen: string)
    ensures Init(Segments(seen + [NEW_LINE])) == Segments(seen)
    ensures Last(Segments(seen + [NEW_LINE])) == ""
    ensures NewlineCount(seen + [NEW_LINE]) == NewlineCount(seen) + 1
  {
    SegmentsSnoc(seen, NEW_LINE);
  }

  /** Any other scanned character extends the segment in progress. */
  lemma ScanOther(seen: string, c: char)
    requires c != NEW_LINE
    ensures Init(Segments(seen + [c])) == Init(Segments(seen))
    ensures |Last(Segments(seen + [c]))| == |Last(Segments(seen))| + 1
    ensures NewlineCount(seen + [c]) == NewlineCount(seen)
  {
    SegmentsSnoc(seen, c);
    var segs := Segments(seen);
    assert Init(Init(segs) + [Last(segs) + [c]]) == Init(segs);
  }

  /** The widest segment is the wider of the widest completed one and the one
      in progress. */
  lemma MaxLenSplit(segs: seq<string>)
    requires |segs| > 0
    ensures MaxLen(segs) == if |Last(segs)| > MaxLen(Init(segs)) then |Last(segs)| else MaxLen(Init(segs))
  {
  }

  /** Width of a text: the length of its longest segment, the trailing
      unterminated one included. */
  function Width(s: string): nat
  {
    MaxLen(Segments(s))
  }

  /** A text has zero width and no newline exactly when it is empty: any
      character is either a newline or lengthens some segment. */
  lemma DimsZeroIffEmpty(s: string)
    ensures Width(s) == 0 && NewlineCount(s) == 0 <==> s == []
  {
    if s == [] {
      assert Segments(s) == [""];
      assert MaxLen([""]) == 0 by {
        assert Init([""]) == [];
      }
    } else if NEW_LINE in s {
      assert NEW_LINE in multiset(s);
    } else {
      SegmentsPlain(s);
      MaxLenIsMax(Segments(s));
    }
  }

  /** The segments that become body rows: every newline-terminated one, and
      the trailing one only when it is non-empty. */
  function BodySegments(s: string): seq<string>
  {
    var segs := Segments(s);
    if Last(segs) == "" then Init(segs) else segs
  }

  /** The body row count `R`: newlines, plus one for a non-empty trailing
      segment. */
  lemma BodySegmentsCount(s: string)
    ensures |BodySegments(s)| == NewlineCount(s) + (if Last(Segments(s)) == "" then 0 else 1)
    ensures |BodySegments(s)| == 0 <==> s == []
  {
    SegmentsShape(s);
    LastSegmentEmpty(s);
    if s != [] && s[|s| - 1] == NEW_LINE {
      assert s == s[..|s| - 1] + [s[|s| - 1]];
      assert NewlineCount(s) > 0;
    }
  }

  /** The trailing segment is empty exactly when the text is empty or ends in
      '\n'. */
  lemma LastSegmentEmpty(s: string)
    ensures Last(Segments(s)) == "" <==> (s == [] || s[|s| - 1] == NEW_LINE)
  {
  }

  /** Every body segment fits in the width. */
  lemma BodySegmentsFit(s: string)
    ensures forall k :: 0 <= k < |BodySegments(s)| ==> |BodySegments(s)[k]| <= Width(s)
  {
    MaxLenIsMax(Segments(s));
  }
}
