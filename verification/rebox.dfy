/** Boxing a box again: the lines a box is made of, and the width and the
    newline count the measuring pass finds in it. */
module Rebox {
  import opened Lines
  import opened Symbols
  import opened Render
  import opened Boxing

  /** `lines`, each followed by a newline. */
  function Lined(lines: seq<string>): string
  {
    if |lines| == 0 then [] else Lined(Init(lines)) + Last(lines) + [NEW_LINE]
  }

  /** Newline-terminating two lists in turn terminates their concatenation. */
  lemma {:induction false} LinedAppend(a: seq<string>, b: seq<string>)
    ensures Lined(a + b) == Lined(a) + Lined(b)
    decreases |b|
  {
    if |b| == 0 {
      assert a + b == a;
    } else {
      assert Init(a + b) == a + Init(b);
      assert Last(a + b) == Last(b);
      LinedAppend(a, Init(b));
    }
  }

  /** Splitting newline-terminated, newline-free lines gives the lines back,
      then the empty segment after the last newline. */
  lemma {:induction false} SegmentsLined(lines: seq<string>)
    requires forall k :: 0 <= k < |lines| ==> NEW_LINE !in lines[k]
    ensures Segments(Lined(lines)) == lines + [""]
    decreases |lines|
  {
    if |lines| > 0 {
      var init := Init(lines);
      var l := Last(lines);
      var x := Lined(init);
      SegmentsLined(init);
      assert NEW_LINE !in l;
      AppendLine(x, init, l);
      SegmentsSnoc(x + l, NEW_LINE);
      assert Lined(lines) == (x + l) + [NEW_LINE];
      assert init + [l] == lines;
    }
  }

  /** Appending a newline-free line to text whose last segment is empty
      makes that line the last segment. */
  lemma AppendLine(x: string, init: seq<string>, l: string)
    requires Segments(x) == init + [""]
    requires NEW_LINE !in l
    ensures Segments(x + l) == init + [l]
  {
    SegmentsPlain(l);
    SegmentsConcat(x, l);
    assert Init(init + [""]) == init;
    assert Last(init + [""]) + l == l;
  }

  /** A border row without its newline. */
  function BorderLine(width: nat, bc: BoxChars): string
  {
    [bc.corner] + Repeat(bc.horWall, width) + [bc.corner]
  }

  /** A body row without its newline. */
  function RowLine(width: nat, line: string, bc: BoxChars): string
  {
    [bc.vertWall, ' '] + line + Repeat(' ', Pad(width, |line|)) + [bc.vertWall]
  }

  /** The body rows of `lines`, each without its newline. */
  function RowLines(width: nat, lines: seq<string>, bc: BoxChars): (r: seq<string>)
    ensures |r| == |lines|
    ensures forall k :: 0 <= k < |lines| ==> r[k] == RowLine(width, lines[k], bc)
  {
    seq(|lines|, k requires 0 <= k < |lines| => RowLine(width, lines[k], bc))
  }

  /** The rows of `lines` are their row lines, each ended by a newline. */
  lemma {:induction false} RowsLined(width: nat, lines: seq<string>, bc: BoxChars)
    ensures Rows(width, lines, bc) == Lined(RowLines(width, lines, bc))
    decreases |lines|
  {
    if |lines| > 0 {
      RowsLined(width, Init(lines), bc);
      var rl := RowLines(width, lines, bc);
      assert Init(rl) == RowLines(width, Init(lines), bc);
      var l := Last(lines);
      assert Row(width, l, bc) == RowLine(width, l, bc) + [NEW_LINE];
    }
  }

  /** `n` copies of a character other than the newline hold no newline. */
  lemma RepeatNewlineFree(c: char, n: nat)
    requires c != NEW_LINE
    ensures NEW_LINE !in Repeat(c, n)
  {
    var r := Repeat(c, n);
    assert forall k :: 0 <= k < |r| ==> r[k] != NEW_LINE;
  }

  /** The lines of a box of `text`: the border, one row line per body
      segment, the border again. */
  function BoxLines(text: string, bc: BoxChars): (lines: seq<string>)
    ensures |lines| == |BodySegments(text)| + 2
  {
    var w := Width(text);
    [BorderLine(w, bc)] + RowLines(w, BodySegments(text), bc) + [BorderLine(w, bc)]
  }

  /** Newline-terminating a line framed by `edge` on both sides. */
  lemma FrameLined(edge: string, lines: seq<string>)
    ensures Lined([edge] + lines + [edge])
            == edge + [NEW_LINE] + Lined(lines) + (edge + [NEW_LINE])
  {
    LinedAppend([edge], lines);
    LinedAppend([edge] + lines, [edge]);
    assert Lined([edge]) == edge + [NEW_LINE] by {
      assert Init([edge]) == [];
    }
  }

  /** The box is its lines, each ended by a newline. */
  lemma BoxLined(text: string, bc: BoxChars)
    ensures BoxText(text, bc) == Lined(BoxLines(text, bc))
  {
    var w := Width(text);
    var edge := BorderLine(w, bc);
    var rows := RowLines(w, BodySegments(text), bc);
    RowsLined(w, BodySegments(text), bc);
    FrameLined(edge, rows);
    assert Border(w, bc) == edge + [NEW_LINE];
  }

  /** A row line holds a newline only if its line does. */
  lemma RowLineNewlineFree(width: nat, line: string, bc: BoxChars)
    requires bc.LineSafe() && NEW_LINE !in line
    ensures NEW_LINE !in RowLine(width, line, bc)
  {
    RepeatNewlineFree(' ', Pad(width, |line|));
  }

  /** Every line of a box drawn with line-safe symbols is newline-free. */
  lemma BoxLinesNewlineFree(text: string, bc: BoxChars)
    requires bc.LineSafe()
    ensures var lines := BoxLines(text, bc);
            forall k :: 0 <= k < |lines| ==> NEW_LINE !in lines[k]
  {
    var w := Width(text);
    var body := BodySegments(text);
    var rows := RowLines(w, body, bc);
    RepeatNewlineFree(bc.horWall, w);
    SegmentsShape(text);
    forall k | 0 <= k < |rows|
      ensures NEW_LINE !in rows[k]
    {
      assert body[k] == Segments(text)[k];
      RowLineNewlineFree(w, body[k], bc);
    }
    var lines := BoxLines(text, bc);
    forall k | 0 <= k < |lines|
      ensures NEW_LINE !in lines[k]
    {
      if 0 < k < |lines| - 1 {
        assert lines[k] == rows[k - 1];
      }
    }
  }

  /** Splitting a box gives back its lines and the empty segment after the
      final newline. */
  lemma BoxSegments(text: string, bc: BoxChars)
    requires bc.LineSafe()
    ensures Segments(BoxText(text, bc)) == BoxLines(text, bc) + [""]
  {
    BoxLined(text, bc);
    BoxLinesNewlineFree(text, bc);
    SegmentsLined(BoxLines(text, bc));
  }

  /** The longest line of a box: the border's two corners around the text's
      width, or a body row's wall, space and wall around it. */
  lemma BoxLinesWidth(text: string, bc: BoxChars)
    ensures MaxLen(BoxLines(text, bc) + [""])
            == if BodySegments(text) == [] then Width(text) + 2 else Width(text) + 3
  {
    var w := Width(text);
    var body := BodySegments(text);
    var segs := BoxLines(text, bc) + [""];
    BodySegmentsFit(text);
    var m := if body == [] then w + 2 else w + 3;
    forall k | 0 <= k < |segs|
      ensures |segs[k]| <= m
    {
      if 0 < k <= |body| {
        assert segs[k] == RowLine(w, body[k - 1], bc);
      }
    }
    if body == [] {
      assert |segs[0]| == m;
    } else {
      assert segs[1] == RowLine(w, body[0], bc);
      assert |segs[1]| == m;
    }
    MaxLenUnique(segs, m);
  }

  /** Measuring a box finds two newlines more than it has body rows: one
      ending each border and one ending each row. */
  lemma ReboxRows(text: string, bc: BoxChars)
    requires bc.LineSafe()
    ensures NewlineCount(BoxText(text, bc)) == |BodySegments(text)| + 2
  {
    BoxSegments(text, bc);
    SegmentsShape(BoxText(text, bc));
  }

  /** Measuring a box finds it 3 wider than the text when it has a body
      row (the row's wall, space and wall), 2 wider otherwise (the border's
      two corners). */
  lemma ReboxGrowth(text: string, bc: BoxChars)
    requires bc.LineSafe()
    ensures Width(BoxText(text, bc))
            == if BodySegments(text) == [] then Width(text) + 2 else Width(text) + 3
  {
    BoxSegments(text, bc);
    BoxLinesWidth(text, bc);
  }

  /** Boxing "ab" again: the box of "ab" is 5 wide, 3 more than "ab". */
  lemma ReboxAb()
    ensures Width(BoxText("ab", BOX_CHAR)) == 5
  {
    SegmentsPlain("ab");
    assert BodySegments("ab") == ["ab"];
    assert Width("ab") == 2 by {
      assert Init(["ab"]) == [];
    }
    ReboxGrowth("ab", BOX_CHAR);
  }
}
