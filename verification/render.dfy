/** The two renderers: the horizontal border and the body scanner, each both
    as a reference definition and as a routine that writes character by
    character the way the C code advances its `write_head`. */
module Render {
  import opened Lines
  import opened Symbols

  /** `n` copies of `c`. */
  function Repeat(c: char, n: nat): (r: string)
    ensures |r| == n
    ensures forall k :: 0 <= k < n ==> r[k] == c
  {
    seq(n, _ => c)
  }

  /** A border row: corner, `width` horizontal symbols, corner, newline. */
  function Border(width: nat, bc: BoxChars): string
  {
    [bc.corner] + Repeat(bc.horWall, width) + [bc.corner, NEW_LINE]
  }

  /** The layout of a border row, column by column. */
  lemma BorderShape(width: nat, bc: BoxChars)
    ensures |Border(width, bc)| == width + 3
    ensures Border(width, bc)[0] == bc.corner
    ensures forall k :: 1 <= k <= width ==> Border(width, bc)[k] == bc.horWall
    ensures Border(width, bc)[width + 1] == bc.corner
    ensures Border(width, bc)[width + 2] == NEW_LINE
  {
  }

  /** Spaces the padding loop writes after `col` characters: it runs while
      `col < width`, so it writes nothing for a line at least `width` long. */
  function Pad(width: nat, col: nat): nat
  {
    if col < width then width - col else 0
  }

  /** A body row: wall, space, the line, padding to `width`, wall, newline. */
  function Row(width: nat, line: string, bc: BoxChars): string
  {
    [bc.vertWall, ' '] + line + Repeat(' ', Pad(width, |line|)) + [bc.vertWall, NEW_LINE]
  }

  /** The layout of a body row whose line fits the width: `width + 4`
      characters; the line is copied verbatim from column 2 and followed only
      by spaces up to the closing wall at column `width + 2`. */
  lemma RowShape(width: nat, line: string, bc: BoxChars)
    requires |line| <= width
    ensures |Row(width, line, bc)| == width + 4
    ensures Row(width, line, bc)[0] == bc.vertWall && Row(width, line, bc)[1] == ' '
    ensures Row(width, line, bc)[2..2 + |line|] == line
    ensures forall k :: 2 + |line| <= k < width + 2 ==> Row(width, line, bc)[k] == ' '
    ensures Row(width, line, bc)[width + 2] == bc.vertWall
    ensures Row(width, line, bc)[width + 3] == NEW_LINE
  {
    var r := Row(width, line, bc);
    assert r == [bc.vertWall, ' '] + line + Repeat(' ', width - |line|) + [bc.vertWall, NEW_LINE];
    assert r[2..2 + |line|] == line;
  }

  /** The rows of `lines`, in order. */
  function Rows(width: nat, lines: seq<string>, bc: BoxChars): string
  {
    if |lines| == 0 then [] else Rows(width, Init(lines), bc) + Row(width, Last(lines), bc)
  }

  /** The rows of non-empty lines end with the row of the last one. */
  lemma RowsLast(width: nat, lines: seq<string>, bc: BoxChars)
    requires |lines| > 0
    ensures Rows(width, lines, bc) == Rows(width, Init(lines), bc) + Row(width, Last(lines), bc)
  {
  }

  /** The body of a text: one row per body segment. */
  function Body(width: nat, text: string, bc: BoxChars): string
  {
    Rows(width, BodySegments(text), bc)
  }

  /** The body is empty exactly for the empty text: any character opens a
      row, even a lone newline, which makes an empty, fully padded one. */
  lemma BodyEmpty(width: nat, text: string, bc: BoxChars)
    ensures Body(width, text, bc) == [] <==> text == []
  {
    BodySegmentsCount(text);
    if text != [] {
      RowsLast(width, BodySegments(text), bc);
      assert |Row(width, Last(BodySegments(text)), bc)| >= 4;
    }
  }

  /** A non-empty trailing segment is closed exactly as if the text ended
      with the missing newline; after an empty trailing segment, a newline
      adds one full row of padding, as every empty interior line does. */
  lemma TrailingSegmentClosed(width: nat, text: string, bc: BoxChars)
    ensures Last(Segments(text)) != "" ==> Body(width, text, bc) == Body(width, text + [NEW_LINE], bc)
    ensures Last(Segments(text)) == ""
            ==> Body(width, text + [NEW_LINE], bc) == Body(width, text, bc) + Row(width, "", bc)
  {
    var segs := Segments(text);
    SegmentsSnoc(text, NEW_LINE);
    assert Init(segs + [""]) == segs;
    assert BodySegments(text + [NEW_LINE]) == segs;
    if Last(segs) == "" {
      RowsLast(width, segs, bc);
    }
  }

  /** When every line fits, the rows are `width + 4` characters each. */
  lemma {:induction false} RowsLength(width: nat, lines: seq<string>, bc: BoxChars)
    requires forall k :: 0 <= k < |lines| ==> |lines[k]| <= width
    ensures |Rows(width, lines, bc)| == |lines| * (width + 4)
    decreases |lines|
  {
    if |lines| > 0 {
      RowsLength(width, Init(lines), bc);
      RowShape(width, Last(lines), bc);
    }
  }

  /** When every line fits, row `i` occupies columns `i * (width + 4)` up to
      `(i + 1) * (width + 4)` of the rows. */
  lemma {:induction false} RowAt(width: nat, lines: seq<string>, bc: BoxChars, i: nat)
    requires forall k :: 0 <= k < |lines| ==> |lines[k]| <= width
    requires i < |lines|
    ensures (i + 1) * (width + 4) <= |Rows(width, lines, bc)|
    ensures Rows(width, lines, bc)[i * (width + 4)..(i + 1) * (width + 4)] == Row(width, lines[i], bc)
    decreases |lines|
  {
    var stride := width + 4;
    var n := |lines|;
    var init := Init(lines);
    RowsLength(width, init, bc);
    RowsLength(width, lines, bc);
    RowShape(width, Last(lines), bc);
    var prefix := Rows(width, init, bc);
    var last := Row(width, Last(lines), bc);
    assert Rows(width, lines, bc) == prefix + last;
    StrideBounds(i, n, stride);
    if i < n - 1 {
      RowAt(width, init, bc, i);
      SliceLeft(prefix, last, i * stride, (i + 1) * stride);
    } else {
      SliceRight(prefix, last);
    }
  }

  /** Row `i` of `n` rows of a given stride ends within the rows, and within
      the first `n - 1` of them unless it is the last. */
  lemma StrideBounds(i: nat, n: nat, stride: nat)
    requires i < n
    ensures 0 <= i * stride <= (i + 1) * stride <= n * stride
    ensures i < n - 1 ==> (i + 1) * stride <= (n - 1) * stride
    ensures i == n - 1 ==> i * stride == (n - 1) * stride && (i + 1) * stride == n * stride
  {
    MulMono(i, i + 1, stride);
    MulMono(i + 1, n, stride);
    if i < n - 1 {
      MulMono(i + 1, n - 1, stride);
    }
  }

  lemma MulMono(a: nat, b: nat, c: nat)
    requires a <= b
    ensures a * c <= b * c
  {
  }

  lemma SliceLeft(a: string, b: string, lo: int, hi: int)
    requires 0 <= lo <= hi <= |a|
    ensures (a + b)[lo..hi] == a[lo..hi]
  {
  }

  lemma SliceRight(a: string, b: string)
    ensures (a + b)[|a|..|a| + |b|] == b
  {
  }

  /** Writes a border row, `width + 3` characters: corner, `width`
      horizontal symbols, corner, newline. */
  method HorizontalBorder(width: nat, bc: BoxChars) returns (written: string, status: int)
    ensures written == Border(width, bc)
    ensures |written| == width + 3
    ensures written[0] == bc.corner && written[width + 1] == bc.corner && written[width + 2] == NEW_LINE
    ensures forall k :: 1 <= k <= width ==> written[k] == bc.horWall
    ensures status == EXIT_SUCCESS
  {
    written := [bc.corner];
    var i := 0;
    while i < width
      invariant i <= width
      invariant written == [bc.corner] + Repeat(bc.horWall, i)
    {
      assert Repeat(bc.horWall, i + 1) == Repeat(bc.horWall, i) + [bc.horWall];
      written := written + [bc.horWall];
      i := i + 1;
    }
    written := written + [bc.corner];
    written := written + [NEW_LINE];
    status := EXIT_SUCCESS;
  }

  /** Appends `width - col` spaces at the write head when `col < width`, and
      nothing otherwise, as the C padding loop does. */
  method PadTo(width: nat, col: nat, head: string) returns (head': string)
    ensures head' == head + Repeat(' ', Pad(width, col))
  {
    head' := head;
    var c := col;
    while c < width
      invariant col <= c
      invariant c <= width || c == col
      invariant head' == head + Repeat(' ', c - col)
    {
      assert Repeat(' ', c - col + 1) == Repeat(' ', c - col) + [' '];
      head' := head' + [' '];
      c := c + 1;
    }
  }

  /** What the body scanner has written after reading `seen`: the rows of
      the completed segments, then, when the segment in progress is
      non-empty, its started row. */
  function Scanned(width: nat, seen: string, bc: BoxChars): string
  {
    var segs := Segments(seen);
    Rows(width, Init(segs), bc) + (if Last(segs) == "" then [] else OpenRow(Last(segs), bc))
  }

  /** A row started but not yet closed: wall, space, the characters so far. */
  function OpenRow(line: string, bc: BoxChars): string
  {
    [bc.vertWall, ' '] + line
  }

  /** What the scanner has written once it has read the next character and,
      at line start, opened a row for it. */
  function Started(width: nat, seen: string, bc: BoxChars): string
  {
    Scanned(width, seen, bc) + (if Last(Segments(seen)) == [] then [bc.vertWall, ' '] else [])
  }

  /** Once a row is opened, the output is the closed rows and the open row. */
  lemma StartedOpen(width: nat, seen: string, bc: BoxChars)
    ensures Started(width, seen, bc)
         == Rows(width, Init(Segments(seen)), bc) + OpenRow(Last(Segments(seen)), bc)
  {
  }

  /** A newline read by the scanner pads and closes the row in progress. */
  lemma ScannedNewline(width: nat, seen: string, bc: BoxChars)
    ensures Scanned(width, seen + [NEW_LINE], bc)
         == Started(width, seen, bc) + Repeat(' ', Pad(width, |Last(Segments(seen))|)) + [bc.vertWall, NEW_LINE]
  {
    var segs := Segments(seen);
    var line := Last(segs);
    StartedOpen(width, seen, bc);
    ScanNewline(seen);
    RowsLast(width, segs, bc);
    assert Scanned(width, seen + [NEW_LINE], bc) == Rows(width, segs, bc);
    assert Row(width, line, bc) == OpenRow(line, bc) + Repeat(' ', Pad(width, |line|)) + [bc.vertWall, NEW_LINE];
  }

  /** Any other character read by the scanner extends the row in progress. */
  lemma ScannedOther(width: nat, seen: string, c: char, bc: BoxChars)
    requires c != NEW_LINE
    ensures Scanned(width, seen + [c], bc) == Started(width, seen, bc) + [c]
  {
    var segs := Segments(seen);
    var line := Last(segs);
    StartedOpen(width, seen, bc);
    ScanOther(seen, c);
    SegmentsSnoc(seen, c);
    assert Last(Segments(seen + [c])) == line + [c];
    assert Scanned(width, seen + [c], bc) == Rows(width, Init(segs), bc) + OpenRow(line + [c], bc);
    assert OpenRow(line + [c], bc) == OpenRow(line, bc) + [c];
  }

  /** At the end of the input the scanner closes a row in progress. */
  lemma ScannedEnd(width: nat, text: string, bc: BoxChars)
    ensures var line := Last(Segments(text));
            Body(width, text, bc)
            == if line == [] then Scanned(width, text, bc)
               else Scanned(width, text, bc) + Repeat(' ', Pad(width, |line|)) + [bc.vertWall, NEW_LINE]
  {
    RowsLast(width, Segments(text), bc);
  }

  /** One pass of the scanner loop: reads `c` in state `col`, having
      written `written` for the characters `seen` before it. */
  method ScanChar(width: nat, bc: BoxChars, c: char, col: nat, written: string, ghost seen: string)
    returns (col': nat, written': string)
    requires col == |Last(Segments(seen))|
    requires written == Scanned(width, seen, bc)
    ensures col' == |Last(Segments(seen + [c]))|
    ensures written' == Scanned(width, seen + [c], bc)
  {
    written' := written;
    if col == 0 {
      written' := written' + [bc.vertWall, ' '];
    }
    assert written' == Started(width, seen, bc);
    if c == NEW_LINE {
      ScannedNewline(width, seen, bc);
      ScanNewline(seen);
      written' := PadTo(width, col, written');
      written' := written' + [bc.vertWall, NEW_LINE];
      col' := 0;
    } else {
      ScannedOther(width, seen, c, bc);
      ScanOther(seen, c);
      written' := written' + [c];
      col' := col + 1;
    }
  }

  /** The body scanner, over the C string in `input`. States are "at line
      start" (`col == 0`) and "in line": a character read at line start first
      opens a row with wall and space; a newline pads, closes the row and
      returns to line start; any other character is copied. At the first NUL,
      a row still open is padded and closed; nothing is written for an empty
      input or after a final newline. */
  method WriteBody(width: nat, input: seq<char>, bc: BoxChars) returns (written: string, status: int)
    ensures written == Body(width, CStr(input), bc)
    ensures status == EXIT_SUCCESS
  {
    written := [];
    var reader := 0;
    var col: nat := 0;
    ghost var seen: string := [];
    while reader < |input| && input[reader] != NULL_TERM
      invariant reader <= |input|
      invariant seen == input[..reader]
      invariant NULL_TERM !in seen
      invariant col == |Last(Segments(seen))|
      invariant written == Scanned(width, seen, bc)
    {
      var c := input[reader];
      PrefixSnoc(input, reader);
      col, written := ScanChar(width, bc, c, col, written, seen);
      seen := seen + [c];
      reader := reader + 1;
    }
    CStrAt(input, reader);
    ScannedEnd(width, seen, bc);
    if col > 0 {
      written := PadTo(width, col, written);
      written := written + [bc.vertWall, NEW_LINE];
    }
    status := EXIT_SUCCESS;
  }
}
