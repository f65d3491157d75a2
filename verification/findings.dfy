/** Two defects of the composer as written, each shown on a concrete input,
    and the corrected composer with the intended properties proved. */
module Findings {
  import opened Lines
  import opened Symbols
  import opened Render
  import opened Dims
  import opened Boxing
  import Annotator

  // ---------------------------------------------------------------------
  // The right wall stands one column right of the border's corner.
  // ---------------------------------------------------------------------

  /** As written, a border row is `width + 3` characters but a body row is
      `width + 4`: the border puts its right corner at column `width + 1`
      and ends its line at column `width + 2`, the very column where each
      body row has its right wall. */
  lemma RightWallMisaligned(text: string, bc: BoxChars, i: nat)
    requires bc.Drawable()
    requires i < |BodySegments(text)|
    ensures i < |Segments(text)| && |Segments(text)[i]| <= Width(text)
    ensures var w := Width(text);
            var row := Row(w, Segments(text)[i], bc);
            && |Border(w, bc)| == w + 3 && |row| == w + 4
            && Border(w, bc)[w + 1] == bc.corner
            && row[w + 2] == bc.vertWall && Border(w, bc)[w + 2] == NEW_LINE
            && row[w + 2] != Border(w, bc)[w + 2]
  {
    BodyRowAt(text, bc, i);
    RowShape(Width(text), Segments(text)[i], bc);
    BorderShape(Width(text), bc);
  }

  /** The two-character line "ab": the right wall of its row sticks out one
      column past the border's corner. */
  lemma MisalignedAb()
    ensures BoxText("ab", BOX_CHAR) == "+--+\n" + "| ab|\n" + "+--+\n"
  {
    var border := ['+'] + Repeat('-', 2) + ['+', NEW_LINE];
    assert border == "+--+\n" by {
      assert Repeat('-', 2) == "--";
    }
    Annotator.SingleLine("ab");
  }

  /** The corrected border: `width + 1` horizontal symbols between the
      corners, which makes it `width + 4` characters, as long as a body row. */
  function AlignedBorder(width: nat, bc: BoxChars): string
  {
    Border(width + 1, bc)
  }

  /** The corrected box: aligned borders around the unchanged body. */
  function AlignedBoxText(text: string, bc: BoxChars): string
  {
    var w := Width(text);
    AlignedBorder(w, bc) + Body(w, text, bc) + AlignedBorder(w, bc)
  }

  /** The corrected border and a body row of the same width frame the same
      columns: both are `width + 4` characters, with the frame at columns 0
      and `width + 2` (corners in the border, walls in the row) and the
      newline at `width + 3`. */
  lemma AlignedFrame(width: nat, line: string, bc: BoxChars)
    requires |line| <= width
    ensures |AlignedBorder(width, bc)| == |Row(width, line, bc)| == width + 4
    ensures AlignedBorder(width, bc)[0] == bc.corner && Row(width, line, bc)[0] == bc.vertWall
    ensures AlignedBorder(width, bc)[width + 2] == bc.corner
            && Row(width, line, bc)[width + 2] == bc.vertWall
    ensures AlignedBorder(width, bc)[width + 3] == Row(width, line, bc)[width + 3] == NEW_LINE
  {
    BorderShape(width + 1, bc);
    RowShape(width, line, bc);
  }

  /** The corrected box is a rectangle of `|BodySegments| + 2` rows of
      `width + 4` characters; its first and last rows are the aligned
      border. */
  lemma AlignedBoxBorders(text: string, bc: BoxChars, i: nat)
    requires i == 0 || i == |BodySegments(text)| + 1
    ensures |AlignedBoxText(text, bc)| == (|BodySegments(text)| + 2) * (Width(text) + 4)
    ensures 0 <= i * (Width(text) + 4) <= (i + 1) * (Width(text) + 4) <= |AlignedBoxText(text, bc)|
    ensures AlignedBoxText(text, bc)[i * (Width(text) + 4)..(i + 1) * (Width(text) + 4)]
            == AlignedBorder(Width(text), bc)
  {
    var w := Width(text);
    var body := Body(w, text, bc);
    AlignedBodyLength(text, bc);
    FramedSlice(AlignedBorder(w, bc), body, w + 4, |BodySegments(text)|, i);
  }

  /** Between the aligned borders, row `i` of the corrected box is body row
      `i - 1`: line `i - 1` of the text, drawn at the text's width. */
  lemma AlignedBoxBodyRow(text: string, bc: BoxChars, i: nat)
    requires 0 < i <= |BodySegments(text)|
    ensures i - 1 < |Segments(text)|
    ensures 0 <= i * (Width(text) + 4) <= (i + 1) * (Width(text) + 4) <= |AlignedBoxText(text, bc)|
    ensures AlignedBoxText(text, bc)[i * (Width(text) + 4)..(i + 1) * (Width(text) + 4)]
            == Row(Width(text), Segments(text)[i - 1], bc)
  {
    var w := Width(text);
    var j := i - 1;
    var body := Body(w, text, bc);
    AlignedBodyLength(text, bc);
    FramedSlice(AlignedBorder(w, bc), body, w + 4, |BodySegments(text)|, i);
    BodyRowAt(text, bc, j);
    assert (j + 1) * (w + 4) == i * (w + 4);
  }

  /** The body between the aligned borders is one stride per body segment. */
  lemma AlignedBodyLength(text: string, bc: BoxChars)
    ensures |AlignedBorder(Width(text), bc)| == Width(text) + 4
    ensures |Body(Width(text), text, bc)| == |BodySegments(text)| * (Width(text) + 4)
    ensures AlignedBoxText(text, bc)
            == AlignedBorder(Width(text), bc) + Body(Width(text), text, bc) + AlignedBorder(Width(text), bc)
  {
    BodySegmentsFit(text);
    RowsLength(Width(text), BodySegments(text), bc);
  }

  /** Row `i` of `top + body + top`, where `top` is one stride long and
      `body` is `r` strides: `top` for the first and last row, row `i - 1` of
      `body` in between. */
  lemma FramedSlice(top: string, body: string, stride: nat, r: nat, i: nat)
    requires |top| == stride && |body| == r * stride && i < r + 2
    ensures |top + body + top| == (r + 2) * stride
    ensures 0 <= i * stride <= (i + 1) * stride <= (r + 2) * stride
    ensures i == 0 || i == r + 1 ==> (top + body + top)[i * stride..(i + 1) * stride] == top
    ensures 0 < i <= r ==> 0 <= (i - 1) * stride <= i * stride <= |body|
    ensures 0 < i <= r ==> (top + body + top)[i * stride..(i + 1) * stride]
                           == body[(i - 1) * stride..i * stride]
  {
    StrideBounds(i, r + 2, stride);
    if i == 0 {
      SliceLeft(top, body + top, 0, stride);
      assert top + body + top == top + (body + top);
    } else if i == r + 1 {
      SliceRight(top + body, top);
    } else {
      var j := i - 1;
      StrideBounds(j, r, stride);
      SliceLeft(top + body, top, i * stride, (i + 1) * stride);
      BodySlice(top, body, j, stride);
    }
  }

  /** Slicing past a prefix `top` as long as one stride. */
  lemma BodySlice(top: string, body: string, j: nat, stride: nat)
    requires |top| == stride && (j + 1) * stride <= |body|
    ensures 0 <= j * stride
    ensures (top + body)[(j + 1) * stride..(j + 2) * stride] == body[j * stride..(j + 1) * stride]
  {
    assert (j + 1) * stride == stride + j * stride;
    assert (j + 2) * stride == stride + (j + 1) * stride;
  }

  // ---------------------------------------------------------------------
  // The reserved buffer is too small for every non-empty text.
  // ---------------------------------------------------------------------

  /** The one-line text "ab": 11 bytes reserved, 17 written. */
  lemma CapacityOverrunAb()
    ensures Capacity(Width("ab"), NewlineCount("ab")) == 11
    ensures |BoxText("ab", BOX_CHAR)| + 1 == 17
  {
    MisalignedAb();
    assert NewlineCount("ab") == 0;
    SegmentsPlain("ab");
    assert Width("ab") == MaxLen(["ab"]) == 2 by {
      assert Init(["ab"]) == [];
    }
  }

  /** A capacity that covers the box as written: two border rows of
      `width + 3`, one body row of `width + 4` per newline and one more for an
      unterminated last line, and the NUL. */
  function FittingCapacity(width: nat, rows: nat): nat
  {
    2 * (width + 3) + (rows + 1) * (width + 4) + 1
  }

  /** FittingCapacity always holds the box and its NUL. */
  lemma FittingCapacityCovers(text: string, bc: BoxChars)
    ensures |BoxText(text, bc)| + 1 <= FittingCapacity(Width(text), NewlineCount(text))
  {
    BoxLength(text, bc);
    BodySegmentsCount(text);
    FittingArith(Width(text), NewlineCount(text), if Last(Segments(text)) == "" then 0 else 1);
  }

  /** FittingCapacity leaves no byte unused exactly when the text does not
      end with a newline, that is, when the last line gets a row of its own. */
  lemma FittingCapacityExact(text: string, bc: BoxChars)
    ensures |BoxText(text, bc)| + 1 == FittingCapacity(Width(text), NewlineCount(text))
            <==> Last(Segments(text)) != ""
  {
    BoxLength(text, bc);
    BodySegmentsCount(text);
    FittingArith(Width(text), NewlineCount(text), if Last(Segments(text)) == "" then 0 else 1);
  }

  /** The arithmetic behind FittingCapacityCovers. */
  lemma FittingArith(w: nat, n: nat, t: nat)
    requires t <= 1
    ensures 2 * (w + 3) + (n + t) * (w + 4) + 1 <= 2 * (w + 3) + (n + 1) * (w + 4) + 1
    ensures 2 * (w + 3) + (n + t) * (w + 4) + 1 == 2 * (w + 3) + (n + 1) * (w + 4) + 1 <==> t == 1
  {
    assert (n + 1) * (w + 4) == (n + t) * (w + 4) + (1 - t) * (w + 4);
  }

  /** The buffer size for the aligned box: `rows + 3` rows of stride
      `width + 4`, and the NUL. */
  function AlignedCapacity(width: nat, rows: nat): nat
  {
    (width + 4) * (rows + 3) + 1
  }

  /** The arithmetic behind AlignedBoxedText: `n + t` body rows and two
      borders against `n + 3` reserved rows, all of stride `w + 4`. */
  lemma AlignedArith(w: nat, n: nat, t: nat)
    requires t <= 1
    ensures (n + t + 2) * (w + 4) + 1 <= (w + 4) * (n + 3) + 1
    ensures (n + t + 2) * (w + 4) + 1 == (w + 4) * (n + 3) + 1 <==> t == 1
  {
    assert (w + 4) * (n + 3) == (n + t + 2) * (w + 4) + (1 - t) * (w + 4);
  }

  /** The corrected composer: measures, reserves AlignedCapacity, writes the
      aligned top border, the body, the aligned bottom border and the NUL.
      The buffer always holds what is written into it. */
  method AlignedBoxedText(bc: BoxChars, input: seq<char>) returns (buffer: string, fsize: nat, capacity: nat)
    ensures buffer == AlignedBoxText(CStr(input), bc) + [NULL_TERM]
    ensures fsize + 1 == |buffer| && buffer[fsize] == NULL_TERM
    ensures fsize == (|BodySegments(CStr(input))| + 2) * (Width(CStr(input)) + 4)
    ensures capacity == AlignedCapacity(Width(CStr(input)), NewlineCount(CStr(input)))
    ensures |buffer| <= capacity
    ensures |buffer| == capacity <==> Last(Segments(CStr(input))) != ""
  {
    ghost var text := CStr(input);
    var width, rows, _ := GetDims(input);
    capacity := AlignedCapacity(width, rows);
    var top, _ := HorizontalBorder(width + 1, bc);
    var body, _ := WriteBody(width, input, bc);
    var bottom, _ := HorizontalBorder(width + 1, bc);
    var written := top + body + bottom;
    assert written == AlignedBoxText(text, bc);
    AlignedBoxBorders(text, bc, 0);
    BodySegmentsCount(text);
    AlignedArith(width, rows, if Last(Segments(text)) == "" then 0 else 1);
    buffer := written + [NULL_TERM];
    fsize := |written|;
  }
}
