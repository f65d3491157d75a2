/** The box composer: measure, then top border, body and bottom border into
    one buffer reserved from the measured dimensions, then a NUL. */
module Boxing {
  import opened Lines
  import opened Symbols
  import opened Render
  import opened Dims

  /** The boxed text, without the terminating NUL. */
  function BoxText(text: string, bc: BoxChars): string
  {
    var w := Width(text);
    Border(w, bc) + Body(w, text, bc) + Border(w, bc)
  }

  /** The buffer size the composer reserves: `rows + 2` rows of stride
      `width + 3` and one byte for the NUL. */
  function Capacity(width: nat, rows: nat): nat
  {
    (width + 3) * (rows + 2) + 1
  }

  /** Two border rows of `width + 3` characters and one body row of
      `width + 4` per body segment. */
  lemma BoxLength(text: string, bc: BoxChars)
    ensures |BoxText(text, bc)| == 2 * (Width(text) + 3) + |BodySegments(text)| * (Width(text) + 4)
  {
    BodySegmentsFit(text);
    RowsLength(Width(text), BodySegments(text), bc);
  }

  /** Body row `i` is line `i` of the text drawn at the text's width: the
      `width + 4` characters at offset `i * (width + 4)`. */
  lemma BodyRowAt(text: string, bc: BoxChars, i: nat)
    requires i < |BodySegments(text)|
    ensures i < |Segments(text)| && |Segments(text)[i]| <= Width(text)
    ensures var w := Width(text);
            && (i + 1) * (w + 4) <= |Body(w, text, bc)|
            && Body(w, text, bc)[i * (w + 4)..(i + 1) * (w + 4)] == Row(w, Segments(text)[i], bc)
  {
    var segs := BodySegments(text);
    assert segs[i] == Segments(text)[i];
    BodySegmentsFit(text);
    RowAt(Width(text), segs, bc, i);
  }

  /** Stripping a body row gives the line back: past its wall and space,
      row `i` holds line `i` of the text verbatim, then only spaces up to
      column `width + 2`, where the closing wall stands before the newline. */
  lemma BodyRow(text: string, bc: BoxChars, i: nat)
    requires i < |BodySegments(text)|
    ensures i < |Segments(text)| && |Segments(text)[i]| <= Width(text)
    ensures var w := Width(text);
            var line := Segments(text)[i];
            && (i + 1) * (w + 4) <= |Body(w, text, bc)|
            && var row := Body(w, text, bc)[i * (w + 4)..(i + 1) * (w + 4)];
            && |row| == w + 4
            && row[0] == bc.vertWall && row[1] == ' '
            && row[2..2 + |line|] == line
            && (forall k :: 2 + |line| <= k < w + 2 ==> row[k] == ' ')
            && row[w + 2] == bc.vertWall && row[w + 3] == NEW_LINE
  {
    BodyRowAt(text, bc, i);
    RowShape(Width(text), Segments(text)[i], bc);
  }

  /** Against the reserved capacity, the box and its NUL overrun by one byte
      per newline, plus `width + 4` for a non-empty trailing segment. */
  lemma CapacityOverrun(text: string, bc: BoxChars)
    ensures |BoxText(text, bc)| + 1
            == Capacity(Width(text), NewlineCount(text)) + NewlineCount(text)
               + (if Last(Segments(text)) == "" then 0 else Width(text) + 4)
  {
    BoxLength(text, bc);
    BodySegmentsCount(text);
    OverrunArith(Width(text), NewlineCount(text), |BodySegments(text)|, Last(Segments(text)) != "");
  }

  /** The reserved capacity holds the box and its NUL only for the empty
      text, which it fills exactly; every non-empty text overruns it. */
  lemma CapacityIffEmpty(text: string, bc: BoxChars)
    ensures |BoxText(text, bc)| + 1 <= Capacity(Width(text), NewlineCount(text)) <==> text == []
  {
    CapacityOverrun(text, bc);
    BodySegmentsCount(text);
  }

  /** The arithmetic behind CapacityOverrun: `r` rows of stride `w + 4`,
      one more than `n` when a trailing row is drawn, against `n` rows of
      stride `w + 3`. */
  lemma OverrunArith(w: nat, n: nat, r: nat, trailing: bool)
    requires r == n + (if trailing then 1 else 0)
    ensures 2 * (w + 3) + r * (w + 4) + 1
            == (w + 3) * (n + 2) + 1 + n + (if trailing then w + 4 else 0)
  {
    assert (w + 3) * (n + 2) == n * (w + 3) + 2 * (w + 3);
    if trailing {
      assert r * (w + 4) == n * (w + 3) + n + (w + 4);
    } else {
      assert r * (w + 4) == n * (w + 3) + n;
    }
  }

  /** The composer over the buffer `input`, read as a C string: measures,
      reserves `Capacity` bytes, writes top border, body, bottom border and a
      NUL, and reports the length written without the NUL. */
  method BoxedText(bc: BoxChars, input: seq<char>) returns (buffer: string, fsize: nat, capacity: nat)
    ensures buffer == BoxText(CStr(input), bc) + [NULL_TERM]
    ensures fsize + 1 == |buffer| && buffer[fsize] == NULL_TERM
    ensures fsize == 2 * (Width(CStr(input)) + 3)
                     + |BodySegments(CStr(input))| * (Width(CStr(input)) + 4)
    ensures capacity == Capacity(Width(CStr(input)), NewlineCount(CStr(input)))
    ensures |buffer| <= capacity <==> CStr(input) == []
  {
    ghost var text := CStr(input);
    var width, rows, _ := GetDims(input);
    capacity := Capacity(width, rows);
    var top, _ := HorizontalBorder(width, bc);
    var body, _ := WriteBody(width, input, bc);
    var bottom, _ := HorizontalBorder(width, bc);
    var written := top + body + bottom;
    assert written == BoxText(text, bc);
    BoxLength(text, bc);
    CapacityOverrun(text, bc);
    CapacityIffEmpty(text, bc);
    buffer := written + [NULL_TERM];
    fsize := |written|;
  }
}
