/** The copy in `file_anotator.c`: the same composer, whose border routine
    takes the horizontal symbol as a parameter. */
module Anotator {
  import opened Lines
  import opened Symbols
  import opened Render
  import opened Boxing

  /** `boxed_text(symb, input_buffer, &fsize)` of `file_anotator.c`: corners
      '+', walls '|', and `symb` along both borders. Called with
      `HORIZONTAL_WALLS`, as all three callers (`prepend`, `box_from_file`,
      `box_from_string_to_stdo`) call it, it draws exactly the box of
      `src/file_annotator.c`. */
  method BoxedText(symb: char, input: seq<char>) returns (buffer: string, fsize: nat)
    ensures buffer == BoxText(CStr(input), AnotatorChars(symb)) + [NULL_TERM]
    ensures fsize + 1 == |buffer|
    ensures var w := Width(CStr(input));
            && buffer[..w + 3] == ['+'] + Repeat(symb, w) + ['+', NEW_LINE]
            && buffer[fsize - (w + 3)..fsize] == ['+'] + Repeat(symb, w) + ['+', NEW_LINE]
    ensures symb == HORIZONTAL_WALLS ==> buffer == BoxText(CStr(input), BOX_CHAR) + [NULL_TERM]
  {
    var capacity;
    buffer, fsize, capacity := Boxing.BoxedText(AnotatorChars(symb), input);
    ghost var bc := AnotatorChars(symb);
    ghost var w := Width(CStr(input));
    ghost var body := Body(w, CStr(input), bc);
    assert buffer == Border(w, bc) + body + Border(w, bc) + [NULL_TERM];
    assert buffer[..w + 3] == Border(w, bc);
    assert buffer[fsize - (w + 3)..fsize] == Border(w, bc);
  }
}
