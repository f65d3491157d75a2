/** The characters a box is drawn with. Both copies of the boxing code use
    '+' corners and '|' walls; they differ only in where the horizontal symbol
    comes from. */
module Symbols {

  datatype BoxChars = BoxChars(corner: char, vertWall: char, horWall: char)
  {
    /** The symbols are line-safe and none is a string terminator, so a
        drawn box also reads back whole as a C string. */
    predicate Drawable()
    {
      LineSafe()
      && corner != '\0' && vertWall != '\0' && horWall != '\0'
    }

    /** None of the symbols is a line break, so a drawn box splits into lines
        exactly where its rows end. */
    predicate LineSafe()
    {
      corner != '\n' && vertWall != '\n' && horWall != '\n'
    }
  }

  /** The status every drawing routine of `src/file_annotator.c` returns. */
  const EXIT_SUCCESS: int := 0

  const CORNERS: char := '+'
  const HORIZONTAL_WALLS: char := '-'
  const VERTICAL_WALLS: char := '|'

  /** The fixed symbol set of `src/file_annotator.c`. */
  const BOX_CHAR: BoxChars := BoxChars('+', '|', '-')

  /** The symbol set of `file_anotator.c`, whose horizontal symbol is a
      parameter of the border routine. */
  function AnotatorChars(symb: char): BoxChars
  {
    BoxChars(CORNERS, VERTICAL_WALLS, symb)
  }
}
