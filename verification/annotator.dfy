/** The copy in `src/file_annotator.c`: the same composer drawn with the
    fixed symbol set `BOX_CHAR`, and the boxes it produces for small inputs. */
module Annotator {
  import opened Lines
  import opened Symbols
  import opened Render
  import opened Boxing

  /** `boxed_text` of `src/file_annotator.c`: the composer with the fixed
      symbols '+', '|' and '-'. */
  method BoxedText(input: seq<char>) returns (buffer: string, fsize: nat)
    ensures buffer == BoxText(CStr(input), BOX_CHAR) + [NULL_TERM]
    ensures fsize + 1 == |buffer|
    ensures var w := Width(CStr(input));
            && buffer[..w + 3] == ['+'] + Repeat('-', w) + ['+', NEW_LINE]
            && buffer[fsize - (w + 3)..fsize] == ['+'] + Repeat('-', w) + ['+', NEW_LINE]
  {
    var capacity;
    buffer, fsize, capacity := Boxing.BoxedText(BOX_CHAR, input);
    ghost var w := Width(CStr(input));
    ghost var body := Body(w, CStr(input), BOX_CHAR);
    assert buffer == Border(w, BOX_CHAR) + body + Border(w, BOX_CHAR) + [NULL_TERM];
    assert buffer[..w + 3] == Border(w, BOX_CHAR);
    assert buffer[fsize - (w + 3)..fsize] == Border(w, BOX_CHAR);
  }

  /** The empty input gives two bare border rows, six characters, in a
      buffer of seven: the one input the reserved capacity holds. */
  lemma EmptyInput()
    ensures BoxText([], BOX_CHAR) == "++\n++\n"
    ensures Capacity(Width([]), NewlineCount([])) == |BoxText([], BOX_CHAR)| + 1 == 7
  {
    assert Segments([]) == [""];
    assert Width([]) == 0;
    assert BodySegments([]) == [];
    assert Border(0, BOX_CHAR) == "++\n";
  }

  /** A single unterminated line of length `L` gives a border of `L + 3`,
      one body row of `L + 4` without padding, and the border again. */
  lemma SingleLine(text: string)
    requires text != [] && NEW_LINE !in text
    ensures var L := |text|;
            var border := ['+'] + Repeat('-', L) + ['+', NEW_LINE];
            BoxText(text, BOX_CHAR) == border + ['|', ' '] + text + ['|', NEW_LINE] + border
  {
    var L := |text|;
    SegmentsPlain(text);
    assert Init([text]) == [];
    assert MaxLen([]) == 0;
    assert Last([text]) == text;
    assert MaxLen([text]) == L;
    assert Width(text) == L;
    assert BodySegments(text) == [text];
    assert Rows(L, [text], BOX_CHAR) == Row(L, text, BOX_CHAR);
    assert Repeat(' ', 0) == [];
  }

  /** Two newline-terminated lines: the box is as wide as the longer one and
      the shorter one is padded with spaces. */
  lemma TwoLines()
    ensures BoxText("hi\nthere\n", BOX_CHAR)
         == "+-----+\n" + "| hi   |\n" + "| there|\n" + "+-----+\n"
  {
    TwoLinesSegments();
    TwoLinesRows();
    assert Border(5, BOX_CHAR) == "+-----+\n" by {
      assert Repeat('-', 5) == "-----";
    }
  }

  /** The two body rows of that box. */
  lemma TwoLinesRows()
    ensures Rows(5, ["hi", "there"], BOX_CHAR) == "| hi   |\n" + "| there|\n"
  {
    assert Rows(5, ["hi"], BOX_CHAR) == Row(5, "hi", BOX_CHAR) by {
      assert Init(["hi"]) == [];
    }
    assert Init(["hi", "there"]) == ["hi"];
    assert Row(5, "hi", BOX_CHAR) == "| hi   |\n" by {
      assert Repeat(' ', 3) == "   ";
    }
    assert Row(5, "there", BOX_CHAR) == "| there|\n" by {
      assert Repeat(' ', 0) == "";
    }
  }

  /** The measurements of that text. */
  lemma TwoLinesSegments()
    ensures Segments("hi\nthere\n") == ["hi", "there", ""]
    ensures Width("hi\nthere\n") == 5
    ensures BodySegments("hi\nthere\n") == ["hi", "there"]
  {
    var lines := ["hi", "there", ""];
    assert Init(lines) == ["hi", "there"];
    assert Init(["hi", "there"]) == ["hi"];
    assert Join(["hi"]) == "hi";
    assert Join(["hi", "there"]) == "hi\nthere";
    assert Join(lines) == "hi\nthere\n";
    SegmentsJoin(lines);
    assert MaxLen(["hi"]) == 2 by {
      assert Init(["hi"]) == [];
    }
    assert MaxLen(["hi", "there"]) == 5;
  }
}
