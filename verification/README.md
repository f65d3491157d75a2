# Text boxing, modelled in Dafny

The file annotator draws a frame around a block of text. It measures the
text (`get_dims`), writes a top border (`horizontal_border`), one body row
per line (`body`), and the bottom border into one buffer (`boxed_text`),
then ends the buffer with a NUL. The repository has two copies of this
code:

- `file_anotator.c` passes the horizontal symbol as a parameter `symb`.
  Its helpers return nothing.
- `src/file_annotator.c` takes all three symbols from the constant
  `BOX_CHAR` (`'+'`, `'|'`, `'-'`). Each of its helpers returns
  `EXIT_SUCCESS`.

Apart from that, the two copies are the same code. This project models
them once, with the symbols as a value `Symbols.BoxChars`:

- `file_anotator.c` uses `AnotatorChars(symb)`: corner `'+'`, wall `'|'`,
  and `symb` as the horizontal symbol.
- `src/file_annotator.c` uses `BOX_CHAR`.

The C input is a NUL-terminated buffer. The model takes any
`seq<char>`, and every scanner reads only what comes before the first NUL
(`Lines.CStr`), as the C loops do. No precondition excludes NULs.

Modules:

- `Lines`:
  - C-string reading;
  - splitting the text into `'\n'`-separated segments (`Segments`), with their inverse `Join`;
  - the longest segment (`Width`);
  - the segments that become body rows (`BodySegments`).
- `Symbols`: the box symbols and `EXIT_SUCCESS`.
- `Dims`: `get_dims` as a loop over the buffer.
- `Render`:
  - the border and the body rows as reference definitions;
  - `horizontal_border` and `body` as write-cursor loops, proved equal to those definitions.
- `Boxing`: `boxed_text`, the exact output and length, and the reserved capacity.
- `Anotator`: the `file_anotator.c` copy, drawn with `AnotatorChars(symb)`.
- `Annotator`: the `BOX_CHAR` copy, with the boxes it draws for small inputs.
- `Rebox`: a box split into its lines, and what measuring a box finds.
- `Findings`: two defects, each shown on a concrete input, plus the corrected composer.

Terms used below:

- `w` is the measured width.
- `R` is the number of body rows. It is the number of newlines, plus one when the text does not end in a newline and is not empty.

The code writes `w` horizontal symbols in a border but pads each line only
up to `w` after a wall and a space, so the right wall of every body row
stands one column past the border's corner (`Findings.RightWallMisaligned`,
`Findings.MisalignedAb`). The reserved capacity holds the box only for the
empty text (`Boxing.CapacityIffEmpty`).

## Model

| member | source | states |
|---|---|---|
| Lines.CStr | file_anotator.c:193 | The scanned text is the longest NUL-free prefix of the buffer: what follows it is a NUL or the end of the buffer |
| Lines.CStrAt | file_anotator.c:218 | A prefix with no NUL, followed by a NUL or the buffer's end, is exactly the scanned text, so a loop that stops at the first NUL has read all of it |
| Lines.SegmentsShape | file_anotator.c:193-201 | A text splits into one more segment than it has newlines, and no segment contains a newline |
| Lines.JoinSegments | file_anotator.c:193-201 | Joining the segments with newlines gives the text back, so splitting loses and reorders nothing |
| Lines.SegmentsJoin | file_anotator.c:193-201 | Splitting newline-free lines joined with newlines gives those lines back (the inverse of JoinSegments) |
| Lines.SegmentsConcat | file_anotator.c:193-201 | Splitting a concatenation fuses the last segment of the first part with the first segment of the second, and keeps all other segments |
| Lines.SegmentsPlain | file_anotator.c:193-201 | A text without a newline is a single segment |
| Lines.ScanNewline | file_anotator.c:194-197 | Reading a newline closes the current segment, starts an empty one, and adds one to the newline count |
| Lines.ScanOther | file_anotator.c:198-200 | Reading any other character lengthens the current segment by one and changes neither the closed segments nor the newline count |
| Lines.MaxLenIsMax | file_anotator.c:195 | The width bounds every segment's length, some segment attains it, and it is 0 with no segments |
| Lines.MaxLenUnique | file_anotator.c:202 | Any bound that some segment attains is the width |
| Lines.LastSegmentEmpty | file_anotator.c:240 | The trailing segment is empty exactly when the text is empty or ends in a newline |
| Lines.BodySegmentsCount | src/file_annotator.c:204-231 | The number of body rows is the newline count, plus one for a non-empty trailing segment, and is zero exactly for the empty text |
| Lines.DimsZeroIffEmpty | file_anotator.c:193-202 | A text has width 0 and no newline if and only if it is empty: every character either is a newline or lengthens a segment |
| Lines.BodySegmentsFit | file_anotator.c:226 | Every body line fits the measured width, so padding never underflows |
| Dims.MeasureChar | file_anotator.c:194-200 | One iteration of the measuring loop keeps three invariants: the widest closed segment, the current segment's length, and the newline count, all of the text read so far |
| Dims.GetDims | src/file_annotator.c:169-187 | `rows` is the number of newlines, which an unterminated last line does not raise. `width` bounds every segment, including the trailing one, and some segment attains it. Both are 0 if and only if the scanned text is empty. The status is `EXIT_SUCCESS`; the copy in `file_anotator.c` is the same loop without a status |
| Render.Repeat | file_anotator.c:209 | `n` copies of a character: length `n`, each one equal to it |
| Render.BorderShape | file_anotator.c:205-212 | A border row is `w + 3` characters: corner, `w` horizontal symbols, corner, newline |
| Render.HorizontalBorder | src/file_annotator.c:189-198 | The loop writes exactly the border row: corner, `w` horizontal symbols, corner, newline, `w + 3` characters in all, and returns `EXIT_SUCCESS`. With `BOX_CHAR` that is `'+'`, `w` `'-'`, `'+'`; the copy in `file_anotator.c` takes the horizontal symbol as a parameter |
| Render.RowShape | file_anotator.c:219-236 | A body row for a fitting line is `w + 4` characters: wall, space, the line verbatim, spaces up to column `w + 2`, wall, newline |
| Render.RowsLength | src/file_annotator.c:200-231 | When every line fits, the rows are `w + 4` characters per line |
| Render.RowAt | file_anotator.c:218-237 | When every line fits, row `i` occupies characters `i * (w + 4)` up to `(i + 1) * (w + 4)`, and it is line `i`'s row |
| Render.BodyEmpty | src/file_annotator.c:204-208 | The body is empty exactly for the empty text: any character opens a row, a lone newline included |
| Render.TrailingSegmentClosed | file_anotator.c:239-245 | A non-empty trailing segment is closed exactly as if a newline followed it. After an empty trailing segment, a newline adds one full row of padding, as every empty interior line does |
| Render.PadTo | file_anotator.c:226-227 | The padding loop appends `w - col` spaces when `col < w`, and none otherwise |
| Render.StartedOpen | file_anotator.c:219-222 | Once the scanner has opened the row for the next character, its output is the rows of the closed segments followed by wall, space and the current segment |
| Render.ScannedNewline | file_anotator.c:224-232 | Reading a newline pads the open row to the width and closes it with a wall and a newline |
| Render.ScannedOther | file_anotator.c:233-235 | Reading any other character copies it verbatim after what has been written so far |
| Render.ScannedEnd | file_anotator.c:239-245 | After the loop, the body is complete if the trailing segment is empty; otherwise it needs only padding, the wall and the newline |
| Render.ScanChar | file_anotator.c:218-236 | One iteration of the body loop keeps two invariants: the column count is the current segment's length, and the output is the rows of the closed segments followed by the open row |
| Render.WriteBody | src/file_annotator.c:200-234 | The loop writes exactly the reference body of the scanned text: one row per body segment, in input order, and no row for an empty trailing segment. The status is `EXIT_SUCCESS`; the copy in `file_anotator.c` is the same loop without a status |
| Boxing.BoxLength | file_anotator.c:178-183 | The box is `2 * (w + 3) + R * (w + 4)` characters |
| Boxing.BodyRowAt | src/file_annotator.c:204-223 | Body row `i` lies at offset `i * (w + 4)` and is line `i` of the text drawn at the measured width |
| Boxing.BodyRow | file_anotator.c:219-236 | Stripping body row `i`'s wall and space gives line `i` of the input verbatim, followed only by spaces up to column `w + 2`, then the wall and the newline |
| Boxing.CapacityOverrun | file_anotator.c:173-183 | Written bytes minus the reserved capacity is the newline count, plus `w + 4` for a non-empty trailing segment |
| Boxing.CapacityIffEmpty | file_anotator.c:173-183 | The reserved capacity holds the box and its NUL if and only if the text is empty |
| Boxing.BoxedText | file_anotator.c:169-185 | The buffer is top border, body, bottom border and a NUL. The reported length is `2 * (w + 3) + R * (w + 4)`, with the NUL just past it. The reserved capacity is `(w + 3) * (rows + 2) + 1`, and the buffer fits in it if and only if the input is empty |
| Anotator.BoxedText | file_anotator.c:169-185 | With `AnotatorChars(symb)`, the buffer is the box and a NUL, and its first and last rows are `'+'`, `w` copies of `symb`, `'+'` and a newline. With `symb` = `HORIZONTAL_WALLS`, as all three callers (`prepend`, `box_from_file`, `box_from_string_to_stdo`) pass it, the buffer is the box the `BOX_CHAR` copy draws |
| Annotator.BoxedText | src/file_annotator.c:150-167 | With `BOX_CHAR`, the buffer is the box and a NUL, and its first and last rows are `'+'`, `w` `'-'`, `'+'` and a newline |
| Annotator.EmptyInput | src/file_annotator.c:154-164 | The empty text gives `"++\n++\n"`, 6 characters plus the NUL, which is exactly the capacity of 7 |
| Annotator.SingleLine | src/file_annotator.c:200-231 | A non-empty line without a newline gives the border, then wall, space, the line, wall and newline with no padding, then the border again |
| Annotator.TwoLinesSegments | src/file_annotator.c:169-187 | `"hi\nthere\n"` has segments `"hi"`, `"there"` and an empty trailing one. Its width is 5 and it has two body rows |
| Annotator.TwoLinesRows | src/file_annotator.c:210-216 | At width 5 the row of `"hi"` carries three spaces of padding and the row of `"there"` none; both are 9 characters |
| Annotator.TwoLines | src/file_annotator.c:150-167 | `"hi\nthere\n"` is boxed as `"+-----+\n"`, the two rows, and `"+-----+\n"` |
| Rebox.SegmentsLined | file_anotator.c:193-201 | Splitting newline-free lines, each ended by a newline, gives those lines back followed by one empty segment |
| Rebox.BoxLined | file_anotator.c:178-180 | The box is its border line, one row line per body segment and the border line again, each ended by a newline |
| Rebox.BoxLinesNewlineFree | file_anotator.c:205-245 | With no symbol a newline, no line of the box holds a newline |
| Rebox.BoxSegments | file_anotator.c:178-180 | With no symbol a newline, splitting the box gives back its lines followed by one empty segment |
| Rebox.BoxLinesWidth | file_anotator.c:205-245 | The longest line of a box is `w + 3` when it has a body row and `w + 2` when it has none |
| Rebox.ReboxRows | file_anotator.c:193-197 | With no symbol a newline, measuring a box counts `R + 2` newlines: one after each border and one after each body row |
| Rebox.ReboxGrowth | file_anotator.c:187-202 | With no symbol a newline, measuring a box finds a width of `w + 3` when the text has a body row and `w + 2` when it has none |
| Rebox.ReboxAb | file_anotator.c:187-202 | The box of `"ab"` measures 5 wide, 3 more than `"ab"` |
| Findings.RightWallMisaligned | src/file_annotator.c:192-216 | Every body row is one character longer than a border row. Its right wall is at column `w + 2`, where the border has its newline. The border's right corner is at column `w + 1` |
| Findings.MisalignedAb | file_anotator.c:205-245 | `"ab"` is boxed as `"+--+\n"`, then wall, space, `"ab"`, wall, newline, then `"+--+\n"` again: the wall sits under the border's newline |
| Findings.AlignedFrame | src/file_annotator.c:192-216 | The corrected border and a body row are both `w + 4` characters. Their frame stands at columns 0 and `w + 2` and their newline at `w + 3` |
| Findings.AlignedBodyLength | src/file_annotator.c:200-231 | The corrected box is the aligned border, the body of `R * (w + 4)` characters, and the aligned border again |
| Findings.AlignedBoxBorders | src/file_annotator.c:159-161 | The corrected box has `(R + 2) * (w + 4)` characters, and its first and last rows are the aligned border |
| Findings.AlignedBoxBodyRow | src/file_annotator.c:159-161 | Row `i` of the corrected box lies at offset `i * (w + 4)` and is line `i - 1` of the text |
| Findings.CapacityOverrunAb | file_anotator.c:173-183 | For `"ab"`, 11 bytes are reserved and 17 are written |
| Findings.FittingCapacityCovers | file_anotator.c:173 | The corrected capacity `2 * (w + 3) + (rows + 1) * (w + 4) + 1` always holds the box and its NUL |
| Findings.FittingCapacityExact | file_anotator.c:173 | The corrected capacity is exact if and only if the trailing segment is non-empty |
| Findings.AlignedBoxedText | src/file_annotator.c:150-167 | The corrected composer writes the aligned box and a NUL, into a reservation of `(w + 4) * (rows + 3) + 1`. This always holds the bytes written, and equals them exactly when the trailing segment is non-empty |

## Left out

- `main`, `check_args` and `assign_file_path` are left out. They parse arguments with `getopt` and `access` and call `exit`, which is process plumbing around the core.
- `prepend`, `box_from_file` and `box_from_string_to_stdo` are left out. They are file I/O (`fopen`, `fseek`, `fread`, `fwrite`); `box_from_string_to_stdo` also hard-codes its file names.
- The `IO_filestream` struct is left out. Only the I/O layer uses it.
- `malloc` is not modelled. A failed allocation goes unchecked in the source. The model keeps only the requested size, `capacity`, and compares it with what is written.
- Writes past the reserved capacity are undefined behaviour in C. The model does not model memory. It states the overrun as a comparison of sizes (`Boxing.CapacityIffEmpty`).
- `size_t` wrap-around is not modelled; widths, counts and the capacity product are unbounded integers. The counters cannot wrap, since each is at most the input's length. The capacity product `(w + 3) * (rows + 2) + 1` can wrap for inputs of about `2 * sqrt(SIZE_MAX)` bytes: about 2^33 bytes with a 64-bit `size_t`, about 128 KiB with a 32-bit one. A wrapped capacity is only smaller, so it worsens the overrun the model already states for every non-empty text (`Boxing.CapacityOverrun`).
- `body` receives `&input_buffer` and never advances the caller's pointer. The model has no caller-visible reader for it to update.
- The characters are not interpreted. The model's characters stand for the C bytes, and every one other than newline and NUL is copied as is and counts as one column, as `current++` and `col_count++` do. A tab is one column, and a multi-byte character is several characters and several columns.

## Findings

| source | as written | input that shows it | evidently intended | confidence | as-written member | corrected member |
|---|---|---|---|---|---|---|
| src/file_annotator.c:192-216 | A border row draws `w` horizontal symbols (`w + 3` characters), but a body row is `w + 4` characters. | `"ab"`: the border `"+--+"` is 4 characters wide, its row 5, so the right wall stands one column past the right corner. | Border and body rows of equal length, with the corners above the walls. | medium, not executed | Findings.RightWallMisaligned | Findings.AlignedFrame |
| src/file_annotator.c:154 | The capacity `(w + 3) * (rows + 2) + 1` assumes stride `w + 3` and `rows` body rows. | `"ab"` reserves 11 bytes and writes 17. | A capacity that holds every box: `2 * (w + 3) + (rows + 1) * (w + 4) + 1`. | high, not executed | Findings.CapacityOverrunAb | Findings.FittingCapacityCovers |
