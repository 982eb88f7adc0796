# Input validation of the linear-system window

The repository is a small desktop tool for solving a square linear system
`A x = b`. It hands the system to a dense solver as an augmented matrix
(`AugmentedMatrix`: the coefficient rows and the right-hand side). Before
that, `LinearSystemWindow` in `ui_app.py` turns raw text into a
well-formed system. This project models that part and proves what it
promises. The text comes from three places:

- **the matrix file reader** (`_read_matrix`). It strips each line and
  skips the blank ones. It splits every other line on runs of whitespace
  and parses each token as a number. It raises "Matrix file contains
  non-numeric values." as soon as a token does not parse. After the loop
  it raises "Matrix file is empty." when no row was read, and "Matrix must
  be square (same number of rows and columns)." when some row's length
  differs from the row count.
- **the right-hand-side file reader** (`_read_vector`). It parses every
  non-blank stripped line as one number, taken whole. It raises "RHS file
  contains non-numeric values." when one does not parse, and "RHS vector
  length must match the matrix size." when the count differs from the
  expected size.
- **the entry grid** (`_collect_matrix`). It walks the table row by row
  and column by column:
  - a cell without an item is skipped;
  - a blank or non-numeric cell records its location as an error;
  - a number in the last column goes to the right-hand side, and any other
    number to the row's coefficients;
  - a row whose coefficient count is not the row count records a marker
    `(row, -1)`.

  The system is returned only when no error was recorded and the
  right-hand side has one entry per row. Otherwise `_highlight_errors`
  colours the recorded cells. It skips the `-1` markers and cells without
  an item.

Modules:

- `Wrappers` (`wrappers.dfy`): `Option` and `Result`.
- `Text` (`text.dfy`): Python's `str.strip()` and `str.split()`, over the
  whitespace set of `str.isspace()`.
- `Numerals` (`numerals.dfy`): `ParseNum`, the number parser standing for
  `float()`. It accepts a plain decimal numeral and returns its exact value.
- `Readers` (`readers.dfy`): the two file readers.
  - `ReadMatrix` and `ReadVector` are loops over the lines, as in the
    source.
  - Each is proved equal to a specification function: `MatrixFromLines`
    or `VectorFromLines`.
  - Lemmas state the line-by-line meaning of those functions and each
    error case as an if-and-only-if.
- `Grid` (`grid.dfy`): the entry grid.
  - The table is a value (`Table`), the rows of optional cell texts.
  - `CollectMatrix` is the nested row/column loop of `_collect_matrix`.
    `HighlightErrors` is the loop of `_highlight_errors`.
  - Both are proved against specification functions (`Collect`,
    `MarkedCells`).
  - Lemmas relate those functions to the cells of the table.

A file is modelled as the sequence of its lines, in file order. The
newline that ends a line is whitespace for `strip()` and needs no separate
treatment.

## Model

| member | source | states |
|---|---|---|
| Readers.ReadMatrix | ui_app.py:325-345 | the loop over the lines returns exactly `MatrixFromLines(lines)`; on success the matrix has at least one row and every row has as many entries as there are rows |
| Readers.MatrixFromLines | ui_app.py:325-345 | a successful result is square with at least one row |
| Readers.MatrixBlankLineIgnored | ui_app.py:328-331 | removing a whitespace-only line leaves the outcome unchanged |
| Readers.MatrixRowOfLine | ui_app.py:328-336 | on success there is one row per non-blank line; the non-blank line `k` is row number (non-blank lines before it); that row is the line's tokens, each parsed, in order |
| Readers.MatrixNonNumericIff | ui_app.py:332-335 | the non-numeric error is raised if and only if some token of some non-blank line does not parse, whatever the shape of the rest |
| Readers.MatrixEmptyIff | ui_app.py:338-339 | the empty-file error is raised if and only if every line is blank |
| Readers.MatrixSuccessIff | ui_app.py:338-345 | success if and only if every token parses, some line is non-blank and every non-blank line has as many tokens as there are non-blank lines |
| Readers.MatrixNotSquareIff | ui_app.py:341-343 | the squareness error is raised if and only if every token parses, some line is non-blank, and some non-blank line's token count differs from the number of non-blank lines |
| Readers.ReadVector | ui_app.py:348-363 | the loop over the lines returns exactly `VectorFromLines(lines, expected)`; on success the vector has `expected` entries |
| Readers.VectorFromLines | ui_app.py:360-363 | a successful result has exactly `expected` entries |
| Readers.VectorBlankLineIgnored | ui_app.py:352-354 | removing a whitespace-only line leaves the outcome unchanged |
| Readers.VectorEntryOfLine | ui_app.py:351-356 | on success there is one entry per non-blank line, in file order, and it is the whole stripped line parsed |
| Readers.VectorNonNumericIff | ui_app.py:355-358 | the non-numeric error is raised if and only if some non-blank stripped line does not parse as a whole |
| Readers.VectorLengthIff | ui_app.py:360-363 | the length error is raised if and only if every line parses and the non-blank count differs from `expected`; success if and only if every line parses and the count equals `expected` |
| Readers.VectorRejectsSeveralTokens | ui_app.py:352-358 | a line holding two or more tokens, such as `1 2`, gives the non-numeric error |
| Readers.ParsedIsOneToken | ui_app.py:356 | a string that parses as a number splits into itself alone |
| Readers.Meaningful | ui_app.py:328-331 | the kept lines are at most as many as the lines and none is empty |
| Readers.MeaningfulEmptyIffAllBlank | ui_app.py:338-339 | no line is kept if and only if every line is blank |
| Readers.MeaningfulAppend | ui_app.py:328-331 | the lines are kept line by line: the kept lines of a concatenation are the concatenated kept lines |
| Readers.ParseAll | ui_app.py:333 | the list comprehension succeeds if and only if every token parses; then it has one value per token, each the token's value, in order |
| Readers.ParseRows | ui_app.py:332-336 | the rows are read if and only if every line's tokens parse; then there is one row per line, each that line's values |
| Text.Split | ui_app.py:333 | every piece of `split()` is non-empty and free of whitespace, and together the pieces are exactly the non-whitespace characters of the line, in order |
| Text.SplitWeave | ui_app.py:333 | `split()` cuts at every run of whitespace, whatever its characters (tab, space, ...): tokens laid out between whitespace separators, non-empty between two tokens, split back into exactly those tokens |
| Text.SplitWoven | ui_app.py:333 | every line is such a layout of its own `split()`: the pieces are the maximal runs of non-whitespace characters, in order, with only whitespace between and around them |
| Text.SplitTokenThen | ui_app.py:333 | a token followed by the end of the line or by any whitespace character is one whole piece, and the split goes on after it |
| Text.SplitAfterSpaces | ui_app.py:333 | whitespace in front of a string does not change its pieces |
| Text.SplitJoinSpaced | ui_app.py:333 | round trip: tokens joined by single spaces split back into the same tokens |
| Text.SplitOfToken | ui_app.py:333 | a non-empty string without whitespace splits into itself alone |
| Text.SplitEmptyIffBlank | ui_app.py:333 | `split()` yields nothing if and only if the string is all whitespace |
| Text.SplitTrimStart | ui_app.py:329-333 | removing the leading whitespace of a line does not change its tokens |
| Text.StripSlice | ui_app.py:329 | `strip()` keeps one contiguous piece of the line, removes only whitespace around it, and the piece neither starts nor ends with whitespace |
| Text.BlankIffAllSpace | ui_app.py:329-331 | a line is skipped (strips to "") if and only if all its characters are whitespace |
| Text.LeadingSpaces | ui_app.py:329 | the count of leading whitespace characters: all of them are whitespace and the next one is not |
| Text.TrailingSpaces | ui_app.py:329 | the count of trailing whitespace characters: all of them are whitespace and the one before is not |
| Numerals.ParseNum | ui_app.py:261 | a string that parses is non-empty and has no whitespace |
| Numerals.ParseDigits | ui_app.py:261 | a string of decimal digits parses to its decimal value |
| Numerals.ParseNegated | ui_app.py:261 | for a string that does not itself start with a sign, a leading minus sign parses exactly when the string does, and negates the value |
| Grid.CollectMatrix | ui_app.py:244-285 | the nested loop returns exactly `Collect(t)`; on failure the highlighted cells are `MarkedCells(t, Errors(t))`, on success none; a collected system has `size` coefficient rows of `size` entries and `size` right-hand-side entries |
| Grid.HighlightErrors | ui_app.py:287-294 | the coloured cells are exactly `MarkedCells(t, locations)` |
| Grid.RowErrors | ui_app.py:253-264 | within a row, a location is recorded if and only if its cell is blank or non-numeric; a cell without an item is never recorded |
| Grid.RowRhs | ui_app.py:266-267 | a row contributes at most one right-hand-side value: that of its last column, when it is a number |
| Grid.RowCoeffs | ui_app.py:268-269 | a row never has more coefficients than coefficient columns, and when it has that many they are the numbers of those columns, in column order |
| Grid.RowCoeffsComplete | ui_app.py:252-269 | when every coefficient cell of a row is a number, the row has a coefficient for each coefficient column |
| Grid.ScanRowsShape | ui_app.py:250-273 | there is one coefficient row per table row, in row order, each that row's coefficients; the right-hand side has at most one entry per row |
| Grid.RowMarkers | ui_app.py:271-272 | a marker `(r, -1)` is recorded if and only if row `r`'s coefficient count is not the row count |
| Grid.CellErrors | ui_app.py:254-264 | a location `(r, c)` with `c != -1` is recorded if and only if the cell is in the table and is blank or non-numeric |
| Grid.RhsComplete | ui_app.py:266-267 | the right-hand side has one entry per row if and only if every row's last cell is a number; then entry `r` is row `r`'s last cell |
| Grid.RowWithoutErrors | ui_app.py:253-264 | a row of numbers records no error |
| Grid.FilledWithoutErrors | ui_app.py:250-273 | a filled grid of n rows and n + 1 columns records no error and no row marker |
| Grid.FilledGrid | ui_app.py:250-275 | with n rows and n + 1 columns: no error and n right-hand-side entries if and only if every cell is a number; then the coefficients are the cells' numbers by position and the right-hand side the last column |
| Grid.ErrorCells | ui_app.py:254-264 | table form of `CellErrors`: a cell location is recorded if and only if the cell holds an item whose stripped text is blank or not a number; a missing item is skipped without an error |
| Grid.ErrorRowMarkers | ui_app.py:271-272 | with n rows and n + 1 columns, `(r, -1)` is recorded if and only if some coefficient cell of row `r` is missing, blank or not a number |
| Grid.HighlightedCells | ui_app.py:287-294 | after a failed collection the highlighted cells are exactly the blank and non-numeric cells; row markers and missing items are never coloured |
| Grid.CollectSucceedsIffFilled | ui_app.py:275-285 | with n rows and n + 1 columns, collection succeeds if and only if every cell holds a number |
| Grid.CollectKeepsPositions | ui_app.py:250-285 | a collected system is the table itself: n by n coefficients, coefficient `(r, c)` the number in cell `(r, c)`, right-hand-side entry `r` the number in the last column of row `r` |
| Grid.FilledScanShowsSystem | ui_app.py:250-285 | the grid form of `CollectKeepsPositions` |
| Grid.RhsOfFilledScan | ui_app.py:266-267 | on a filled grid right-hand-side entry `r` is the number in the last column of row `r` |
| Grid.CoeffsOfFilledScan | ui_app.py:268-273 | on a filled grid coefficient `(r, c)` is the number in cell `(r, c)` and every row has n of them |

Some functions are reference definitions that carry no contract of their
own; the lemmas in the table say what they mean:

- `Text.Strip` is `str.strip()` (ui_app.py:256, 329, 352). `StripSlice`,
  `BlankIffAllSpace`, `LeadingSpaces` and `TrailingSpaces` characterise it.
- `Grid.ReadCell` is the reading of one cell (ui_app.py:253-264): no item,
  a blank or unparsable stripped text, or a number. `ClassifyAt` ties the
  scan to it, and `ErrorCells`, `ErrorRowMarkers` and
  `CollectKeepsPositions` state the outcome in its terms.
- `Readers.MatrixError.Message` and `Readers.VectorError.Message` give the
  exact texts of the raised errors (ui_app.py:335, 339, 343, 358, 361).
  The `...Iff` lemmas of `Readers` say when each error is raised.
- `Grid.MarkedCells` is the set `_highlight_errors` colours
  (ui_app.py:289-294). `HighlightErrors` is proved to colour exactly it,
  and `HighlightedCells` says which cells those are after a failed
  collection.

## Left out

- The dense solver. The window passes the system to `solve_linear_system`
  in `linear_solver.py`, which calls `numpy.linalg.solve`. That code is
  numpy's and works on floating point, so no elimination algorithm is
  modelled here. The other solver wrapper, in `hello_spyder.py`, is left
  out for the same reason.
- `hello_spyder.py` and `LINEAR_INTERP_TI84.py`. Both are console and
  calculator scripts: prompt loops, printing, file writing and two
  floating-point expressions. They are not part of this model.
- The GUI: widget construction, palette, fonts, file dialogs, message
  boxes, rendering and saving the solution.
  - The warning text of `_collect_matrix` is not modelled.
  - Highlighting is modelled as the set of coloured cells. The colours
    themselves are not modelled.
  - `_clear_error_highlights` is modelled only by its effect: no cell is
    coloured after a successful collection.
- The 1..12 clamp of the size spinner that decides the table's shape.
  - The grid lemmas that depend on the shape take n rows and n + 1
    columns as a precondition.
  - `CollectMatrix` itself handles every table shape.
- Opening and decoding the files. The readers take the lines of the file,
  already read.
- Numerals.ParseNum: accepts only an optional sign, digits and at most one
  decimal point, with at least one digit. Python's `float()` also accepts
  exponents, underscores between digits, `inf`, `nan`, non-ASCII decimal
  digits (such as the fullwidth digits U+FF10 to U+FF19) and surrounding
  whitespace. Those are not modelled. Every call site strips its argument
  or passes a token without whitespace, so the surrounding whitespace
  never matters.
- Numerals.ParseNum: returns the exact rational value, not the nearest
  binary floating-point number. Rounding, overflow to infinity and
  negative zero are not modelled.
