# Sparse matrix

A model of the `SparseMatrix` class of a small sparse-matrix tool. A matrix is
its declared `rows` and `cols` and a dictionary `elements` from `(row, col)` to
an integer; a position that is not stored reads as 0. The class loads a matrix
from a text file in the format

    rows=<integer>
    cols=<integer>
    (row,col,value)
    ...

and adds, subtracts and multiplies matrices, each operation building a new
matrix and leaving both operands unchanged.

The project has five modules:

- `Wrappers` (`wrappers.dfy`): `Option`, `Result` and `Outcome`. Errors that the
  class raises as exceptions are returned as values here.
- `Text` (`text.dfy`): the string operations the loader relies on. These are
  `str.strip` over a set of characters, `str.split` on one separator, and
  `int()` on a decimal literal: surrounding whitespace, an optional sign, then
  digits. `int()` skips fewer whitespace characters than `str.strip()`: the
  separators U+001C to U+001F are stripped off a line but refused inside a
  number, so the two sets are kept apart (`Whitespace`, `IntWhitespace`).
  Splitting and parsing each have an inverse (`JoinWith`, `IntToString`) and a
  round-trip lemma. Stripping, which loses information, has the round trip
  `StripWrapped` (stripping the parentheses off a wrapped string) and
  `StripSlice`, which says exactly which characters are kept.
- `Algebra` (`algebra.dfy`): the mathematical reference for the operations.
  - `Get` and `Assign` are the reading and writing of a sparse map.
  - `PointwiseSum` and `PointwiseDifference` are the entry-wise sum and difference.
  - The product entry is `TermSum`, a sum over the set of pairs of stored
    positions `((i, j), (j, k))`. Being a sum over a set, it is independent of
    the order the terms are taken in.
  - `IsProduct` says that a map stores exactly the non-zero product entries.
- `LineFormat` (`line_format.dfy`): the loader's parse of the file's lines as a
  function `ParseMatrix`, with the four ways it can fail. It also has a writer
  for the same format (`FormatLines`), used only to state the round trip.
- `Matrix` (`matrix.dfy`): the class `SparseMatrix`. It has the fields `rows`,
  `cols` and `elements` (a `map`). Reading a position is the function
  `GetElement`; writing one, loading and the arithmetic are methods, proved
  against the `Algebra` and `LineFormat` functions. `Add`, `Subtract`,
  `Multiply` and `BuildRowIndex` (the row index `multiply` builds) loop over
  the set of keys still to do; `LoadElements` loops over the element lines by
  index.

The dictionary's iteration order is an arbitrary choice (`:|`) at every step,
so each loop's result is proved for every order in which the entries can be
visited.

The class docstring (`dsa/sparse_matrix/code/src/matrix.py:10`) says only
non-zero elements are stored. Three operations do not keep this:

- `add` and `subtract` (lines 62 and 79) keep an entry whose values cancel to 0.
- `load_from_file` (line 45) stores a 0 read from an element line.

The model follows the code. `Algebra.SumCanStoreZero`,
`Algebra.DifferenceWithSelf` and `LineFormat.ExampleUncheckedEntries` show the
stored zeros. Only `multiply`, which writes through `set_element`, stores no 0;
its contract says so.

Loading follows the code in three more ways:

- A header line contributes the text between its first `=` and the next one,
  if any; the `rows`/`cols` prefix is not checked.
- Element positions are not checked against the header dimensions.
- The loaded entries are written over whatever the matrix already stores.

## Model

| member | source | states |
|---|---|---|
| Matrix.SparseMatrix.constructor | dsa/sparse_matrix/code/src/matrix.py:12-15 | a new matrix has 0 rows, 0 cols and no stored entries |
| Matrix.SparseMatrix.GetElement | dsa/sparse_matrix/code/src/matrix.py:110-112 | the stored value when (row, col) is stored, otherwise 0, with no bounds check |
| Matrix.SparseMatrix.SetElement | dsa/sparse_matrix/code/src/matrix.py:114-122 | the position then reads as the value written, and every other position and both dimensions keep their values. Writing 0 leaves the position unstored and is a no-op when it was not stored. A map with no stored 0 keeps having none |
| Algebra.GetAssign | dsa/sparse_matrix/code/src/matrix.py:114-122 | after a sparse write, the written position reads as the value and every other position reads as before |
| Algebra.AssignKeepsNoZeros | dsa/sparse_matrix/code/src/matrix.py:117-122 | a sparse write never stores a 0, and writing 0 removes the position |
| Matrix.SparseMatrix.LoadFromLines | dsa/sparse_matrix/code/src/matrix.py:31-45 | the outcome is the parse's outcome and its error kind. On success the dimensions are the header values and the entries are the old ones overwritten by the element lines in order. On each failure the fields hold what was set before the failing step |
| Matrix.SparseMatrix.LoadElements | dsa/sparse_matrix/code/src/matrix.py:40-45 | the element loop writes the entries of the lines before the first bad line, in order, over the existing entries, and reports that line's error |
| LineFormat.NonBlankLines | dsa/sparse_matrix/code/src/matrix.py:31 | no more lines than the input, each non-blank and with no whitespace at either end |
| LineFormat.NonBlankLinesOne | dsa/sparse_matrix/code/src/matrix.py:31 | one line is dropped when it strips to nothing, and otherwise kept in its stripped form |
| LineFormat.NonBlankLinesConcat | dsa/sparse_matrix/code/src/matrix.py:31 | the cleaned lines of two runs of lines, one after the other, are the cleaned lines of each, in order |
| LineFormat.NonBlankLinesUnchanged | dsa/sparse_matrix/code/src/matrix.py:31 | lines that are already stripped and non-blank pass through unchanged |
| LineFormat.ParseMatrix | dsa/sparse_matrix/code/src/matrix.py:31-45 | fewer than two non-blank lines is insufficient data. A parse that succeeds has the first two lines' header values as its dimensions and one entry per remaining line |
| LineFormat.ParseMatrixRead | dsa/sparse_matrix/code/src/matrix.py:36-44 | a header that is not an integer gives a bad header. On success each entry is the parse of its element line. An element failure is the error of the first element line that does not parse, every line before it parsing |
| LineFormat.HeaderValue | dsa/sparse_matrix/code/src/matrix.py:36-37 | a header line without '=' is refused |
| LineFormat.ParseElement | dsa/sparse_matrix/code/src/matrix.py:41-44 | a line is a wrong format exactly when it is not wrapped in parentheses. Any other failure is a bad element, and a line that parses has exactly three comma-separated fields |
| LineFormat.ParseElementFields | dsa/sparse_matrix/code/src/matrix.py:41-44 | a line "(x,y,z)" of three comma-free fields, the first not starting and the last not ending with a parenthesis (empty fields allowed), is the entry of the three integers when each field is one, and a bad element otherwise |
| LineFormat.ParseElementByStrip | dsa/sparse_matrix/code/src/matrix.py:41-44 | two wrapped lines that strip to the same text parse alike, however many parentheses each carries |
| LineFormat.ParseExtraParen | dsa/sparse_matrix/code/src/matrix.py:43 | an extra '(' before any written element line still parses back to its entry, since strip('()') removes every parenthesis at the ends |
| LineFormat.ScanElements | dsa/sparse_matrix/code/src/matrix.py:40-44 | a scan without failure reads every line; a failing one stops before the end |
| LineFormat.ScanEntriesRead | dsa/sparse_matrix/code/src/matrix.py:40-45 | each scanned entry is the parse of the line at the same index |
| LineFormat.ScanFailureRead | dsa/sparse_matrix/code/src/matrix.py:41-44 | a failure is the error of the line right after the scanned entries |
| LineFormat.ScanStopsAtFailure | dsa/sparse_matrix/code/src/matrix.py:40-42 | once a line fails, the lines after it do not change the scan |
| LineFormat.ScanStep | dsa/sparse_matrix/code/src/matrix.py:40-45 | one more line either appends its entry or ends the whole scan with its error |
| LineFormat.ScanSnoc | dsa/sparse_matrix/code/src/matrix.py:40-45 | a line that parses, after lines that all parsed, appends its entry |
| LineFormat.ScanParsedLines | dsa/sparse_matrix/code/src/matrix.py:40-45 | lines that each parse to the matching entry scan to exactly those entries |
| LineFormat.EntryMap | dsa/sparse_matrix/code/src/matrix.py:45 | the last element line's position holds that line's value |
| LineFormat.EntryMapKeys | dsa/sparse_matrix/code/src/matrix.py:45 | after the element lines, a position is stored exactly when some line names it |
| LineFormat.EntryMapLookup | dsa/sparse_matrix/code/src/matrix.py:45 | a position holds the value of the last element line that names it, 0 included |
| LineFormat.EntryMapSnoc | dsa/sparse_matrix/code/src/matrix.py:45 | one more element line overwrites its position, also when the lines are written over existing entries |
| LineFormat.HeaderValueOfText | dsa/sparse_matrix/code/src/matrix.py:36-37 | a header line of any name without '=', then '=' and any text without '=', optionally followed by '=' and more text, yields int() of that text |
| LineFormat.ExampleHeaderPadded | dsa/sparse_matrix/code/src/matrix.py:36 | "rows= +7" reads as 7 |
| LineFormat.ExampleHeaderLetters | dsa/sparse_matrix/code/src/matrix.py:36 | "rows=abc" is refused |
| LineFormat.HeaderValueOfFormat | dsa/sparse_matrix/code/src/matrix.py:36-37 | a header line of any name without '=', then '=' and an integer, reads back as that integer |
| LineFormat.FormatLinesHeaders | dsa/sparse_matrix/code/src/matrix.py:36-37 | the written rows= and cols= lines read back as the dimensions |
| LineFormat.ParseFormatEntry | dsa/sparse_matrix/code/src/matrix.py:41-44 | a written element line "(row,col,value)" parses back to its entry |
| LineFormat.ParseFormatLines | dsa/sparse_matrix/code/src/matrix.py:31-45 | the written lines of any dimensions and entries parse back to the same dimensions and entries |
| LineFormat.ParseFormattedMatrix | dsa/sparse_matrix/code/src/matrix.py:31-45 | writing a matrix's entries one line per stored position, in any order, and loading the lines gives back the same dimensions and stored entries |
| LineFormat.EnumerationExists | dsa/sparse_matrix/code/src/matrix.py:15 | every stored dictionary can be listed with each position exactly once |
| LineFormat.EnumerationMap | dsa/sparse_matrix/code/src/matrix.py:45 | element lines that list a dictionary once per position load back to that dictionary |
| LineFormat.ExampleDiagonal | dsa/sparse_matrix/code/src/matrix.py:31-45 | a two-entry diagonal file loads to its dimensions and entries |
| LineFormat.ExampleUncheckedEntries | dsa/sparse_matrix/code/src/matrix.py:40-45 | a position outside the declared dimensions is accepted, and a 0 value is kept |
| LineFormat.ExampleHeaders | dsa/sparse_matrix/code/src/matrix.py:36-37 | a header of any name is read, only the text up to a second '=' counts, and a header without '=' is refused |
| LineFormat.ExampleSeparatorStripped | dsa/sparse_matrix/code/src/matrix.py:31 | a line starting with the separator U+001C is stripped of it |
| LineFormat.ExampleSeparatorInHeader | dsa/sparse_matrix/code/src/matrix.py:36 | a header value starting with U+001C is refused |
| LineFormat.ExampleSeparatorInElement | dsa/sparse_matrix/code/src/matrix.py:44 | an element field starting with U+001C makes the line a bad element |
| LineFormat.ExampleEmptyField | dsa/sparse_matrix/code/src/matrix.py:44 | "(,1,2)" is refused as a bad element, since an empty field is not an integer |
| LineFormat.ExampleTwoFields | dsa/sparse_matrix/code/src/matrix.py:44 | an element line with two fields is refused as a bad element |
| Text.Strip | dsa/sparse_matrix/code/src/matrix.py:43 | the result is no longer than its input, neither end is a stripped character, and it is empty exactly when every character is stripped |
| Text.StripSlice | dsa/sparse_matrix/code/src/matrix.py:31 | the result is the slice of the input that starts right after its leading run of stripped characters, and every character before or after that slice is a stripped one |
| Text.StripUnchanged | dsa/sparse_matrix/code/src/matrix.py:31 | a string with no stripped character at either end is unchanged |
| Text.StripWrapped | dsa/sparse_matrix/code/src/matrix.py:43 | stripping the parentheses off "(" + x + ")" gives x when x neither starts nor ends with one |
| Text.SplitOn | dsa/sparse_matrix/code/src/matrix.py:44 | at least one piece, and no piece contains the separator |
| Text.JoinSplit | dsa/sparse_matrix/code/src/matrix.py:44 | joining the pieces of a split with the separator gives the original string |
| Text.SplitOnSecond | dsa/sparse_matrix/code/src/matrix.py:36-37 | the second piece of a split of a + sep + b, with a and b free of the separator, is b, whatever text follows after a further separator |
| Text.SplitJoin | dsa/sparse_matrix/code/src/matrix.py:44 | splitting a join of one or more pieces without the separator gives those pieces |
| Text.ParseInt | dsa/sparse_matrix/code/src/matrix.py:44 | a string is an integer exactly when, stripped of the whitespace int() skips, it is digits after an optional sign. A negative result has a '-' sign |
| Text.ParseIntRejectsLead | dsa/sparse_matrix/code/src/matrix.py:36-37 | a string whose first character is neither whitespace to int(), a sign nor a digit is not an integer |
| Text.StripPadded | dsa/sparse_matrix/code/src/matrix.py:31 | stripping a text padded on both sides with stripped characters gives the text, when it neither begins nor ends with one |
| Text.ParseIntIgnoresPadding | dsa/sparse_matrix/code/src/matrix.py:44 | whitespace int() skips, around a text that neither begins nor ends with any, does not change the parse |
| Text.ParseIntSigned | dsa/sparse_matrix/code/src/matrix.py:44 | a run of digits after no sign, '+' or '-' reads as its value, negated for '-' |
| Text.DigitsValueLeadingZeros | dsa/sparse_matrix/code/src/matrix.py:44 | leading zeros do not change the value of a run of digits |
| Text.ParseIntPadded | dsa/sparse_matrix/code/src/matrix.py:36-44 | whitespace at either end, an optional sign and leading zeros around the digits of n read as n, negated for '-' |
| Text.ParseIntOfIntToString | dsa/sparse_matrix/code/src/matrix.py:44 | the decimal text of any integer parses back to it |
| Algebra.SumWithEmpty | dsa/sparse_matrix/code/src/matrix.py:59 | before any entry of the right operand is added or subtracted, the result is the copy of the left operand |
| Algebra.SumStep | dsa/sparse_matrix/code/src/matrix.py:61-62 | folding one more entry of the right operand into the partial sum updates exactly that position, to its old reading plus the entry |
| Algebra.DifferenceStep | dsa/sparse_matrix/code/src/matrix.py:78-79 | folding one more entry into the partial difference updates exactly that position, to its old reading minus the entry |
| Algebra.SumCommutes | dsa/sparse_matrix/code/src/matrix.py:48-63 | the sum of a and b equals the sum of b and a, stored keys included |
| Algebra.DifferenceUndoesSum | dsa/sparse_matrix/code/src/matrix.py:65-80 | (a + b) - b reads as a at every position but stores the keys of both |
| Algebra.DifferenceWithSelf | dsa/sparse_matrix/code/src/matrix.py:76-79 | a - a stores every key of a, each with value 0 |
| Algebra.SumCanStoreZero | dsa/sparse_matrix/code/src/matrix.py:62 | adding entries that cancel stores a 0 |
| Matrix.SparseMatrix.Add | dsa/sparse_matrix/code/src/matrix.py:48-63 | refused exactly when the dimensions differ. Otherwise the result is a new matrix with the shared dimensions, storing the union of both key sets with the sum at each, cancelling sums kept. Neither operand changes |
| Matrix.SparseMatrix.Subtract | dsa/sparse_matrix/code/src/matrix.py:65-80 | the same as Add, with the difference at each position |
| Matrix.SparseMatrix.Multiply | dsa/sparse_matrix/code/src/matrix.py:82-108 | refused exactly when the left cols differ from the right rows. Otherwise the result is a new matrix of the left rows and right cols, holding every non-zero product entry as the sum over stored (i, j) and (j, k) of their product, and no 0 entry. Neither operand changes |
| Matrix.SparseMatrix.AccumulateRow | dsa/sparse_matrix/code/src/matrix.py:103-106 | reading and rewriting the result for every listed column of one left entry adds exactly that entry's terms to the accumulated sums |
| Matrix.BuildRowIndex | dsa/sparse_matrix/code/src/matrix.py:95-99 | the index lists, for each row with a stored entry, every stored (col, value) of that row once, and nothing else |
| Matrix.RowIndexExtend | dsa/sparse_matrix/code/src/matrix.py:96-99 | appending one more entry to its row (creating the row when new) keeps the index an index of the entries done so far |
| Matrix.ListedTermsSnoc | dsa/sparse_matrix/code/src/matrix.py:104-106 | each listed column visited adds one new term, never one already counted |
| Matrix.ListedTermsComplete | dsa/sparse_matrix/code/src/matrix.py:103-104 | the row list of c1 yields exactly the terms of a left entry (r1, c1), and there are none when c1 has no row |
| Algebra.TermSumRemove | dsa/sparse_matrix/code/src/matrix.py:102-106 | any term can be summed first, so a product entry does not depend on the iteration order |
| Algebra.TermSumOfZeros | dsa/sparse_matrix/code/src/matrix.py:102-106 | terms that contribute nothing to a position sum to 0 there |
| Algebra.AccumulateTerm | dsa/sparse_matrix/code/src/matrix.py:105-106 | reading a position and writing it back plus one term's product, through the sparse write, accumulates that term too |
| Algebra.TermsAdd | dsa/sparse_matrix/code/src/matrix.py:102 | the terms of one more left entry are those already done and that entry's own |
| Algebra.AccumulatesUnique | dsa/sparse_matrix/code/src/matrix.py:82-108 | the sparse product is determined by its operands: two maps accumulating the same terms are equal |
| Algebra.IdentityTimes | dsa/sparse_matrix/code/src/matrix.py:82-108 | each product entry of the n-by-n identity times b is b's value in rows 0 .. n-1 and 0 elsewhere |
| Algebra.IdentityProduct | dsa/sparse_matrix/code/src/matrix.py:82-108 | a map with no stored 0, and every entry in rows 0 .. n-1, is the sparse product of the identity and itself |
| Matrix.IdentityProductIsOperand | dsa/sparse_matrix/code/src/matrix.py:82-108 | multiplying the identity by such a matrix gives exactly that matrix's entries |

## Left out

- `main.py` is not part of this model. It is directory listing, an interactive prompt, file writing, console output and timing.
- Opening the file and reading it line by line (matrix.py:29), the progress messages (lines 28 and 46), and the constructor's optional `filepath` (lines 16-17). The loader takes the file's lines as a `seq<string>`; a constructor call followed by `LoadFromLines` stands for the constructor with a path.
- Exception classes: `InvalidMatrixFormat`, `ValueError` and `IndexError` become one error value per failing step. These are `InsufficientData`, `BadHeader` (a header without '=', or with no integer between its first '=' and the next one), `WrongFormat` (an element line not wrapped in parentheses) and `BadElement` (not exactly three integers), plus `DimensionMismatch` and `IncompatibleShape` for the arithmetic.
- Text.ParseInt: accepts an optional sign and ASCII digits, surrounded by the ASCII whitespace `int()` skips (space, tab, line feed, carriage return, vertical tab and form feed). Python's `int()` also accepts underscores between digits, non-ASCII digits and non-ASCII whitespace; these are not modelled. Neither is the limit of 4300 digits on a decimal literal, beyond which Python 3.11 and later raise `ValueError`.
- Text.Strip: its whitespace (`Whitespace`) is the ASCII characters Python's `str.strip()` removes, the separators U+001C to U+001F included. Non-ASCII whitespace such as U+0085 and U+00A0 is not modelled.
- NonBlankLines: its own contract states only the shape of each line it keeps. `NonBlankLinesOne` and `NonBlankLinesConcat` state what it is exactly: the stripped non-blank lines of the input, in order.
- The dictionary's insertion order is not modelled: `elements` is a `map`, and every loop over a dictionary takes its keys in an arbitrary order.
- Integers are unbounded, like Python's; no overflow is modelled.
