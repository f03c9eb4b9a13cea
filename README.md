# ttytest2 matchers in Dafny

This project models the matcher library of ttytest2, a Ruby gem for testing
terminal programs. Every matcher reads one immutable snapshot of the
terminal (`Terminal.Snapshot`): its rows, which may hold nil entries, an
optional declared height, the cursor position and whether the cursor is
visible. A matcher either returns normally, raises `MatchError` with a
message, or raises `NoMethodError` by calling a string method on nil. The
model turns this into the value `Terminal.Outcome` = `Pass | Fail(message) |
NoMethod(name)`.

The modules follow the Ruby files:

- `RubyCore` (ruby_core.dfy) models the Ruby primitives the matchers are
  built on:
  - `String#rstrip`;
  - `String#split("\n")`, which drops trailing empty fields;
  - `String#[start, length]`, `Array#slice` and the inclusive `Array#[a..b]`;
  - `Array#join`, `to_s` and `inspect`;
  - `Integer#to_s`;
  - `include?`, `start_with?` and `end_with?`.
- `Terminal` (terminal.dfy) holds the snapshot and `row(n)`. `row(n)` is nil
  past the last row.
- `Assertions` (assertions.dfy) holds the shared helpers of
  lib/ttytest/assertions.rb:
  - `validate`, the height check;
  - `get_inspection` and `get_inspection_bounded`;
  - `get_diff`;
  - the count-based `assert_contents_at`.
- `RowAssertions`, `ColumnAssertions`, `ScreenAssertions` and
  `CursorAssertions` model the files under lib/ttytest/assertions/.
- `Matchers` (matchers.dfy) models the older lib/ttytest/matchers.rb. Its
  checks run no height check, and a nil row raises where the row matchers
  fail.

Code that loops in Ruby is a `method` with a `while` loop. Each such method
is proved equal to a specification function or to the condition it checks,
and lemmas state what those mean. These are:

- `get_diff`;
- `get_column`, `assert_column`, `assert_column_is_empty` and
  `assert_column_at`;
- `assert_contents_include`;
- the two regexp window checks, including the in-place trimming of the
  slice array.

The pure matchers are `function`s.

## Model

| member | source | states |
|---|---|---|
| RubyCore.RStripSpec | lib/ttytest/assertions/row_assertions.rb:12 | `rstrip` keeps a prefix that is empty or ends in a non-whitespace character, and drops only whitespace (NUL, tab, line feed, vertical tab, form feed, carriage return, space) |
| RubyCore.RStripOfPadded | lib/ttytest/assertions.rb:154 | a string that ends in a non-whitespace character strips back to itself after any whitespace is appended |
| RubyCore.RStripAppendBlank | lib/ttytest/assertions/row_assertions.rb:12 | appending whitespace to the expected value never changes what it strips to |
| RubyCore.RStripIdempotent | lib/ttytest/assertions/row_assertions.rb:12 | stripping twice is stripping once |
| RubyCore.RStripAllSpace | lib/ttytest/assertions/row_assertions.rb:12 | an all-whitespace value strips to the empty string |
| RubyCore.JoinFields | lib/ttytest/assertions.rb:144 | the fields between line feeds join back, with `"\n"`, to the original text |
| RubyCore.FieldsAppend | lib/ttytest/assertions.rb:144 | splitting a concatenation fuses the last field of the left part with the first field of the right part |
| RubyCore.FieldsOfLine | lib/ttytest/assertions.rb:144 | a text without line feeds is one field |
| RubyCore.FieldsAroundLineFeed | lib/ttytest/assertions.rb:144 | a line feed separates the fields on its left from those on its right |
| RubyCore.DropTrailingEmptySpec | lib/ttytest/assertions.rb:144 | `split` keeps a prefix of the fields that is empty or ends in a non-empty field, and drops only empty fields |
| RubyCore.SplitLinesLineAt | lib/ttytest/assertions.rb:144-146 | dropping the trailing empty fields never changes `expected_rows[i] \|\| ''` |
| RubyCore.BlankTextLines | lib/ttytest/assertions.rb:144-146 | every line of an all-whitespace text strips to `""` |
| RubyCore.TrailingBlankTextLines | lib/ttytest/assertions.rb:144-146 | whitespace and line feeds after a text change none of its stripped lines |
| RubyCore.Slice | lib/ttytest/assertions/row_assertions.rb:49 | `s[start, length]` is nil exactly when `start` is past the end; otherwise it holds the characters from `start`, cut to `length` or to the end |
| RubyCore.Range | lib/ttytest/assertions/screen_assertions.rb:28 | `rows[a..b]` is nil exactly when `a` is past the end; otherwise it holds rows `a` through `b` inclusive, cut at the end |
| RubyCore.JoinAgreeing | lib/ttytest/assertions/column_assertions.rb:64 | one-character cells that agree with `e[i]` index by index join to the start of `e` they cover |
| RubyCore.NatToStringValue | lib/ttytest/assertions/row_assertions.rb:18 | the digits interpolated for a row number denote that number |
| RubyCore.NatToStringInjective | lib/ttytest/assertions/row_assertions.rb:18 | distinct row numbers print differently |
| RubyCore.IntToStringInjective | lib/ttytest/assertions/cursor_assertions.rb:17 | distinct integers print differently, signs included |
| RubyCore.Inspect | lib/ttytest/assertions/row_assertions.rb:18 | `inspect` output is quoted at both ends |
| RubyCore.InspectPlain | lib/ttytest/assertions/row_assertions.rb:18 | printable ASCII text without quotes, backslashes or `#` inspects as itself between quotes |
| Assertions.Validate | lib/ttytest/assertions.rb:134-141 | the height check never fails without a declared height; otherwise it fails exactly when `row >= height`, equality included |
| Assertions.ValidateMessage | lib/ttytest/assertions.rb:137-139 | a failed height check says "which is greater than set height" and names the height |
| Assertions.GetInspection | lib/ttytest/assertions.rb:118-124 | nil reads `nil`; a present row reads as a text in double quotes |
| Assertions.GetInspectionBounded | lib/ttytest/assertions.rb:126-132 | nil reads `nil`; for a present row the interpolated text is the start of the row from `start`, `length` characters or up to the end, and empty when `start` is past the end |
| Assertions.ExpectedRowsLine | lib/ttytest/assertions.rb:146 | `(expected_rows[i] \|\| '').rstrip` is line `i` of the trimmed lines, `""` past the end, with nothing left to trim |
| Assertions.MatchedRowLine | lib/ttytest/assertions.rb:154 | `" #{row}".rstrip` of a row equal to a trimmed line is the row behind a space, or `""` for an empty row |
| Assertions.GetDiff | lib/ttytest/assertions.rb:143-159 | matched is true iff every actual row equals the trimmed expected line at its index (a missing line counts as `""`, extra lines are ignored); the diff is the row-by-row diff of all rows |
| Assertions.DiffStep | lib/ttytest/assertions.rb:147-156 | each row appends its own diff lines after those of the earlier rows |
| Assertions.DiffLength | lib/ttytest/assertions.rb:147-156 | the diff has one line per row plus one per mismatching row; no mismatch iff every row matches |
| Assertions.DiffExtends | lib/ttytest/assertions.rb:147-156 | no short cut: the diff of the first `k` rows is a prefix of the whole diff |
| Assertions.MatchedDiffLines | lib/ttytest/assertions.rb:152-155 | the diff of matching rows holds exactly one line per row, row `i` at index `i` |
| Assertions.DiffOfMatched | lib/ttytest/assertions.rb:152-155 | when the rows match, the diff is the rows themselves, each behind a space and right-trimmed |
| Assertions.DiffFlagsMismatch | lib/ttytest/assertions.rb:148-158 | the screen matches iff no diff line starts with `-` |
| Assertions.BlankTextMatchesBlankScreen | lib/ttytest/assertions.rb:144-147 | an all-whitespace expected text (`""`, `"\n"`, `"  \n \n"`) matches exactly the screens whose rows are all present and empty |
| Assertions.AgreeingLinesSameDiff | lib/ttytest/assertions.rb:146-156 | two lists of expected rows that agree at every index give the same verdict and the same diff |
| Assertions.TrailingBlankTextIgnored | lib/ttytest/assertions.rb:144-147 | whitespace and line feeds at the end of the expected text never change the outcome |
| Assertions.ZeroWindowIsFirstRow | lib/ttytest/assertions.rb:62-65 | the window `(0, 0)` is exactly row 0 |
| Assertions.CountWindowRows | lib/ttytest/assertions.rb:62-65 | away from the end of the screen the window is `row_end` rows starting at `row_start` |
| Assertions.AssertContentsAt | lib/ttytest/assertions.rb:61-71 | a height check on `row_end`, then the diff of `rows.slice(row_start, row_end)` with 0 read as 1; a nil slice raises on `each_with_index` |
| Assertions.CountWindowSkipsNamedRow | lib/ttytest/assertions.rb:61-65 | rows `a`,`b`,`c` with `(0, 1, "a\nX")` pass, while the rows 0 through 1 do not match |
| RowAssertions.AssertRow | lib/ttytest/assertions/row_assertions.rb:10-20 | a height check first; then pass iff the row is present and equals the trimmed expected value; the message quotes both |
| RowAssertions.LeadingSpaceMatters | lib/ttytest/assertions/row_assertions.rb:12-15 | only the expected value is trimmed: row `" foo"` rejects `"foo"` and accepts `" foo"` with any trailing whitespace |
| RowAssertions.AssertRowIsEmpty | lib/ttytest/assertions/row_assertions.rb:26-34 | a height check first; then pass iff the row is exactly `""`, so a nil row fails |
| RowAssertions.IsEmptyIsBlankRow | lib/ttytest/assertions/row_assertions.rb:26-34 | a row is empty iff it matches any all-whitespace expected value |
| RowAssertions.AssertRowAt | lib/ttytest/assertions/row_assertions.rb:43-55 | a height check first; then pass iff the present row's `[column_start, column_end + 1]` slice equals the trimmed expected value; the message prints the end as `column_end + 1` |
| RowAssertions.RowAtComparesLength | lib/ttytest/assertions/row_assertions.rb:47-49 | the expected value must be exactly the `column_end + 1` characters from `column_start`, or all the characters left when the row ends sooner |
| RowAssertions.RowAtEndReadAsLength | lib/ttytest/assertions/row_assertions.rb:47-49 | on row `foobar`, `(0, 1, 2, "oo")` fails though columns 1 to 2 hold `oo` |
| RowAssertions.AssertRowAtColumns | lib/ttytest/assertions/row_assertions.rb:43-55 | the position check over the inclusive columns, with the same height check and no `NoMethodError` |
| RowAssertions.RowAtColumnsSpan | lib/ttytest/assertions/row_assertions.rb:43-55 | the corrected check passes iff the characters of columns `column_start` through `column_end` are the trimmed expected value; from column 0 it agrees with the check as written |
| RowAssertions.AssertRowLike | lib/ttytest/assertions/row_assertions.rb:62-71 | a height check first; then pass iff the present row contains the trimmed expected value |
| RowAssertions.AssertRowStartsWith | lib/ttytest/assertions/row_assertions.rb:80-89 | a height check first; then pass iff the present row starts with the trimmed expected value |
| RowAssertions.AssertRowEndsWith | lib/ttytest/assertions/row_assertions.rb:96-105 | a height check first; then pass iff the present row ends with the trimmed expected value |
| RowAssertions.BlankExpectedAlwaysFound | lib/ttytest/assertions/row_assertions.rb:62-105 | an empty or all-whitespace expected value is contained in, starts and ends every present row |
| RowAssertions.ExactRowIsFound | lib/ttytest/assertions/row_assertions.rb:10-105 | an exact row match is also a substring, prefix and suffix match |
| RowAssertions.TrimmedExpectedSameOutcome | lib/ttytest/assertions/row_assertions.rb:12-15 | every row check gives the same outcome for `expected` and for `expected.rstrip` |
| RowAssertions.AssertRowRegexp | lib/ttytest/assertions/row_assertions.rb:112-121 | a height check first; then pass iff the row is present and the regular expression matches it |
| RowAssertions.AssertRowsEachMatchRegexp | lib/ttytest/assertions/row_assertions.rb:129-140 | a height check on `row_end`; a nil window raises; otherwise pass iff every row of the count window is present and matches; a failure names the first bad row by its index within the window |
| RowAssertions.StrippingTrimmedRows | lib/ttytest/assertions/row_assertions.rb:155-159 | the trimming pass leaves rows that have nothing to trim as they are |
| RowAssertions.StrippedJoinShorter | lib/ttytest/assertions/row_assertions.rb:155-160 | the trimmed rows join to a text no longer than the plain join |
| RowAssertions.StripInPlace | lib/ttytest/assertions/row_assertions.rb:155-159 | the pass completes iff no slot is nil, and then every slot holds its old value right-trimmed |
| RowAssertions.AssertRowsMatchRegexp | lib/ttytest/assertions/row_assertions.rb:149-166 | a height check on `row_end`; a nil window raises (`each_with_index` or `join`), a nil row raises on `rstrip` when trimming; otherwise pass iff the regular expression matches the joined window (rows trimmed first with `remove_newlines`) |
| ColumnAssertions.PresentCount | lib/ttytest/assertions/column_assertions.rb:123-124 | the rows before the first nil row are present and the next one is nil |
| ColumnAssertions.GetColumn | lib/ttytest/assertions/column_assertions.rb:120-130 | `row[col]` for every row in order, stopping at the first nil row |
| ColumnAssertions.ColumnStringLength | lib/ttytest/assertions/column_assertions.rb:79 | the joined column is no longer than the number of rows read |
| ColumnAssertions.ColumnOfShortRows | lib/ttytest/assertions/column_assertions.rb:126 | when no row read reaches the column, the joined column is empty |
| ColumnAssertions.ColumnJoin | lib/ttytest/assertions/column_assertions.rb:79 | the joined column is the characters at `col` of the rows that reach it, in row order, rows too short to reach it skipped wherever they stand |
| ColumnAssertions.ColumnSkipsShortRow | lib/ttytest/assertions/column_assertions.rb:120-130 | rows `ab`, `a`, `cd` read `bd` at column 1 |
| ColumnAssertions.ColumnOfLongRows | lib/ttytest/assertions/column_assertions.rb:120-130 | when every row reaches the column, the joined column is row `j`'s character at `col`, for each row `j` in order |
| ColumnAssertions.AssertColumn | lib/ttytest/assertions/column_assertions.rb:10-23 | a height check on the column number; then pass iff every cell up to the first nil row equals the trimmed expected character at the row index, nil equalling nil |
| ColumnAssertions.AgreeingColumnString | lib/ttytest/assertions/column_assertions.rb:14-17 | a passing column reads as the start of the expected value its rows cover; characters past the last row are never looked at |
| ColumnAssertions.AssertColumnIsEmpty | lib/ttytest/assertions/column_assertions.rb:28-39 | a height check on the column number; then pass iff every row up to the first nil row is `""`, shorter than `col + 1`, or has a space at `col` |
| ColumnAssertions.EmptyColumnCells | lib/ttytest/assertions/column_assertions.rb:34 | a column is empty iff each of its cells is nil or a space |
| ColumnAssertions.ScanStop | lib/ttytest/assertions/column_assertions.rb:52-54 | the scan from `row_start` stops at the first row past `row_end`, the first nil row, or the end of the screen |
| ColumnAssertions.AssertColumnAt | lib/ttytest/assertions/column_assertions.rb:47-70 | a height check on the column number; then the outcome of the rows `row_start` through `row_end` (inclusive, stopping at a nil row) against the trimmed expected value |
| ColumnAssertions.ColumnAtPasses | lib/ttytest/assertions/column_assertions.rb:57-64 | the window check passes iff every cell agrees with the expected character at its offset and the window covers the whole expected value |
| ColumnAssertions.WindowOfPresentRows | lib/ttytest/assertions/column_assertions.rb:52-56 | with all rows `row_start` through `row_end` present, the window holds one cell per row, each that row's `row[col]` |
| ColumnAssertions.AssertColumnLike | lib/ttytest/assertions/column_assertions.rb:76-85 | a height check first; then pass iff the joined column contains the trimmed expected value |
| ColumnAssertions.AssertColumnStartsWith | lib/ttytest/assertions/column_assertions.rb:92-101 | a height check first; then pass iff the joined column starts with the trimmed expected value |
| ColumnAssertions.AssertColumnEndsWith | lib/ttytest/assertions/column_assertions.rb:107-116 | a height check first; then pass iff the joined column ends with the trimmed expected value |
| ColumnAssertions.ExactColumnIsFound | lib/ttytest/assertions/column_assertions.rb:76-116 | a column that matches exactly and covers the whole expected value also contains it, starts with it and ends with it |
| ScreenAssertions.AssertContents | lib/ttytest/assertions/screen_assertions.rb:9-16 | pass iff every row matches; otherwise the message is the fixed header followed by the diff joined with `"\n"` |
| ScreenAssertions.FailureShowsFirstMismatch | lib/ttytest/assertions/screen_assertions.rb:14-15 | a failed comparison lists the matched rows, then `-expected` and `+actual` for the first differing row |
| ScreenAssertions.TrailingSpaceIgnored | lib/ttytest/assertions/screen_assertions.rb:7-10 | `"foo  \n \n"` matches a screen holding `foo` |
| ScreenAssertions.LeadingSpaceMatters | lib/ttytest/assertions/screen_assertions.rb:7-10 | `" foo"` does not match a screen holding `foo` |
| ScreenAssertions.AssertContentsAt | lib/ttytest/assertions/screen_assertions.rb:25-34 | a height check on `row_end`; then the diff of the inclusive range `rows[row_start..row_end]`; a nil range raises |
| ScreenAssertions.InclusiveWindowChecksNamedRows | lib/ttytest/assertions/screen_assertions.rb:28 | inside the screen, the range holds `row_end - row_start + 1` rows and passes iff each named row equals its trimmed expected line |
| ScreenAssertions.SingleRowWindowsAgree | lib/ttytest/assertions/screen_assertions.rb:28 | `(r, r)` selects row `r` alone, and `(0, 0)` selects the same row as the count window |
| ScreenAssertions.AssertContentsInclude | lib/ttytest/assertions/screen_assertions.rb:41-50 | every row is asked; a nil row raises on `include?`; otherwise pass iff some row contains the expected text |
| ScreenAssertions.IncludesPiecesOfRows | lib/ttytest/assertions/screen_assertions.rb:41-50 | a screen whose rows are all present passes `assert_contents_include` for every piece of any of its rows, the whole row and the empty string included |
| ScreenAssertions.AllBlank | lib/ttytest/assertions/screen_assertions.rb:56 | `all?` holds iff every row, nil read as `""`, is empty |
| ScreenAssertions.AssertContentsEmpty | lib/ttytest/assertions/screen_assertions.rb:55-60 | pass iff every row, nil read as `""`, is empty |
| ScreenAssertions.EmptyIsEmptyText | lib/ttytest/assertions/screen_assertions.rb:55-60 | matching the empty text implies the screen is empty; the converse holds when no row is nil |
| CursorAssertions.PairInspectInjective | lib/ttytest/assertions/cursor_assertions.rb:17 | two `[x, y].inspect` texts are equal only for equal pairs |
| CursorAssertions.AssertCursorPosition | lib/ttytest/assertions/cursor_assertions.rb:10-18 | pass iff the cursor is at `(x, y)`; the message starts with `expected cursor to be at [x, y] but was at ` |
| CursorAssertions.PositionMessageNamesCursor | lib/ttytest/assertions/cursor_assertions.rb:16-17 | a failure message determines where the cursor was |
| CursorAssertions.PositionMessageExample | lib/ttytest/assertions/cursor_assertions.rb:16-17 | a cursor at (1, 2) checked against (0, 0) gives `expected cursor to be at [0, 0] but was at [1, 2]` |
| CursorAssertions.PositionIsOrdered | lib/ttytest/assertions/cursor_assertions.rb:11-14 | a cursor at (1, 0) satisfies `(1, 0)` but not `(0, 1)` |
| CursorAssertions.AssertCursorVisible | lib/ttytest/assertions/cursor_assertions.rb:22-26 | pass iff the cursor is visible |
| CursorAssertions.AssertCursorHidden | lib/ttytest/assertions/cursor_assertions.rb:30-34 | pass iff the cursor is hidden |
| CursorAssertions.VisibleOrHidden | lib/ttytest/assertions/cursor_assertions.rb:22-34 | exactly one of the two visibility checks passes |
| Matchers.AssertRow | lib/ttytest/matchers.rb:10-17 | no height check; pass iff `row(n)` equals the trimmed expected value; a nil row fails and prints as `nil` |
| Matchers.AssertRowAt | lib/ttytest/matchers.rb:25-35 | no height check; a nil row raises on `[]`; pass iff the row's `[column_start, column_end + 1]` slice equals the trimmed expected value |
| Matchers.AssertRowLike | lib/ttytest/matchers.rb:41-48 | a nil row raises on `include?`; otherwise pass iff the row contains the trimmed expected value |
| Matchers.AssertRowStartsWith | lib/ttytest/matchers.rb:55-62 | a nil row raises on `start_with?`; otherwise pass iff the row starts with the trimmed expected value |
| Matchers.AssertRowEndsWith | lib/ttytest/matchers.rb:68-75 | a nil row raises on `end_with?`; otherwise pass iff the row ends with the trimmed expected value |
| Matchers.AssertRowRegexp | lib/ttytest/matchers.rb:81-89 | a nil row raises on `match?`; otherwise pass iff the regular expression matches the row |
| Matchers.AgreeWithRowMatchers | lib/ttytest/matchers.rb:10-89 | without a declared height, the older checks equal the row matchers on present rows, messages included; on a nil row one fails and the other raises |
| Matchers.RowAtAgreesWithRowMatcher | lib/ttytest/matchers.rb:25-35 | without a declared height both position checks pass on the same rows; on a nil row one fails and the other raises |
| Matchers.AssertContents | lib/ttytest/matchers.rb:121-140 | the same verdict and message as the whole-screen diff over all rows |
| Matchers.AssertContentsAt | lib/ttytest/matchers.rb:146-167 | no height check; the diff of the count window, 0 read as 1; a nil window raises |
| Matchers.WindowPastTheEnd | lib/ttytest/matchers.rb:152 | a window starting past the end is nil, and one starting at the end is empty and passes |

## Left out

- Regular expressions. `Regexp.new` and `match?` are a caller-supplied predicate `matches` plus the pattern text `source`. Pattern syntax and invalid patterns are not modelled.
- `assert_contents_match_regexp` (lib/ttytest/assertions.rb:103-111 and lib/ttytest/assertions/screen_assertions.rb:66-74). It matches `capture.to_s`, and `Capture` is not part of this model.
- The `Entire screen:` suffix of every message, and the line breaks and indentation before it. They print `Capture#to_s`, which is not part of this model. Messages are modelled up to that suffix.
- `Capture`, `row(n)` and the polling that retries an assertion until a timeout. `Capture` is not part of this model. The snapshot is a value, and `row(n)` reads nil past the last row.
- Negative indices. Row, column and window numbers are natural numbers, so Ruby's counting from the end is not modelled. Cursor coordinates are any integers.
- Arguments of the wrong type, such as a non-string expected value raising `TypeError`. The model's parameters are typed.
- Some `inspect` escapes. `RubyCore.Inspect` escapes quotes, backslashes, the named control characters and `#` before `{`, `$` or `@`. Other control characters, DEL and non-ASCII characters are written as themselves, where Ruby writes `\x`/`\u` escapes. The encoding is not modelled.
- Unicode display width and grapheme clusters. A string is a sequence of characters.
- lib/ttytest/assertions/file_assertions.rb (file system I/O), lib/ttytest/tmux/ (subprocesses), lib/ttytest/constants.rb (key names), lib/ttytest/dummy.rb and lib/ttytest/assertions/exit_code_assertions.rb (stubs).
- Duplicate cursor and screen checks, modelled once. Their code is the same:
  - `assert_cursor_position`, `assert_cursor_visible` and `assert_cursor_hidden` in lib/ttytest/assertions.rb:18-42 and lib/ttytest/matchers.rb:95-116 are modelled once by `CursorAssertions`;
  - `assert_contents`, `assert_contents_include` and `assert_contents_empty` in lib/ttytest/assertions.rb:47-97 are modelled once by `ScreenAssertions`.
- Matchers.AssertContents and Matchers.AssertContentsAt call `Assertions.GetDiff`. The diff loop written out in lib/ttytest/matchers.rb:122-134 and 148-161 is statement for statement the loop of `get_diff`, so it is modelled once.
- CursorAssertions.AssertCursorPosition: the contract states only the start of the failure message, up to `but was at `. The full text is shown by `CursorAssertions.PositionMessageExample`. `CursorAssertions.PositionMessageNamesCursor` proves the rest of the message determines the cursor.
- ScreenAssertions.AssertContents and Matchers.AssertContents have the same contract and body. They model two separate Ruby methods, lib/ttytest/assertions/screen_assertions.rb:9-16 and lib/ttytest/matchers.rb:121-140, whose code computes the same diff. Both are proved against the one definition `Assertions.DiffOutcome`.
- Method aliases (`assert_line`, `assert_matches`, `assert_screen` and the others) are the same methods under other names.

## Findings

| source | as written | input that shows it | evidently intended | confidence | as-written member | corrected member |
|---|---|---|---|---|---|---|
| lib/ttytest/assertions.rb:61-65 | `rows.slice(row_start, row_end)` takes `row_end` as a number of rows, reading 0 as 1. lib/ttytest/matchers.rb:150-152 does the same | rows `a`, `b`, `c` with `assert_contents_at(0, 1, "a\nX")`: only row 0 is compared and the check passes, though row 1 (`b`) differs from `X` | rows `row_start` through `row_end` inclusive, as the name `row_end` says and as `rows[row_start..row_end]` in lib/ttytest/assertions/screen_assertions.rb:28 does | medium, not executed | Assertions.CountWindowSkipsNamedRow | ScreenAssertions.AssertContentsAt |
| lib/ttytest/assertions/row_assertions.rb:47-49 | `column_end += 1` then `actual[column_start, column_end]` uses the end column as a length. lib/ttytest/matchers.rb:28-29 does the same | row `foobar` with `assert_row_at(0, 1, 2, "oo")`: the slice is `oob` and the check fails, though columns 1 through 2 hold `oo` | the characters of columns `column_start` through `column_end`. The tests expect `(0, 1, 2, 'oo')` to pass on the row `foo` (test/ttytest/assertions/row_assertions_test.rb:97) | medium, not executed | RowAssertions.RowAtEndReadAsLength | RowAssertions.AssertRowAtColumns |
