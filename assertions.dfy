/** The shared helpers of the assertion mixin: the height check every indexed
    matcher runs first, the line-by-line screen diff, the inspection helpers,
    and the windowed screen comparison that selects rows by a count. */
module Assertions {
  import opened RubyCore
  import opened Terminal

  // ---------------------------------------------------------------------------
  // validate

  const HeightAdvice := ", so assertions will fail. If intentional, set height larger or break apart tests."

  /** `validate(row)`: with a declared height, an index at or past it raises. */
  function Validate(s: Snapshot, row: nat): (o: Outcome)
    ensures s.height.None? ==> o == Pass
    ensures s.height.Some? ==> (o.Pass? <==> row < s.height.value)
    ensures !o.NoMethod?
  {
    if s.height.None? || row < s.height.value then Pass
    else Fail("row is at " + NatToString(row) + ", which is greater than set height "
              + NatToString(s.height.value) + HeightAdvice)
  }

  /** A failed height check says so, and names the declared height. */
  lemma ValidateMessage(s: Snapshot, row: nat)
    requires Validate(s, row).Fail?
    ensures Includes(Validate(s, row).message, ", which is greater than set height ")
    ensures Includes(Validate(s, row).message, NatToString(s.height.value))
  {
    var p := "row is at " + NatToString(row);
    var q := ", which is greater than set height ";
    var h := NatToString(s.height.value);
    IncludesMiddle(p, q, h);
    IncludesExtend(p + q + h, q, HeightAdvice);
    IncludesMiddle(p + q, h, HeightAdvice);
  }

  // ---------------------------------------------------------------------------
  // get_inspection, get_inspection_bounded

  /** `get_inspection(actual)` for a string or nil. */
  function GetInspection(actual: Option<string>): (r: string)
    ensures actual.None? ==> r == "nil"
    ensures actual.Some? ==> |r| >= 2 && r[0] == '"' && r[|r| - 1] == '"'
  {
    if actual.None? then "nil" else Inspect(actual.value)
  }

  /** `get_inspection_bounded(actual, start, length)`: nil reads "nil", and
      otherwise the `length` characters from `start` are interpolated as they
      are (a nil slice interpolates as the empty string). */
  function GetInspectionBounded(actual: Option<string>, start: nat, length: nat): (r: string)
    ensures actual.None? ==> r == "nil"
    ensures actual.Some? ==> |r| <= length
    ensures actual.Some? && start <= |actual.value| ==>
      r <= actual.value[start..] && |r| == Min(length, |actual.value| - start)
    ensures actual.Some? && start > |actual.value| ==> r == ""
  {
    if actual.None? then "nil" else ToS(Slice(actual.value, start, length))
  }

  // ---------------------------------------------------------------------------
  // get_diff

  /** `expected.split("\n")` with every line right-trimmed: the lines the diff
      compares the rows with. */
  function ExpectedRows(expected: string): seq<string>
  {
    var lines := SplitLines(expected);
    seq(|lines|, i requires 0 <= i < |lines| => RStrip(lines[i]))
  }

  /** `(expected_rows[i] || '').rstrip` is line `i` of the trimmed lines, the
      empty string past the last one, and has nothing left to trim. */
  lemma ExpectedRowsLine(expected: string, i: nat)
    ensures LineAt(ExpectedRows(expected), i) == RStrip(LineAt(SplitLines(expected), i))
    ensures RStrip(LineAt(ExpectedRows(expected), i)) == LineAt(ExpectedRows(expected), i)
  {
    if i >= |SplitLines(expected)| {
      RStripAllSpace("");
    }
    RStripIdempotent(LineAt(SplitLines(expected), i));
  }

  /** The first `k` actual rows each equal the expected row at their index. */
  predicate MatchUpTo(rows: seq<string>, actual: seq<Option<string>>, k: nat)
    requires k <= |actual|
  {
    forall i :: 0 <= i < k ==> actual[i] == Some(LineAt(rows, i))
  }

  /** Every actual row equals the expected row at its index. */
  predicate AllMatch(rows: seq<string>, actual: seq<Option<string>>)
  {
    MatchUpTo(rows, actual, |actual|)
  }

  /** The diff line of a row that matches: the row behind a space, or the
      empty string for an empty row. */
  function MatchedLine(row: string): string
  {
    if row == "" then "" else " " + row
  }

  /** `" #{row}".rstrip` of a row that equals a trimmed line is its matched
      diff line: nothing beyond the added space is ever trimmed. */
  lemma MatchedRowLine(row: string)
    requires RStrip(row) == row
    ensures RStrip(" " + row) == MatchedLine(row)
  {
    if row == "" {
      assert " " + row == " ";
    } else {
      RStripOfPadded(" " + row, []);
      assert " " + row + [] == " " + row;
    }
  }

  /** The diff lines one row contributes: `-expected` then `+actual` when they
      differ, otherwise the matched line. */
  function RowDiff(expectedRow: string, actualRow: Option<string>): seq<string>
  {
    if actualRow != Some(expectedRow) then ["-" + expectedRow, "+" + ToS(actualRow)]
    else [MatchedLine(expectedRow)]
  }

  /** The diff lines of the first `k` rows, in row order. */
  function DiffUpTo(rows: seq<string>, actual: seq<Option<string>>, k: nat): seq<string>
    requires k <= |actual|
  {
    if k == 0 then []
    else DiffUpTo(rows, actual, k - 1) + RowDiff(LineAt(rows, k - 1), actual[k - 1])
  }

  /** The diff `get_diff` builds over all the rows of `actual`. */
  function Diff(rows: seq<string>, actual: seq<Option<string>>): seq<string>
  {
    DiffUpTo(rows, actual, |actual|)
  }

  /** The number of rows among the first `k` that differ from their expected row. */
  function Mismatches(rows: seq<string>, actual: seq<Option<string>>, k: nat): nat
    requires k <= |actual|
  {
    if k == 0 then 0
    else Mismatches(rows, actual, k - 1) + (if actual[k - 1] == Some(LineAt(rows, k - 1)) then 0 else 1)
  }

  /** `get_diff(expected, actual)`: walks every row, never stopping early. */
  method GetDiff(expected: string, actual: seq<Option<string>>) returns (matched: bool, diff: seq<string>)
    ensures matched <==> AllMatch(ExpectedRows(expected), actual)
    ensures diff == Diff(ExpectedRows(expected), actual)
  {
    var expectedRows := SplitLines(expected);
    ghost var rows := ExpectedRows(expected);
    diff := [];
    matched := true;
    var index := 0;
    while index < |actual|
      invariant index <= |actual|
      invariant diff == DiffUpTo(rows, actual, index)
      invariant matched <==> MatchUpTo(rows, actual, index)
    {
      var expectedRow := RStrip(LineAt(expectedRows, index));
      var actualRow := actual[index];
      ExpectedRowsLine(expected, index);
      DiffStep(rows, actual, index);
      ghost var next := DiffUpTo(rows, actual, index + 1);
      if actualRow != Some(expectedRow) {
        diff := diff + ["-" + expectedRow];
        diff := diff + ["+" + ToS(actualRow)];
        matched := false;
        assert diff == next;
      } else {
        MatchedRowLine(expectedRow);
        diff := diff + [RStrip(" " + actualRow.value)];
        assert diff == next;
      }
      index := index + 1;
    }
  }

  /** One more row appends its own diff lines and its own comparison. */
  lemma DiffStep(rows: seq<string>, actual: seq<Option<string>>, k: nat)
    requires k < |actual|
    ensures DiffUpTo(rows, actual, k + 1) == DiffUpTo(rows, actual, k) + RowDiff(LineAt(rows, k), actual[k])
    ensures MatchUpTo(rows, actual, k + 1) <==> MatchUpTo(rows, actual, k) && actual[k] == Some(LineAt(rows, k))
  {
  }

  /** The diff has one line per matching row and two per differing row. */
  lemma {:induction false} DiffLength(rows: seq<string>, actual: seq<Option<string>>, k: nat)
    requires k <= |actual|
    ensures |DiffUpTo(rows, actual, k)| == k + Mismatches(rows, actual, k)
    ensures Mismatches(rows, actual, k) == 0 <==> MatchUpTo(rows, actual, k)
  {
    if k > 0 {
      DiffLength(rows, actual, k - 1);
      DiffStep(rows, actual, k - 1);
    }
  }

  /** No short cut: the diff of the first `k` rows is the start of the diff of
      all rows, so later rows only ever append lines. */
  lemma {:induction false} DiffExtends(rows: seq<string>, actual: seq<Option<string>>, k: nat)
    requires k <= |actual|
    ensures DiffUpTo(rows, actual, k) <= Diff(rows, actual)
    decreases |actual| - k
  {
    if k < |actual| {
      DiffExtends(rows, actual, k + 1);
    }
  }

  /** The diff lines of `k` matching rows. */
  function MatchedDiff(actual: seq<Option<string>>, k: nat): seq<string>
    requires k <= |actual|
  {
    if k == 0 then [] else MatchedDiff(actual, k - 1) + [MatchedLine(ToS(actual[k - 1]))]
  }

  /** The diff of matching rows holds one line per row, row `i` at index `i`. */
  lemma {:induction false} MatchedDiffLines(actual: seq<Option<string>>, k: nat)
    requires k <= |actual|
    ensures |MatchedDiff(actual, k)| == k
    ensures forall i :: 0 <= i < k ==> MatchedDiff(actual, k)[i] == MatchedLine(ToS(actual[i]))
  {
    if k > 0 {
      MatchedDiffLines(actual, k - 1);
    }
  }

  /** When the first `k` rows match, their diff is those rows themselves, one
      line each, each behind a space. */
  lemma {:induction false} DiffOfMatched(rows: seq<string>, actual: seq<Option<string>>, k: nat)
    requires k <= |actual| && MatchUpTo(rows, actual, k)
    ensures DiffUpTo(rows, actual, k) == MatchedDiff(actual, k)
  {
    if k > 0 {
      DiffOfMatched(rows, actual, k - 1);
      DiffStep(rows, actual, k - 1);
    }
  }

  /** The diff flags a mismatch exactly when some row differs: a screen matches
      if and only if no diff line starts with `-`. */
  lemma DiffFlagsMismatch(rows: seq<string>, actual: seq<Option<string>>)
    ensures AllMatch(rows, actual) <==>
      forall j :: 0 <= j < |Diff(rows, actual)| ==> Diff(rows, actual)[j] == "" || Diff(rows, actual)[j][0] != '-'
  {
    var d := Diff(rows, actual);
    if AllMatch(rows, actual) {
      DiffOfMatched(rows, actual, |actual|);
      MatchedDiffLines(actual, |actual|);
    } else {
      var i :| 0 <= i < |actual| && actual[i] != Some(LineAt(rows, i));
      DiffStep(rows, actual, i);
      DiffExtends(rows, actual, i + 1);
      var p := DiffUpTo(rows, actual, i);
      assert d[|p|] == "-" + LineAt(rows, i);
    }
  }

  const DiffHeader := "screen did not match expected content:\n--- expected\n+++ actual\n"

  /** What a whole-screen comparison of `actual` against `expected` does:
      pass when every row matches, otherwise raise with the full diff. */
  function DiffOutcome(expected: string, actual: seq<Option<string>>): Outcome
  {
    if AllMatch(ExpectedRows(expected), actual) then Pass
    else Fail(DiffHeader + JoinLines(Diff(ExpectedRows(expected), actual)))
  }

  /** A text made only of whitespace matches exactly the screens whose rows
      are all present and empty: `""`, `"\n"` and `"  \n \n"` all match a
      blank screen. */
  lemma BlankTextMatchesBlankScreen(expected: string, actual: seq<Option<string>>)
    requires AllSpace(expected)
    ensures AllMatch(ExpectedRows(expected), actual) <==> forall i :: 0 <= i < |actual| ==> actual[i] == Some("")
  {
    forall i: nat ensures LineAt(ExpectedRows(expected), i) == "" {
      BlankTextLines(expected, i);
      ExpectedRowsLine(expected, i);
    }
  }

  /** The diff reads the expected rows only line by line: two lists of rows
      that agree at every index, past their ends included, give the same
      verdict and the same diff. */
  lemma {:induction false} AgreeingLinesSameDiff(l1: seq<string>, l2: seq<string>, actual: seq<Option<string>>, k: nat)
    requires k <= |actual|
    requires forall i: nat :: LineAt(l1, i) == LineAt(l2, i)
    ensures DiffUpTo(l1, actual, k) == DiffUpTo(l2, actual, k)
    ensures MatchUpTo(l1, actual, k) <==> MatchUpTo(l2, actual, k)
  {
    if k > 0 {
      AgreeingLinesSameDiff(l1, l2, actual, k - 1);
      assert LineAt(l1, k - 1) == LineAt(l2, k - 1);
    }
  }

  /** Whitespace at the end of the expected text, spaces and line feeds
      alike, never changes the outcome of a screen comparison. */
  lemma TrailingBlankTextIgnored(expected: string, w: string, actual: seq<Option<string>>)
    requires AllSpace(w)
    ensures DiffOutcome(expected + w, actual) == DiffOutcome(expected, actual)
  {
    forall i: nat ensures LineAt(ExpectedRows(expected + w), i) == LineAt(ExpectedRows(expected), i) {
      TrailingBlankTextLines(expected, w, i);
      ExpectedRowsLine(expected + w, i);
      ExpectedRowsLine(expected, i);
    }
    AgreeingLinesSameDiff(ExpectedRows(expected + w), ExpectedRows(expected), actual, |actual|);
  }

  // ---------------------------------------------------------------------------
  // assert_contents_at, selecting rows by a count

  /** `rows.slice(row_start, row_end)` after `row_end += 1 if row_end.zero?`:
      `row_end` acts as a number of rows, and 0 is read as 1. */
  function CountWindow(rows: seq<Option<string>>, rowStart: nat, rowEnd: nat): Option<seq<Option<string>>>
  {
    Slice(rows, rowStart, if rowEnd == 0 then 1 else rowEnd)
  }

  /** The window `(0, 0)` is exactly row 0. */
  lemma ZeroWindowIsFirstRow(rows: seq<Option<string>>)
    requires |rows| > 0
    ensures CountWindow(rows, 0, 0) == Some([rows[0]])
  {
    assert rows[0..1] == [rows[0]];
  }

  /** Away from the end of the screen, the window holds `row_end` rows starting
      at `row_start`: the rows `row_start .. row_start + row_end - 1`. */
  lemma CountWindowRows(rows: seq<Option<string>>, rowStart: nat, rowEnd: nat)
    requires 0 < rowEnd && rowStart + rowEnd <= |rows|
    ensures CountWindow(rows, rowStart, rowEnd) == Some(rows[rowStart..rowStart + rowEnd])
  {
  }

  /** `assert_contents_at(row_start, row_end, expected)` of the assertion mixin. */
  method AssertContentsAt(s: Snapshot, rowStart: nat, rowEnd: nat, expected: string) returns (o: Outcome)
    ensures Validate(s, rowEnd).Fail? ==> o == Validate(s, rowEnd)
    ensures Validate(s, rowEnd).Pass? && CountWindow(s.rows, rowStart, rowEnd).None? ==> o == NoMethod("each_with_index")
    ensures Validate(s, rowEnd).Pass? && CountWindow(s.rows, rowStart, rowEnd).Some? ==>
      o == DiffOutcome(expected, CountWindow(s.rows, rowStart, rowEnd).value)
  {
    o := Validate(s, rowEnd);
    if o.Fail? {
      return;
    }
    var count := rowEnd;
    if count == 0 {
      count := count + 1;
    }
    var window := Slice(s.rows, rowStart, count);
    if window.None? {
      return NoMethod("each_with_index");
    }
    var matched, diff := GetDiff(expected, window.value);
    if matched {
      return Pass;
    }
    return Fail(DiffHeader + JoinLines(diff));
  }

  /** Reading `row_end` as a count lets a window pass although the last row it
      names differs: on rows `a`, `b`, `c`, `(0, 1, "a\nX")` compares row 0
      only and passes, while rows 0 through 1 do not match `"a\nX"`. */
  lemma CountWindowSkipsNamedRow()
    ensures var rows := [Some("a"), Some("b"), Some("c")];
      && CountWindow(rows, 0, 1) == Some([Some("a")])
      && DiffOutcome("a\nX", [Some("a")]) == Pass
      && Range(rows, 0, 1) == Some([Some("a"), Some("b")])
      && DiffOutcome("a\nX", [Some("a"), Some("b")]).Fail?
  {
    var rows := [Some("a"), Some("b"), Some("c")];
    assert rows[0..1] == [Some("a")];
    assert rows[0..2] == [Some("a"), Some("b")];
    FieldsAroundLineFeed("a", "X");
    FieldsOfLine("a");
    FieldsOfLine("X");
    assert "a" + "\n" + "X" == "a\nX";
    assert SplitLines("a\nX") == ["a", "X"];
    assert RStrip("a") == "a";
    assert RStrip("X") == "X";
    assert ExpectedRows("a\nX") == ["a", "X"];
    assert AllMatch(["a", "X"], [Some("a")]);
    assert LineAt(["a", "X"], 1) == "X";
    assert !AllMatch(["a", "X"], [Some("a"), Some("b")]);
  }
}
