/** The whole-screen matchers: the full contents, an inclusive window of
    rows, a substring anywhere on the screen, and an empty screen. */
module ScreenAssertions {
  import opened RubyCore
  import opened Terminal
  import opened Assertions

  // ---------------------------------------------------------------------------
  // assert_contents

  /** `assert_contents(expected)`: the screen passes exactly when every row
      equals its right-trimmed expected line; otherwise the message is the
      fixed header followed by the diff, one line per entry. */
  method AssertContents(s: Snapshot, expected: string) returns (o: Outcome)
    ensures o == DiffOutcome(expected, s.rows)
  {
    var matched, diff := GetDiff(expected, s.rows);
    if matched {
      return Pass;
    }
    return Fail(DiffHeader + JoinLines(diff));
  }

  /** A failed whole-screen comparison names the first differing row: its
      expected line behind `-` and its actual text behind `+`, right after
      the diff lines of the matching rows before it. */
  lemma {:induction false} FailureShowsFirstMismatch(expected: string, actual: seq<Option<string>>, i: nat)
    requires i < |actual|
    requires MatchUpTo(ExpectedRows(expected), actual, i)
    requires actual[i] != Some(LineAt(ExpectedRows(expected), i))
    ensures DiffOutcome(expected, actual).Fail?
    ensures MatchedDiff(actual, i) + ["-" + LineAt(ExpectedRows(expected), i), "+" + ToS(actual[i])]
      <= Diff(ExpectedRows(expected), actual)
  {
    var rows := ExpectedRows(expected);
    DiffOfMatched(rows, actual, i);
    DiffStep(rows, actual, i);
    DiffExtends(rows, actual, i + 1);
  }

  /** Trailing whitespace of the expected text is ignored: a screen holding
      `foo` matches `"foo  \n \n"`. */
  lemma TrailingSpaceIgnored()
    ensures DiffOutcome("foo  \n \n", [Some("foo")]) == Pass
  {
    assert "foo" + "  \n \n" == "foo  \n \n";
    TrailingBlankTextIgnored("foo", "  \n \n", [Some("foo")]);
    FieldsOfLine("foo");
    RStripOfPadded("foo", "");
    assert "foo" + "" == "foo";
    assert ExpectedRows("foo") == ["foo"];
    assert MatchUpTo(["foo"], [Some("foo")], 1);
  }

  /** Leading whitespace of an expected line is not ignored: a screen
      holding `foo` does not match `" foo"`. */
  lemma LeadingSpaceMatters()
    ensures DiffOutcome(" foo", [Some("foo")]).Fail?
  {
    FieldsOfLine(" foo");
    RStripOfPadded(" foo", "");
    assert " foo" + "" == " foo";
    assert ExpectedRows(" foo") == [" foo"];
    assert LineAt([" foo"], 0) != "foo";
    assert !MatchUpTo([" foo"], [Some("foo")], 1);
  }

  // ---------------------------------------------------------------------------
  // assert_contents_at, over an inclusive range of rows

  /** `assert_contents_at(row_start, row_end, expected)`: after the height
      check on `row_end`, the rows `row_start` through `row_end` (an
      inclusive range, cut short at the end of the screen) are compared with
      `expected`; a start past the end of the screen leaves nil to iterate. */
  method AssertContentsAt(s: Snapshot, rowStart: nat, rowEnd: nat, expected: string) returns (o: Outcome)
    ensures Validate(s, rowEnd).Fail? ==> o == Validate(s, rowEnd)
    ensures Validate(s, rowEnd).Pass? && Range(s.rows, rowStart, rowEnd).None? ==> o == NoMethod("each_with_index")
    ensures Validate(s, rowEnd).Pass? && Range(s.rows, rowStart, rowEnd).Some? ==>
      o == DiffOutcome(expected, Range(s.rows, rowStart, rowEnd).value)
  {
    o := Validate(s, rowEnd);
    if o.Fail? {
      return;
    }
    var window := Range(s.rows, rowStart, rowEnd);
    if window.None? {
      return NoMethod("each_with_index");
    }
    var matched, diff := GetDiff(expected, window.value);
    if matched {
      return Pass;
    }
    return Fail(DiffHeader + JoinLines(diff));
  }

  /** On the screen, the inclusive window compares exactly the rows it names:
      it passes if and only if row `row_start + k` equals the `k`-th trimmed
      expected line for every row from `row_start` through `row_end`. */
  lemma InclusiveWindowChecksNamedRows(rows: seq<Option<string>>, rowStart: nat, rowEnd: nat, expected: string)
    requires rowStart <= rowEnd < |rows|
    ensures Range(rows, rowStart, rowEnd).Some?
    ensures |Range(rows, rowStart, rowEnd).value| == rowEnd - rowStart + 1
    ensures DiffOutcome(expected, Range(rows, rowStart, rowEnd).value) == Pass <==>
      forall k :: 0 <= k <= rowEnd - rowStart ==> rows[rowStart + k] == Some(LineAt(ExpectedRows(expected), k))
  {
    var w := Range(rows, rowStart, rowEnd).value;
    assert forall k :: 0 <= k <= rowEnd - rowStart ==> w[k] == rows[rowStart + k];
  }

  /** The inclusive window `(r, r)` is row `r` alone, and for `(0, 0)` it
      selects the same row as the count-based window, which reads 0 as 1. */
  lemma SingleRowWindowsAgree(rows: seq<Option<string>>, r: nat)
    requires r < |rows|
    ensures Range(rows, r, r) == Some([rows[r]])
    ensures CountWindow(rows, 0, 0) == Range(rows, 0, 0)
  {
    assert rows[r..r + 1] == [rows[r]];
    assert rows[0..1] == [rows[0]];
  }

  // ---------------------------------------------------------------------------
  // assert_contents_include

  const IncludeMessagePrefix := "Expected screen contents to include "

  /** What `assert_contents_include` passes on: no row is nil and some row
      includes `expected`. */
  predicate ContentsInclude(rows: seq<Option<string>>, expected: string)
  {
    (forall j :: 0 <= j < |rows| ==> rows[j].Some?) &&
    (exists j :: 0 <= j < |rows| && Includes(ToS(rows[j]), expected))
  }

  /** `assert_contents_include(expected)`: every row is asked whether it
      includes `expected` (the loop does not stop at the first hit), so a nil
      row anywhere raises `NoMethodError`; otherwise it passes exactly when
      some row includes `expected`. */
  method AssertContentsInclude(s: Snapshot, expected: string) returns (o: Outcome)
    ensures o.NoMethod? <==> exists j :: 0 <= j < |s.rows| && s.rows[j].None?
    ensures o.NoMethod? ==> o.name == "include?"
    ensures o.Pass? <==> ContentsInclude(s.rows, expected)
    ensures o.Fail? ==> o.message == IncludeMessagePrefix + expected + ", but it was not found."
  {
    var found := false;
    var i := 0;
    while i < |s.rows|
      invariant i <= |s.rows|
      invariant forall j :: 0 <= j < i ==> s.rows[j].Some?
      invariant found <==> exists j :: 0 <= j < i && Includes(ToS(s.rows[j]), expected)
    {
      var row := s.rows[i];
      if row.None? {
        return NoMethod("include?");
      }
      if Includes(row.value, expected) {
        found := true;
      }
      i := i + 1;
    }
    if found {
      return Pass;
    }
    return Fail(IncludeMessagePrefix + expected + ", but it was not found.");
  }

  /** A screen whose rows are all present passes `assert_contents_include`
      for any piece `row[a...b]` of any of its rows: the whole row, a single
      character of it and the empty string among them. */
  lemma IncludesPiecesOfRows(rows: seq<Option<string>>, j: nat, a: nat, b: nat)
    requires forall r :: 0 <= r < |rows| ==> rows[r].Some?
    requires j < |rows| && a <= b <= |rows[j].value|
    ensures ContentsInclude(rows, rows[j].value[a..b])
    ensures ContentsInclude(rows, rows[j].value)
    ensures ContentsInclude(rows, "")
  {
    var v := rows[j].value;
    IncludesMiddle(v[..a], v[a..b], v[b..]);
    assert v[..a] + v[a..b] + v[b..] == v;
    IncludesMiddle("", v, "");
    assert "" + v + "" == v;
    EmptyIsEverywhere(v);
  }

  // ---------------------------------------------------------------------------
  // assert_contents_empty

  /** `rows.all? { |s| s.to_s.empty? }`. */
  function AllBlank(rows: seq<Option<string>>): (r: bool)
    ensures r <==> forall j :: 0 <= j < |rows| ==> ToS(rows[j]) == ""
  {
    if |rows| == 0 then true
    else ToS(rows[0]) == "" && AllBlank(rows[1..])
  }

  /** `assert_contents_empty`: passes exactly when every row, nil read as the
      empty string, is empty. */
  function AssertContentsEmpty(s: Snapshot): (o: Outcome)
    ensures o.Pass? <==> forall j :: 0 <= j < |s.rows| ==> ToS(s.rows[j]) == ""
    ensures o.Fail? ==> o.message == "Expected screen to be empty, but found content."
    ensures !o.NoMethod?
  {
    if AllBlank(s.rows) then Pass else Fail("Expected screen to be empty, but found content.")
  }

  /** On a screen without nil rows, being empty and matching the empty text
      are the same thing; a nil row is empty to the emptiness check but never
      matches a line of text. */
  lemma EmptyIsEmptyText(s: Snapshot)
    ensures DiffOutcome("", s.rows) == Pass ==> AssertContentsEmpty(s) == Pass
    ensures AssertContentsEmpty(s) == Pass && (forall j :: 0 <= j < |s.rows| ==> s.rows[j].Some?) ==>
      DiffOutcome("", s.rows) == Pass
  {
    BlankTextMatchesBlankScreen("", s.rows);
  }
}
