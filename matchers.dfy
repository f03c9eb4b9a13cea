/** The older matcher mixin. Its row checks run no height check and call the
    string method straight on the row, so a nil row raises `NoMethodError`
    where the row matchers fail with a message; its contents checks share the
    diff of the assertion mixin. */
module Matchers {
  import opened RubyCore
  import opened Terminal
  import opened Assertions
  import RowAssertions

  // ---------------------------------------------------------------------------
  // Row checks

  /** `assert_row(row_number, expected)`: a nil row is not equal to any
      string, so it fails with `nil` in the message. */
  function AssertRow(s: Snapshot, n: nat, expected: string): (o: Outcome)
    ensures o.Pass? <==> Row(s, n) == Some(RStrip(expected))
    ensures o.Fail? ==>
      o.message == "expected row " + NatToString(n) + " to be " + Inspect(RStrip(expected))
        + " but got " + GetInspection(Row(s, n))
    ensures !o.NoMethod?
  {
    var e := RStrip(expected);
    var actual := Row(s, n);
    if actual == Some(e) then Pass
    else Fail("expected row " + NatToString(n) + " to be " + Inspect(e) + " but got " + GetInspection(actual))
  }

  /** `assert_row_at(row_number, column_start, column_end, expected)`: after
      `column_end += 1` the row is sliced with `[column_start, column_end]`,
      so the second number is a length; the message shows the same slice of
      the expected value and of the row, nil printing as nothing. */
  function AssertRowAt(s: Snapshot, n: nat, columnStart: nat, columnEnd: nat, expected: string): (o: Outcome)
    ensures o.NoMethod? <==> Row(s, n).None?
    ensures o.NoMethod? ==> o.name == "[]"
    ensures o.Pass? <==> Row(s, n).Some? && Slice(Row(s, n).value, columnStart, columnEnd + 1) == Some(RStrip(expected))
    ensures o.Fail? ==>
      o.message == "expected row " + NatToString(n) + " to contain "
        + ToS(Slice(RStrip(expected), columnStart, columnEnd + 1)) + " at " + NatToString(columnStart) + "-"
        + NatToString(columnEnd + 1) + " and got " + ToS(Slice(Row(s, n).value, columnStart, columnEnd + 1))
  {
    var e := RStrip(expected);
    var actual := Row(s, n);
    var length := columnEnd + 1;
    if actual.None? then NoMethod("[]")
    else if Slice(actual.value, columnStart, length) == Some(e) then Pass
    else
      Fail("expected row " + NatToString(n) + " to contain " + ToS(Slice(e, columnStart, length)) + " at "
           + NatToString(columnStart) + "-" + NatToString(length) + " and got "
           + ToS(Slice(actual.value, columnStart, length)))
  }

  /** `assert_row_like(row_number, expected)`. */
  function AssertRowLike(s: Snapshot, n: nat, expected: string): (o: Outcome)
    ensures o.NoMethod? <==> Row(s, n).None?
    ensures o.NoMethod? ==> o.name == "include?"
    ensures o.Pass? <==> Row(s, n).Some? && Includes(Row(s, n).value, RStrip(expected))
    ensures o.Fail? ==>
      o.message == "expected row " + NatToString(n) + " to be like " + Inspect(RStrip(expected))
        + " but got " + Inspect(Row(s, n).value)
  {
    var e := RStrip(expected);
    var actual := Row(s, n);
    if actual.None? then NoMethod("include?")
    else if Includes(actual.value, e) then Pass
    else Fail("expected row " + NatToString(n) + " to be like " + Inspect(e) + " but got " + Inspect(actual.value))
  }

  /** `assert_row_starts_with(row_number, expected)`. */
  function AssertRowStartsWith(s: Snapshot, n: nat, expected: string): (o: Outcome)
    ensures o.NoMethod? <==> Row(s, n).None?
    ensures o.NoMethod? ==> o.name == "start_with?"
    ensures o.Pass? <==> Row(s, n).Some? && StartsWith(Row(s, n).value, RStrip(expected))
    ensures o.Fail? ==>
      o.message == "expected row " + NatToString(n) + " to start with " + Inspect(RStrip(expected))
        + " and got " + Inspect(Row(s, n).value)
  {
    var e := RStrip(expected);
    var actual := Row(s, n);
    if actual.None? then NoMethod("start_with?")
    else if StartsWith(actual.value, e) then Pass
    else Fail("expected row " + NatToString(n) + " to start with " + Inspect(e) + " and got " + Inspect(actual.value))
  }

  /** `assert_row_ends_with(row_number, expected)`. */
  function AssertRowEndsWith(s: Snapshot, n: nat, expected: string): (o: Outcome)
    ensures o.NoMethod? <==> Row(s, n).None?
    ensures o.NoMethod? ==> o.name == "end_with?"
    ensures o.Pass? <==> Row(s, n).Some? && EndsWith(Row(s, n).value, RStrip(expected))
    ensures o.Fail? ==>
      o.message == "expected row " + NatToString(n) + " to end with " + Inspect(RStrip(expected))
        + " and got " + Inspect(Row(s, n).value)
  {
    var e := RStrip(expected);
    var actual := Row(s, n);
    if actual.None? then NoMethod("end_with?")
    else if EndsWith(actual.value, e) then Pass
    else Fail("expected row " + NatToString(n) + " to end with " + Inspect(e) + " and got " + Inspect(actual.value))
  }

  /** `assert_row_regexp(row_number, regexp_str)`, the regular expression
      given as the predicate `matches` built from the text `source`. */
  function AssertRowRegexp(s: Snapshot, n: nat, source: string, matches: string -> bool): (o: Outcome)
    ensures o.NoMethod? <==> Row(s, n).None?
    ensures o.NoMethod? ==> o.name == "match?"
    ensures o.Pass? <==> Row(s, n).Some? && matches(Row(s, n).value)
    ensures o.Fail? ==>
      o.message == "expected row " + NatToString(n) + " to match regexp " + source
        + " but it did not. Row value " + Inspect(Row(s, n).value)
  {
    var actual := Row(s, n);
    if actual.None? then NoMethod("match?")
    else if matches(actual.value) then Pass
    else Fail("expected row " + NatToString(n) + " to match regexp " + source
              + " but it did not. Row value " + Inspect(actual.value))
  }

  /** Without a declared height the row matchers and these checks agree on
      every present row, message included; they part only on a nil row, which
      the row matchers report as `nil` and these checks cannot call a method
      on. */
  lemma AgreeWithRowMatchers(s: Snapshot, n: nat, expected: string, source: string, matches: string -> bool)
    requires s.height.None?
    ensures AssertRow(s, n, expected) == RowAssertions.AssertRow(s, n, expected)
    ensures Row(s, n).Some? ==>
      && AssertRowLike(s, n, expected) == RowAssertions.AssertRowLike(s, n, expected)
      && AssertRowStartsWith(s, n, expected) == RowAssertions.AssertRowStartsWith(s, n, expected)
      && AssertRowEndsWith(s, n, expected) == RowAssertions.AssertRowEndsWith(s, n, expected)
      && AssertRowRegexp(s, n, source, matches) == RowAssertions.AssertRowRegexp(s, n, source, matches)
    ensures Row(s, n).None? ==>
      && RowAssertions.AssertRowLike(s, n, expected).Fail?
      && AssertRowLike(s, n, expected) == NoMethod("include?")
  {
  }

  /** The position checks of both mixins pass on exactly the same rows when
      no height is declared; on a nil row one fails and the other raises. */
  lemma RowAtAgreesWithRowMatcher(s: Snapshot, n: nat, columnStart: nat, columnEnd: nat, expected: string)
    requires s.height.None?
    ensures AssertRowAt(s, n, columnStart, columnEnd, expected).Pass? <==>
      RowAssertions.AssertRowAt(s, n, columnStart, columnEnd, expected).Pass?
    ensures Row(s, n).None? ==>
      && RowAssertions.AssertRowAt(s, n, columnStart, columnEnd, expected).Fail?
      && AssertRowAt(s, n, columnStart, columnEnd, expected) == NoMethod("[]")
  {
  }

  // ---------------------------------------------------------------------------
  // Contents checks

  /** `assert_contents(expected)`: the loop written out here is the one of
      `get_diff`, so it is the same comparison of the whole screen. */
  method AssertContents(s: Snapshot, expected: string) returns (o: Outcome)
    ensures o == DiffOutcome(expected, s.rows)
  {
    var matched, diff := GetDiff(expected, s.rows);
    if matched {
      return Pass;
    }
    return Fail(DiffHeader + JoinLines(diff));
  }

  /** `assert_contents_at(row_start, row_end, expected)`: the count-based
      window of the assertion mixin, without its height check. */
  method AssertContentsAt(s: Snapshot, rowStart: nat, rowEnd: nat, expected: string) returns (o: Outcome)
    ensures CountWindow(s.rows, rowStart, rowEnd).None? ==> o == NoMethod("each_with_index")
    ensures CountWindow(s.rows, rowStart, rowEnd).Some? ==>
      o == DiffOutcome(expected, CountWindow(s.rows, rowStart, rowEnd).value)
  {
    var count := rowEnd;
    if count == 0 {
      count := count + 1;
    }
    var window := Slice(s.rows, rowStart, count);
    if window.None? {
      return NoMethod("each_with_index");
    }
    var matched, diff := GetDiff(expected, window.value);
    if matched {
      return Pass;
    }
    return Fail(DiffHeader + JoinLines(diff));
  }

  /** A window starting past the end of the screen is nil and raises, while
      a window starting exactly at the end is empty and passes. */
  lemma WindowPastTheEnd(rows: seq<Option<string>>, rowEnd: nat, expected: string)
    ensures CountWindow(rows, |rows| + 1, rowEnd).None?
    ensures CountWindow(rows, |rows|, rowEnd) == Some([])
    ensures DiffOutcome(expected, []) == Pass
  {
    assert MatchUpTo(ExpectedRows(expected), [], 0);
  }
}
