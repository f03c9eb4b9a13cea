/** The row matchers: one row compared exactly, for emptiness, at a column
    position, for a substring, prefix, suffix or regular expression, and a
    window of rows against a regular expression. Every single-row matcher
    runs the height check on its row number before it reads the row, and
    trims only the expected value, never the row. */
module RowAssertions {
  import opened RubyCore
  import opened Terminal
  import opened Assertions

  // ---------------------------------------------------------------------------
  // assert_row

  /** `assert_row(row_number, expected)`. */
  function AssertRow(s: Snapshot, n: nat, expected: string): (o: Outcome)
    ensures Validate(s, n).Fail? ==> o == Validate(s, n)
    ensures Validate(s, n).Pass? ==> (o.Pass? <==> Row(s, n) == Some(RStrip(expected)))
    ensures o.Fail? && Validate(s, n).Pass? ==>
      o.message == "expected row " + NatToString(n) + " to be " + Inspect(RStrip(expected))
        + " but got " + GetInspection(Row(s, n))
    ensures !o.NoMethod?
  {
    if Validate(s, n).Fail? then Validate(s, n)
    else
      var e := RStrip(expected);
      var actual := Row(s, n);
      if actual.Some? && actual.value == e then Pass
      else Fail("expected row " + NatToString(n) + " to be " + Inspect(e) + " but got " + GetInspection(actual))
  }

  /** Only the expected value is trimmed: a row with a leading space does not
      match the same text without it, whatever trails the expected text. */
  lemma LeadingSpaceMatters(s: Snapshot, n: nat, w: string)
    requires Validate(s, n).Pass? && Row(s, n) == Some(" foo") && AllSpace(w)
    ensures AssertRow(s, n, "foo" + w).Fail?
    ensures AssertRow(s, n, " foo" + w) == Pass
  {
    RStripAppendBlank("foo", w);
    RStripOfPadded("foo", "");
    assert "foo" + "" == "foo";
    RStripAppendBlank(" foo", w);
    RStripOfPadded(" foo", "");
    assert " foo" + "" == " foo";
  }

  // ---------------------------------------------------------------------------
  // assert_row_is_empty

  /** `assert_row_is_empty(row_number)`: the row must be exactly `""`; a nil
      row fails. */
  function AssertRowIsEmpty(s: Snapshot, n: nat): (o: Outcome)
    ensures Validate(s, n).Fail? ==> o == Validate(s, n)
    ensures Validate(s, n).Pass? ==> (o.Pass? <==> Row(s, n) == Some(""))
    ensures o.Fail? && Validate(s, n).Pass? ==>
      o.message == "expected row " + NatToString(n) + " to be empty but got " + GetInspection(Row(s, n))
    ensures !o.NoMethod?
  {
    if Validate(s, n).Fail? then Validate(s, n)
    else if Row(s, n) == Some("") then Pass
    else Fail("expected row " + NatToString(n) + " to be empty but got " + GetInspection(Row(s, n)))
  }

  /** A row is empty exactly when it matches any text made only of whitespace. */
  lemma IsEmptyIsBlankRow(s: Snapshot, n: nat, blank: string)
    requires AllSpace(blank)
    ensures AssertRowIsEmpty(s, n).Pass? <==> AssertRow(s, n, blank).Pass?
  {
    RStripAllSpace(blank);
  }

  // ---------------------------------------------------------------------------
  // assert_row_at

  /** `assert_row_at(row_number, column_start, column_end, expected)`: after
      `column_end += 1`, `row[column_start, column_end]` is compared with the
      trimmed expected value, so the second number is used as a length. */
  function AssertRowAt(s: Snapshot, n: nat, columnStart: nat, columnEnd: nat, expected: string): (o: Outcome)
    ensures Validate(s, n).Fail? ==> o == Validate(s, n)
    ensures Validate(s, n).Pass? ==>
      (o.Pass? <==> Row(s, n).Some? && Slice(Row(s, n).value, columnStart, columnEnd + 1) == Some(RStrip(expected)))
    ensures o.Fail? && Validate(s, n).Pass? ==>
      o.message == "expected row " + NatToString(n) + " to contain " + RStrip(expected) + " at "
        + NatToString(columnStart) + "-" + NatToString(columnEnd + 1) + " and got "
        + GetInspectionBounded(Row(s, n), columnStart, columnEnd + 1)
    ensures !o.NoMethod?
  {
    if Validate(s, n).Fail? then Validate(s, n)
    else
      var e := RStrip(expected);
      var actual := Row(s, n);
      var length := columnEnd + 1;
      if actual.Some? && Slice(actual.value, columnStart, length) == Some(e) then Pass
      else
        Fail("expected row " + NatToString(n) + " to contain " + e + " at " + NatToString(columnStart)
             + "-" + NatToString(length) + " and got " + GetInspectionBounded(actual, columnStart, length))
  }

  /** What the position check compares: the trimmed expected value must be
      exactly the `column_end + 1` characters from `column_start`, or all the
      characters from there when the row ends sooner. */
  lemma RowAtComparesLength(s: Snapshot, n: nat, columnStart: nat, columnEnd: nat, expected: string)
    requires Validate(s, n).Pass?
    ensures AssertRowAt(s, n, columnStart, columnEnd, expected).Pass? <==>
      Row(s, n).Some? && columnStart <= |Row(s, n).value| &&
      |RStrip(expected)| == Min(columnEnd + 1, |Row(s, n).value| - columnStart) &&
      forall k :: 0 <= k < |RStrip(expected)| ==> Row(s, n).value[columnStart + k] == RStrip(expected)[k]
  {
    if Row(s, n).Some? && columnStart <= |Row(s, n).value| {
      var w := Slice(Row(s, n).value, columnStart, columnEnd + 1).value;
      if |RStrip(expected)| == |w| && forall k :: 0 <= k < |w| ==> Row(s, n).value[columnStart + k] == RStrip(expected)[k] {
        assert w == RStrip(expected);
      }
    }
  }

  /** Reading `column_end` as a length: inside a longer row, the columns 1
      through 2 of `foobar` hold `oo`, yet `(1, 2, "oo")` compares `oob`
      and fails. */
  lemma RowAtEndReadAsLength(s: Snapshot)
    requires s.height.None? && s.rows == [Some("foobar")]
    ensures "foobar"[1..3] == "oo"
    ensures AssertRowAt(s, 0, 1, 2, "oo").Fail?
    ensures AssertRowAtColumns(s, 0, 1, 2, "oo") == Pass
  {
    RStripOfPadded("oo", "");
    assert "oo" + "" == "oo";
    assert "foobar"[1..4] == "oob";
    assert "foobar"[1..3] == "oo";
  }

  /** The position check over the inclusive columns `column_start` through
      `column_end`, as the parameter names describe: the characters in that
      span (cut short at the end of the row) must equal the trimmed expected
      value; an end before the start selects nothing and fails. */
  function AssertRowAtColumns(s: Snapshot, n: nat, columnStart: nat, columnEnd: nat, expected: string): (o: Outcome)
    ensures Validate(s, n).Fail? ==> o == Validate(s, n)
    ensures !o.NoMethod?
  {
    if Validate(s, n).Fail? then Validate(s, n)
    else
      var e := RStrip(expected);
      var actual := Row(s, n);
      if actual.Some? && columnStart <= columnEnd && Slice(actual.value, columnStart, columnEnd - columnStart + 1) == Some(e)
      then Pass
      else
        Fail("expected row " + NatToString(n) + " to contain " + e + " at " + NatToString(columnStart)
             + "-" + NatToString(columnEnd) + " and got "
             + GetInspectionBounded(actual, columnStart, if columnStart <= columnEnd then columnEnd - columnStart + 1 else 0))
  }

  /** The corrected check passes exactly when the row's characters in the
      inclusive span `column_start .. column_end` are the trimmed expected
      value, and from column 0 it agrees with the check as written. */
  lemma RowAtColumnsSpan(s: Snapshot, n: nat, columnStart: nat, columnEnd: nat, expected: string)
    requires Validate(s, n).Pass?
    ensures AssertRowAtColumns(s, n, columnStart, columnEnd, expected).Pass? <==>
      Row(s, n).Some? && columnStart <= columnEnd && columnStart <= |Row(s, n).value| &&
      Row(s, n).value[columnStart..Min(columnEnd + 1, |Row(s, n).value|)] == RStrip(expected)
    ensures columnStart == 0 ==>
      AssertRowAtColumns(s, n, columnStart, columnEnd, expected).Pass? == AssertRowAt(s, n, columnStart, columnEnd, expected).Pass?
  {
  }

  // ---------------------------------------------------------------------------
  // assert_row_like, assert_row_starts_with, assert_row_ends_with

  /** `assert_row_like(row_number, expected)`: the present row contains the
      trimmed expected value. */
  function AssertRowLike(s: Snapshot, n: nat, expected: string): (o: Outcome)
    ensures Validate(s, n).Fail? ==> o == Validate(s, n)
    ensures Validate(s, n).Pass? ==> (o.Pass? <==> Row(s, n).Some? && Includes(Row(s, n).value, RStrip(expected)))
    ensures o.Fail? && Validate(s, n).Pass? ==>
      o.message == "expected row " + NatToString(n) + " to be like " + Inspect(RStrip(expected))
        + " but got " + GetInspection(Row(s, n))
    ensures !o.NoMethod?
  {
    if Validate(s, n).Fail? then Validate(s, n)
    else
      var e := RStrip(expected);
      var actual := Row(s, n);
      if actual.Some? && Includes(actual.value, e) then Pass
      else Fail("expected row " + NatToString(n) + " to be like " + Inspect(e) + " but got " + GetInspection(actual))
  }

  /** `assert_row_starts_with(row_number, expected)`. */
  function AssertRowStartsWith(s: Snapshot, n: nat, expected: string): (o: Outcome)
    ensures Validate(s, n).Fail? ==> o == Validate(s, n)
    ensures Validate(s, n).Pass? ==> (o.Pass? <==> Row(s, n).Some? && StartsWith(Row(s, n).value, RStrip(expected)))
    ensures o.Fail? && Validate(s, n).Pass? ==>
      o.message == "expected row " + NatToString(n) + " to start with " + Inspect(RStrip(expected))
        + " and got " + GetInspection(Row(s, n))
    ensures !o.NoMethod?
  {
    if Validate(s, n).Fail? then Validate(s, n)
    else
      var e := RStrip(expected);
      var actual := Row(s, n);
      if actual.Some? && StartsWith(actual.value, e) then Pass
      else Fail("expected row " + NatToString(n) + " to start with " + Inspect(e) + " and got " + GetInspection(actual))
  }

  /** `assert_row_ends_with(row_number, expected)`. */
  function AssertRowEndsWith(s: Snapshot, n: nat, expected: string): (o: Outcome)
    ensures Validate(s, n).Fail? ==> o == Validate(s, n)
    ensures Validate(s, n).Pass? ==> (o.Pass? <==> Row(s, n).Some? && EndsWith(Row(s, n).value, RStrip(expected)))
    ensures o.Fail? && Validate(s, n).Pass? ==>
      o.message == "expected row " + NatToString(n) + " to end with " + Inspect(RStrip(expected))
        + " and got " + GetInspection(Row(s, n))
    ensures !o.NoMethod?
  {
    if Validate(s, n).Fail? then Validate(s, n)
    else
      var e := RStrip(expected);
      var actual := Row(s, n);
      if actual.Some? && EndsWith(actual.value, e) then Pass
      else Fail("expected row " + NatToString(n) + " to end with " + Inspect(e) + " and got " + GetInspection(actual))
  }

  /** An empty or all-whitespace expected value is found in, starts and ends
      every present row. */
  lemma BlankExpectedAlwaysFound(s: Snapshot, n: nat, blank: string)
    requires AllSpace(blank) && Validate(s, n).Pass? && Row(s, n).Some?
    ensures AssertRowLike(s, n, blank) == Pass
    ensures AssertRowStartsWith(s, n, blank) == Pass
    ensures AssertRowEndsWith(s, n, blank) == Pass
  {
    RStripAllSpace(blank);
    EmptyIsEverywhere(Row(s, n).value);
  }

  /** An exact match is also a substring, prefix and suffix match. */
  lemma ExactRowIsFound(s: Snapshot, n: nat, expected: string)
    requires AssertRow(s, n, expected) == Pass
    ensures AssertRowLike(s, n, expected) == Pass
    ensures AssertRowStartsWith(s, n, expected) == Pass
    ensures AssertRowEndsWith(s, n, expected) == Pass
  {
    var e := RStrip(expected);
    IncludesMiddle("", e, "");
    assert "" + e + "" == e;
  }

  /** Trimming is idempotent, so every row check gives the same outcome for
      `expected` and for `expected.rstrip`. */
  lemma TrimmedExpectedSameOutcome(s: Snapshot, n: nat, expected: string)
    ensures AssertRow(s, n, RStrip(expected)) == AssertRow(s, n, expected)
    ensures AssertRowLike(s, n, RStrip(expected)) == AssertRowLike(s, n, expected)
    ensures AssertRowStartsWith(s, n, RStrip(expected)) == AssertRowStartsWith(s, n, expected)
    ensures AssertRowEndsWith(s, n, RStrip(expected)) == AssertRowEndsWith(s, n, expected)
  {
    RStripIdempotent(expected);
  }

  // ---------------------------------------------------------------------------
  // assert_row_regexp

  /** `assert_row_regexp(row_number, regexp_str)`: the regular expression is
      the predicate `matches`, and `source` is the text it was built from. */
  function AssertRowRegexp(s: Snapshot, n: nat, source: string, matches: string -> bool): (o: Outcome)
    ensures Validate(s, n).Fail? ==> o == Validate(s, n)
    ensures Validate(s, n).Pass? ==> (o.Pass? <==> Row(s, n).Some? && matches(Row(s, n).value))
    ensures o.Fail? && Validate(s, n).Pass? ==>
      o.message == "expected row " + NatToString(n) + " to match regexp " + source
        + " but it did not. Row value " + GetInspection(Row(s, n))
    ensures !o.NoMethod?
  {
    if Validate(s, n).Fail? then Validate(s, n)
    else
      var actual := Row(s, n);
      if actual.Some? && matches(actual.value) then Pass
      else Fail("expected row " + NatToString(n) + " to match regexp " + source
                + " but it did not. Row value " + GetInspection(actual))
  }

  // ---------------------------------------------------------------------------
  // assert_rows_each_match_regexp

  /** The first `k` rows of the window are present and match. */
  predicate EachMatches(w: seq<Option<string>>, k: nat, matches: string -> bool)
    requires k <= |w|
  {
    forall j :: 0 <= j < k ==> w[j].Some? && matches(w[j].value)
  }

  /** `assert_rows_each_match_regexp(row_start, row_end, regexp_str)`: after
      the height check on `row_end`, each row of the count-based window must
      be present and match; the first that is not raises, naming its index
      within the window rather than its row number. */
  method AssertRowsEachMatchRegexp(s: Snapshot, rowStart: nat, rowEnd: nat, source: string, matches: string -> bool)
    returns (o: Outcome)
    ensures Validate(s, rowEnd).Fail? ==> o == Validate(s, rowEnd)
    ensures Validate(s, rowEnd).Pass? && CountWindow(s.rows, rowStart, rowEnd).None? ==> o == NoMethod("each_with_index")
    ensures Validate(s, rowEnd).Pass? && CountWindow(s.rows, rowStart, rowEnd).Some? ==>
      var w := CountWindow(s.rows, rowStart, rowEnd).value;
      && (o.Pass? <==> EachMatches(w, |w|, matches))
      && !o.NoMethod?
      && (o.Fail? ==>
            exists k :: 0 <= k < |w| && EachMatches(w, k, matches) && !(w[k].Some? && matches(w[k].value)) &&
              o.message == "expected row " + NatToString(k) + " to match regexp " + source
                + " but it did not. Row value " + GetInspection(w[k]))
  {
    o := Validate(s, rowEnd);
    if o.Fail? {
      return;
    }
    var count := rowEnd;
    if count == 0 {
      count := count + 1;
    }
    var window := Slice(s.rows, rowStart, count);
    if window.None? {
      return NoMethod("each_with_index");
    }
    var w := window.value;
    var index := 0;
    while index < |w|
      invariant index <= |w|
      invariant EachMatches(w, index, matches)
    {
      var actualRow := w[index];
      if !(actualRow.Some? && matches(actualRow.value)) {
        return Fail("expected row " + NatToString(index) + " to match regexp " + source
                    + " but it did not. Row value " + GetInspection(actualRow));
      }
      index := index + 1;
    }
    return Pass;
  }

  // ---------------------------------------------------------------------------
  // assert_rows_match_regexp

  /** The window's rows, each right-trimmed. */
  function StrippedRows(w: seq<Option<string>>): seq<Option<string>>
    requires forall j :: 0 <= j < |w| ==> w[j].Some?
  {
    seq(|w|, j requires 0 <= j < |w| => Some(RStrip(w[j].value)))
  }

  /** Rows with nothing to trim are left as they are by the trimming pass. */
  lemma StrippingTrimmedRows(w: seq<Option<string>>)
    requires forall j :: 0 <= j < |w| ==> w[j].Some? && RStrip(w[j].value) == w[j].value
    ensures StrippedRows(w) == w
  {
  }

  /** Trimming each row can only shorten the joined text, and never by more
      than the trailing whitespace it drops: the trimmed join is no longer
      than the plain one. */
  lemma {:induction false} StrippedJoinShorter(w: seq<Option<string>>)
    requires forall j :: 0 <= j < |w| ==> w[j].Some?
    ensures |Join(StrippedRows(w))| <= |Join(w)|
    decreases |w|
  {
    if |w| > 0 {
      var u := w[..|w| - 1];
      StrippedJoinShorter(u);
      assert StrippedRows(w)[..|w| - 1] == StrippedRows(u);
      RStripSpec(w[|w| - 1].value);
    }
  }

  /** The text `assert_rows_match_regexp` matches: the window joined with no
      separator, nil rows contributing nothing, after trimming each row when
      `remove_newlines` is set. */
  function JoinedWindow(w: seq<Option<string>>, removeNewlines: bool): string
    requires removeNewlines ==> forall j :: 0 <= j < |w| ==> w[j].Some?
  {
    if removeNewlines then Join(StrippedRows(w)) else Join(w)
  }

  /** The trimming pass of `assert_rows_match_regexp`: every slot of `slices`
      is replaced by its right-trimmed text in order, and the pass stops at the
      first nil slot, whose `rstrip` does not exist. */
  method StripInPlace(slices: array<Option<string>>) returns (complete: bool)
    modifies slices
    ensures complete <==> forall j :: 0 <= j < slices.Length ==> old(slices[j]).Some?
    ensures complete ==> slices[..] == StrippedRows(old(slices[..]))
  {
    var i := 0;
    while i < slices.Length
      invariant i <= slices.Length
      invariant forall j :: 0 <= j < i ==> old(slices[j]).Some? && slices[j] == Some(RStrip(old(slices[j]).value))
      invariant forall j :: i <= j < slices.Length ==> slices[j] == old(slices[j])
    {
      var slice := slices[i];
      if slice.None? {
        return false;
      }
      slices[i] := Some(RStrip(slice.value));
      i := i + 1;
    }
    return true;
  }

  /** `assert_rows_match_regexp(row_start, row_end, regexp_str, remove_newlines:)`:
      the window of rows is (with `remove_newlines`) trimmed in place row by
      row, joined, and matched as one text. A nil window has no
      `each_with_index` (when trimming) or `join`, and a nil row in it has no
      `rstrip`. */
  method AssertRowsMatchRegexp(s: Snapshot, rowStart: nat, rowEnd: nat, source: string, matches: string -> bool,
                               removeNewlines: bool)
    returns (o: Outcome)
    ensures Validate(s, rowEnd).Fail? ==> o == Validate(s, rowEnd)
    ensures Validate(s, rowEnd).Pass? && CountWindow(s.rows, rowStart, rowEnd).None? ==>
      o == NoMethod(if removeNewlines then "each_with_index" else "join")
    ensures Validate(s, rowEnd).Pass? && CountWindow(s.rows, rowStart, rowEnd).Some? ==>
      var w := CountWindow(s.rows, rowStart, rowEnd).value;
      if removeNewlines && exists j :: 0 <= j < |w| && w[j].None? then o == NoMethod("rstrip")
      else
        && (o.Pass? <==> matches(JoinedWindow(w, removeNewlines)))
        && (o.Fail? ==>
              o.message == "expected rows " + NatToString(rowStart) + "-"
                + NatToString(if rowEnd == 0 then 1 else rowEnd) + " to match regexp " + source
                + " but they did not. Rows value " + Inspect(JoinedWindow(w, removeNewlines)))
        && !o.NoMethod?
  {
    o := Validate(s, rowEnd);
    if o.Fail? {
      return;
    }
    var count := rowEnd;
    if count == 0 {
      count := count + 1;
    }
    var window := Slice(s.rows, rowStart, count);
    if window.None? {
      return NoMethod(if removeNewlines then "each_with_index" else "join");
    }
    var w := window.value;
    var slices := new Option<string>[|w|](j requires 0 <= j < |w| => w[j]);
    assert slices[..] == w;
    if removeNewlines {
      var complete := StripInPlace(slices);
      if !complete {
        return NoMethod("rstrip");
      }
    }
    var actual := Join(slices[..]);
    assert actual == JoinedWindow(w, removeNewlines);
    assert removeNewlines ==> forall j :: 0 <= j < |w| ==> w[j].Some?;
    if matches(actual) {
      return Pass;
    }
    return Fail("expected rows " + NatToString(rowStart) + "-" + NatToString(count) + " to match regexp " + source
                + " but they did not. Rows value " + Inspect(actual));
  }
}
