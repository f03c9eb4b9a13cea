/** The column matchers. A column is read from the rows top to bottom,
    stopping at the first nil row: each row gives its character at the
    column, or nil when it is too short. Every column matcher runs the height
    check on the column number. */
module ColumnAssertions {
  import opened RubyCore
  import opened Terminal
  import opened Assertions

  // ---------------------------------------------------------------------------
  // get_column

  /** The number of rows before the first nil row. */
  function PresentCount(rows: seq<Option<string>>): (k: nat)
    ensures k <= |rows|
    ensures forall j :: 0 <= j < k ==> rows[j].Some?
    ensures k < |rows| ==> rows[k].None?
  {
    if |rows| == 0 || rows[0].None? then 0 else 1 + PresentCount(rows[1..])
  }

  /** The column cells: `row[col]` for every row before the first nil row. */
  function Column(rows: seq<Option<string>>, col: nat): seq<Option<string>>
  {
    seq(PresentCount(rows), j requires 0 <= j < PresentCount(rows) => CharAt(rows[j].value, col))
  }

  /** The column read as one string, short rows contributing nothing. */
  function ColumnString(rows: seq<Option<string>>, col: nat): string
  {
    Join(Column(rows, col))
  }

  /** `get_column(col_number)`. */
  method GetColumn(s: Snapshot, col: nat) returns (actual: seq<Option<string>>)
    ensures actual == Column(s.rows, col)
  {
    actual := [];
    var i := 0;
    while i < |s.rows|
      invariant i <= |s.rows|
      invariant forall j :: 0 <= j < i ==> s.rows[j].Some?
      invariant |actual| == i
      invariant forall j :: 0 <= j < i ==> actual[j] == CharAt(s.rows[j].value, col)
    {
      var row := s.rows[i];
      if row.None? {
        break;
      }
      actual := actual + [CharAt(row.value, col)];
      i := i + 1;
    }
  }

  /** Every cell is a single character or nil, so the column string is no
      longer than the number of rows read. */
  lemma {:induction false} ColumnStringLength(cells: seq<Option<string>>)
    requires forall j :: 0 <= j < |cells| ==> cells[j].None? || |cells[j].value| == 1
    ensures |Join(cells)| <= |cells|
    decreases |cells|
  {
    if |cells| > 0 {
      ColumnStringLength(cells[..|cells| - 1]);
    }
  }

  /** When every row read is long enough, the column string holds exactly
      one character per row: row `j`'s character at the column. */
  lemma {:induction false} ColumnOfLongRows(rows: seq<Option<string>>, col: nat, k: nat)
    requires k <= PresentCount(rows)
    requires forall j :: 0 <= j < k ==> col < |rows[j].value|
    ensures Join(Column(rows, col)[..k]) == seq(k, j requires 0 <= j < k => rows[j].value[col])
    decreases k
  {
    if k > 0 {
      ColumnOfLongRows(rows, col, k - 1);
      assert Column(rows, col)[..k][..k - 1] == Column(rows, col)[..k - 1];
    }
  }

  /** Rows too short to reach the column contribute nothing: when no row
      read reaches it, the column string is empty. */
  lemma {:induction false} ColumnOfShortRows(rows: seq<Option<string>>, col: nat, k: nat)
    requires k <= PresentCount(rows)
    requires forall j :: 0 <= j < k ==> |rows[j].value| <= col
    ensures Join(Column(rows, col)[..k]) == ""
    decreases k
  {
    if k > 0 {
      ColumnOfShortRows(rows, col, k - 1);
      assert Column(rows, col)[..k][..k - 1] == Column(rows, col)[..k - 1];
    }
  }

  /** The characters of column `col` in the first `k` rows, top to bottom,
      taking one from each row that reaches the column and none from a row
      that is too short. */
  function Reaching(rows: seq<Option<string>>, col: nat, k: nat): string
    requires k <= PresentCount(rows)
  {
    if k == 0 then ""
    else Reaching(rows, col, k - 1) + (if col < |rows[k - 1].value| then [rows[k - 1].value[col]] else "")
  }

  /** The column string is the characters of the rows that reach the column,
      in row order; rows too short to reach it are skipped wherever they
      stand, so rows `"ab"`, `"a"`, `"cd"` read `"bd"` at column 1. */
  lemma {:induction false} ColumnJoin(rows: seq<Option<string>>, col: nat, k: nat)
    requires k <= PresentCount(rows)
    ensures Join(Column(rows, col)[..k]) == Reaching(rows, col, k)
    ensures k == PresentCount(rows) ==> ColumnString(rows, col) == Reaching(rows, col, k)
    decreases k
  {
    if k > 0 {
      ColumnJoin(rows, col, k - 1);
      assert Column(rows, col)[..k][..k - 1] == Column(rows, col)[..k - 1];
    }
    assert k == PresentCount(rows) ==> Column(rows, col)[..k] == Column(rows, col);
  }

  /** An example of a short row among long ones. */
  lemma ColumnSkipsShortRow()
    ensures ColumnString([Some("ab"), Some("a"), Some("cd")], 1) == "bd"
  {
    var rows := [Some("ab"), Some("a"), Some("cd")];
    assert PresentCount(rows) == 3 by {
      assert rows[1..][1..][1..] == [];
    }
    ColumnJoin(rows, 1, 3);
  }

  // ---------------------------------------------------------------------------
  // assert_column

  /** Every cell of the column equals the character of `e` at the same row,
      both nil counting as equal. */
  predicate ColumnAgrees(rows: seq<Option<string>>, col: nat, e: string)
  {
    forall j :: 0 <= j < |Column(rows, col)| ==> Column(rows, col)[j] == CharAt(e, j)
  }

  /** `assert_column(col_number, expected)`: row by row, until the first nil
      row, the row's character at the column must equal the trimmed expected
      value's character at the row index. */
  method AssertColumn(s: Snapshot, col: nat, expected: string) returns (o: Outcome)
    ensures Validate(s, col).Fail? ==> o == Validate(s, col)
    ensures Validate(s, col).Pass? ==> (o.Pass? <==> ColumnAgrees(s.rows, col, RStrip(expected)))
    ensures o.Fail? && Validate(s, col).Pass? ==>
      o.message == "expected column " + NatToString(col) + " to be " + Inspect(RStrip(expected))
    ensures !o.NoMethod?
  {
    o := Validate(s, col);
    if o.Fail? {
      return;
    }
    var e := RStrip(expected);
    var i := 0;
    while i < |s.rows|
      invariant i <= |s.rows|
      invariant forall j :: 0 <= j < i ==> s.rows[j].Some? && CharAt(s.rows[j].value, col) == CharAt(e, j)
    {
      var row := s.rows[i];
      if row.None? {
        break;
      }
      if CharAt(row.value, col) != CharAt(e, i) {
        return Fail("expected column " + NatToString(col) + " to be " + Inspect(e));
      }
      i := i + 1;
    }
    return Pass;
  }

  /** A column that agrees with `e` reads, joined, as the start of `e` that
      its rows cover; characters of `e` past the last row are never looked at. */
  lemma AgreeingColumnString(rows: seq<Option<string>>, col: nat, e: string)
    requires ColumnAgrees(rows, col, e)
    ensures ColumnString(rows, col) == e[..Min(PresentCount(rows), |e|)]
    ensures ColumnAgrees(rows, col, e[..Min(PresentCount(rows), |e|)])
  {
    JoinAgreeing(Column(rows, col), e);
  }

  // ---------------------------------------------------------------------------
  // assert_column_is_empty

  /** A row whose cell at the column is blank: the row is empty, too short,
      or has a space there. */
  predicate BlankCell(row: string, col: nat)
  {
    row == "" || |row| < col + 1 || row[col] == ' '
  }

  /** `assert_column_is_empty(col_number)`: every row before the first nil
      row has a blank cell at the column. */
  method AssertColumnIsEmpty(s: Snapshot, col: nat) returns (o: Outcome)
    ensures Validate(s, col).Fail? ==> o == Validate(s, col)
    ensures Validate(s, col).Pass? ==>
      (o.Pass? <==> forall j :: 0 <= j < PresentCount(s.rows) ==> BlankCell(s.rows[j].value, col))
    ensures o.Fail? && Validate(s, col).Pass? ==> o.message == "expected column " + NatToString(col) + " to be empty"
    ensures !o.NoMethod?
  {
    o := Validate(s, col);
    if o.Fail? {
      return;
    }
    var i := 0;
    while i < |s.rows|
      invariant i <= |s.rows|
      invariant forall j :: 0 <= j < i ==> s.rows[j].Some? && BlankCell(s.rows[j].value, col)
    {
      var row := s.rows[i];
      if row.None? {
        break;
      }
      if !(row.value == "" || |row.value| < col + 1 || row.value[col] == ' ') {
        return Fail("expected column " + NatToString(col) + " to be empty");
      }
      i := i + 1;
    }
    return Pass;
  }

  /** The emptiness check reads the same cells as the column: a column is
      empty exactly when each of its cells is nil or a space. */
  lemma EmptyColumnCells(rows: seq<Option<string>>, col: nat)
    ensures (forall j :: 0 <= j < PresentCount(rows) ==> BlankCell(rows[j].value, col)) <==>
      forall j :: 0 <= j < |Column(rows, col)| ==> Column(rows, col)[j] in {None, Some(" ")}
  {
    forall j | 0 <= j < PresentCount(rows)
      ensures BlankCell(rows[j].value, col) <==> Column(rows, col)[j] in {None, Some(" ")}
    {
      var row := rows[j].value;
      if col < |row| {
        assert Column(rows, col)[j] == Some([row[col]]);
        assert [row[col]] == " " <==> row[col] == ' ';
      }
    }
  }

  // ---------------------------------------------------------------------------
  // assert_column_at

  /** Where the scan of `assert_column_at` stops, starting at row `i`: the
      first row past `row_end`, the first nil row, or the end of the screen. */
  function ScanStop(rows: seq<Option<string>>, i: nat, rowEnd: nat): (r: nat)
    ensures i <= r
    ensures r > i ==> r <= |rows| && r <= rowEnd + 1
    ensures forall j :: i <= j < r ==> rows[j].Some?
    ensures r < |rows| ==> r > rowEnd || rows[r].None?
    decreases |rows| - i
  {
    if i >= |rows| || i > rowEnd || rows[i].None? then i else ScanStop(rows, i + 1, rowEnd)
  }

  /** The cells `assert_column_at` collects: `row[col]` for the rows from
      `row_start` up to where the scan stops. */
  function ColumnWindow(rows: seq<Option<string>>, col: nat, rowStart: nat, rowEnd: nat): seq<Option<string>>
  {
    var stop := ScanStop(rows, rowStart, rowEnd);
    seq(stop - rowStart, k requires 0 <= k < stop - rowStart => CharAt(rows[rowStart + k].value, col))
  }

  /** Each cell of the window agrees with the expected character at its
      offset from `row_start`. */
  predicate WindowAgrees(w: seq<Option<string>>, e: string)
  {
    forall k :: 0 <= k < |w| ==> w[k] == CharAt(e, k)
  }

  /** What the column window check gives for the collected cells `w` and
      the trimmed expected value `e`: the first message as soon as a cell
      disagrees, otherwise a pass exactly when the cells joined are `e`. */
  function ColumnAtOutcome(w: seq<Option<string>>, col: nat, rowStart: nat, rowEnd: nat, e: string): Outcome
  {
    if !WindowAgrees(w, e) then Fail("expected column " + NatToString(col) + " to be " + Inspect(e))
    else if Join(w) == e then Pass
    else Fail("expected column " + NatToString(col) + " to contain " + e + " at " + NatToString(rowStart)
              + "-" + NatToString(rowEnd) + " and got " + Inspect(Join(w)))
  }

  /** `assert_column_at(col_number, row_start, row_end, expected)`: rows
      before `row_start` are skipped, the scan stops past `row_end` (an
      inclusive bound) or at a nil row, each cell read must equal the trimmed
      expected character at its offset, and at the end the cells joined must
      equal the trimmed expected value. */
  method AssertColumnAt(s: Snapshot, col: nat, rowStart: nat, rowEnd: nat, expected: string) returns (o: Outcome)
    ensures Validate(s, col).Fail? ==> o == Validate(s, col)
    ensures Validate(s, col).Pass? ==>
      o == ColumnAtOutcome(ColumnWindow(s.rows, col, rowStart, rowEnd), col, rowStart, rowEnd, RStrip(expected))
  {
    o := Validate(s, col);
    if o.Fail? {
      return;
    }
    var e := RStrip(expected);
    ghost var stop := ScanStop(s.rows, rowStart, rowEnd);
    ghost var w := ColumnWindow(s.rows, col, rowStart, rowEnd);
    var actual: seq<Option<string>> := [];
    var i := 0;
    while i < |s.rows|
      invariant i <= |s.rows|
      invariant i <= rowStart ==> actual == []
      invariant rowStart <= i ==> i <= stop && actual == w[..i - rowStart]
      invariant WindowAgrees(actual, e)
    {
      var row := s.rows[i];
      if i < rowStart {
        i := i + 1;
        continue;
      }
      if i > rowEnd || row.None? {
        break;
      }
      actual := actual + [CharAt(row.value, col)];
      if CharAt(row.value, col) != CharAt(e, i - rowStart) {
        assert i < stop;
        assert w[i - rowStart] != CharAt(e, i - rowStart);
        return Fail("expected column " + NatToString(col) + " to be " + Inspect(e));
      }
      i := i + 1;
    }
    assert actual == w;
    var joined := Join(actual);
    if joined == e {
      return Pass;
    }
    return Fail("expected column " + NatToString(col) + " to contain " + e + " at " + NatToString(rowStart)
                + "-" + NatToString(rowEnd) + " and got " + GetInspection(Some(joined)));
  }

  /** The window check passes exactly when every cell agrees with the trimmed
      expected value and the window is long enough to cover all of it. */
  lemma ColumnAtPasses(w: seq<Option<string>>, col: nat, rowStart: nat, rowEnd: nat, e: string)
    ensures ColumnAtOutcome(w, col, rowStart, rowEnd, e).Pass? <==> WindowAgrees(w, e) && |e| <= |w|
  {
    if WindowAgrees(w, e) {
      JoinAgreeing(w, e);
    }
  }

  /** The window holds the rows `row_start` through `row_end` when they are
      all present, one cell each. */
  lemma {:induction false} WindowOfPresentRows(rows: seq<Option<string>>, col: nat, rowStart: nat, rowEnd: nat)
    requires rowStart <= rowEnd < |rows|
    requires forall j :: rowStart <= j <= rowEnd ==> rows[j].Some?
    ensures |ColumnWindow(rows, col, rowStart, rowEnd)| == rowEnd - rowStart + 1
    ensures forall k :: 0 <= k <= rowEnd - rowStart ==>
      ColumnWindow(rows, col, rowStart, rowEnd)[k] == CharAt(rows[rowStart + k].value, col)
  {
    var stop := ScanStop(rows, rowStart, rowEnd);
    assert stop == rowEnd + 1;
  }

  // ---------------------------------------------------------------------------
  // assert_column_like, assert_column_starts_with, assert_column_ends_with

  /** `assert_column_like(col_number, expected)`. */
  method AssertColumnLike(s: Snapshot, col: nat, expected: string) returns (o: Outcome)
    ensures Validate(s, col).Fail? ==> o == Validate(s, col)
    ensures Validate(s, col).Pass? ==> (o.Pass? <==> Includes(ColumnString(s.rows, col), RStrip(expected)))
    ensures o.Fail? && Validate(s, col).Pass? ==>
      o.message == "expected column " + NatToString(col) + " to be like " + Inspect(RStrip(expected))
        + " but got " + Inspect(ColumnString(s.rows, col))
    ensures !o.NoMethod?
  {
    o := Validate(s, col);
    if o.Fail? {
      return;
    }
    var e := RStrip(expected);
    var cells := GetColumn(s, col);
    var actual := Join(cells);
    if Includes(actual, e) {
      return Pass;
    }
    return Fail("expected column " + NatToString(col) + " to be like " + Inspect(e)
                + " but got " + GetInspection(Some(actual)));
  }

  /** `assert_column_starts_with(col_number, expected)`. */
  method AssertColumnStartsWith(s: Snapshot, col: nat, expected: string) returns (o: Outcome)
    ensures Validate(s, col).Fail? ==> o == Validate(s, col)
    ensures Validate(s, col).Pass? ==> (o.Pass? <==> StartsWith(ColumnString(s.rows, col), RStrip(expected)))
    ensures o.Fail? && Validate(s, col).Pass? ==>
      o.message == "expected column " + NatToString(col) + " to start with " + Inspect(RStrip(expected))
        + " and got " + Inspect(ColumnString(s.rows, col))
    ensures !o.NoMethod?
  {
    o := Validate(s, col);
    if o.Fail? {
      return;
    }
    var e := RStrip(expected);
    var cells := GetColumn(s, col);
    var actual := Join(cells);
    if StartsWith(actual, e) {
      return Pass;
    }
    return Fail("expected column " + NatToString(col) + " to start with " + Inspect(e)
                + " and got " + GetInspection(Some(actual)));
  }

  /** `assert_column_ends_with(col_number, expected)`. */
  method AssertColumnEndsWith(s: Snapshot, col: nat, expected: string) returns (o: Outcome)
    ensures Validate(s, col).Fail? ==> o == Validate(s, col)
    ensures Validate(s, col).Pass? ==> (o.Pass? <==> EndsWith(ColumnString(s.rows, col), RStrip(expected)))
    ensures o.Fail? && Validate(s, col).Pass? ==>
      o.message == "expected column " + NatToString(col) + " to end with " + Inspect(RStrip(expected))
        + " and got " + Inspect(ColumnString(s.rows, col))
    ensures !o.NoMethod?
  {
    o := Validate(s, col);
    if o.Fail? {
      return;
    }
    var e := RStrip(expected);
    var cells := GetColumn(s, col);
    var actual := Join(cells);
    if EndsWith(actual, e) {
      return Pass;
    }
    return Fail("expected column " + NatToString(col) + " to end with " + Inspect(e)
                + " and got " + GetInspection(Some(actual)));
  }

  /** A column that matches exactly and covers the whole expected value also
      contains it, starts with it and ends with it. */
  lemma ExactColumnIsFound(rows: seq<Option<string>>, col: nat, e: string)
    requires ColumnAgrees(rows, col, e) && |e| <= PresentCount(rows)
    ensures ColumnString(rows, col) == e
    ensures Includes(ColumnString(rows, col), e)
    ensures StartsWith(ColumnString(rows, col), e) && EndsWith(ColumnString(rows, col), e)
  {
    AgreeingColumnString(rows, col, e);
    assert e[..|e|] == e;
    IncludesMiddle("", e, "");
    assert "" + e + "" == e;
  }
}
