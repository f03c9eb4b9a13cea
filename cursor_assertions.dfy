/** The cursor matchers: position, visible and hidden. */
module CursorAssertions {
  import opened RubyCore
  import opened Terminal

  /** `[a, b].inspect` for two integers. */
  function PairInspect(a: int, b: int): string
  {
    "[" + IntToString(a) + ", " + IntToString(b) + "]"
  }

  /** Two pairs print alike only when they are the same pair: the first
      comma of the printed pair sits right after the first number. */
  lemma PairInspectInjective(a: int, b: int, c: int, d: int)
    requires PairInspect(a, b) == PairInspect(c, d)
    ensures a == c && b == d
  {
    var p, q := PairInspect(a, b), PairInspect(c, d);
    var sa, sb, sc, sd := IntToString(a), IntToString(b), IntToString(c), IntToString(d);
    IntToStringNoComma(a);
    IntToStringNoComma(c);
    assert p[1 + |sa|] == ',';
    assert q[1 + |sc|] == ',';
    assert forall k :: 0 <= k < |sa| ==> p[1 + k] == sa[k];
    assert forall k :: 0 <= k < |sc| ==> q[1 + k] == sc[k];
    assert |sa| == |sc|;
    assert sa == p[1..1 + |sa|] == q[1..1 + |sc|] == sc;
    IntToStringInjective(a, c);
    assert sb == p[3 + |sa|..|p| - 1] == q[3 + |sc|..|q| - 1] == sd;
    IntToStringInjective(b, d);
  }

  const PositionPrefix := "expected cursor to be at "

  /** `assert_cursor_position(x, y)`: passes exactly when the cursor is at
      `(x, y)`; otherwise the message prints both pairs in that order. */
  function AssertCursorPosition(s: Snapshot, x: int, y: int): (o: Outcome)
    ensures o.Pass? <==> s.cursorX == x && s.cursorY == y
    ensures !o.NoMethod?
    ensures o.Fail? ==> StartsWith(o.message, PositionPrefix + PairInspect(x, y) + " but was at ")
  {
    if [s.cursorX, s.cursorY] == [x, y] then Pass
    else Fail(PositionPrefix + PairInspect(x, y) + " but was at " + PairInspect(s.cursorX, s.cursorY))
  }

  /** A failure message names where the cursor actually was: two snapshots
      that fail the same check with the same message have their cursor at the
      same place. */
  lemma PositionMessageNamesCursor(s: Snapshot, t: Snapshot, x: int, y: int)
    requires AssertCursorPosition(s, x, y).Fail? && AssertCursorPosition(t, x, y).Fail?
    requires AssertCursorPosition(s, x, y).message == AssertCursorPosition(t, x, y).message
    ensures s.cursorX == t.cursorX && s.cursorY == t.cursorY
  {
    var head := PositionPrefix + PairInspect(x, y) + " but was at ";
    var m := AssertCursorPosition(s, x, y).message;
    assert m == head + PairInspect(s.cursorX, s.cursorY);
    assert m == head + PairInspect(t.cursorX, t.cursorY);
    assert PairInspect(s.cursorX, s.cursorY) == m[|head|..] == PairInspect(t.cursorX, t.cursorY);
    PairInspectInjective(s.cursorX, s.cursorY, t.cursorX, t.cursorY);
  }

  /** A cursor at (1, 2) checked against `(0, 0)` fails with the message
      `expected cursor to be at [0, 0] but was at [1, 2]`. */
  lemma PositionMessageExample(s: Snapshot)
    requires s.cursorX == 1 && s.cursorY == 2
    ensures AssertCursorPosition(s, 0, 0) == Fail(PositionPrefix + "[0, 0]" + " but was at " + "[1, 2]")
  {
    assert PairInspect(0, 0) == "[0, 0]";
    assert PairInspect(1, 2) == "[1, 2]";
  }

  /** The coordinates are ordered: a cursor at (1, 0) satisfies `(1, 0)` but
      not `(0, 1)`. */
  lemma PositionIsOrdered(s: Snapshot)
    requires s.cursorX == 1 && s.cursorY == 0
    ensures AssertCursorPosition(s, 1, 0) == Pass && AssertCursorPosition(s, 0, 1).Fail?
  {
  }

  /** `assert_cursor_visible`. */
  function AssertCursorVisible(s: Snapshot): (o: Outcome)
    ensures o.Pass? <==> s.cursorVisible
    ensures o.Fail? ==> o.message == "expected cursor to be visible was hidden"
    ensures !o.NoMethod?
  {
    if s.cursorVisible then Pass else Fail("expected cursor to be visible was hidden")
  }

  /** `assert_cursor_hidden`. */
  function AssertCursorHidden(s: Snapshot): (o: Outcome)
    ensures o.Pass? <==> !s.cursorVisible
    ensures o.Fail? ==> o.message == "expected cursor to be hidden was visible"
    ensures !o.NoMethod?
  {
    if CursorHidden(s) then Pass else Fail("expected cursor to be hidden was visible")
  }

  /** Exactly one of the two visibility checks passes on any snapshot. */
  lemma VisibleOrHidden(s: Snapshot)
    ensures AssertCursorVisible(s).Pass? != AssertCursorHidden(s).Pass?
  {
  }
}
