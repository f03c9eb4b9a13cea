/** The terminal snapshot every matcher reads, and the outcome of one matcher. */
module Terminal {
  import opened RubyCore

  /** One capture of the terminal. `rows` holds one entry per screen line and
      may hold nil entries; `height` is the declared height, nil when none was
      set; the cursor position is (`cursorX`, `cursorY`). A snapshot is never
      changed by a matcher. */
  datatype Snapshot = Snapshot(
    rows: seq<Option<string>>,
    height: Option<nat>,
    cursorX: int,
    cursorY: int,
    cursorVisible: bool)

  /** What one assertion does: return normally, raise `MatchError` with a
      message, or raise `NoMethodError` by calling the method `name` on nil. */
  datatype Outcome = Pass | Fail(message: string) | NoMethod(name: string)

  /** `row(n)`: the row at `n`, nil when there is none. */
  function Row(s: Snapshot, n: nat): Option<string>
  {
    if n < |s.rows| then s.rows[n] else None
  }

  /** `cursor_hidden?`. */
  predicate CursorHidden(s: Snapshot)
  {
    !s.cursorVisible
  }
}
