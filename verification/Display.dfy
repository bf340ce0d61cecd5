/** The screen half of `terminal_context` as a value, and the operations on cursor, cells and size. */
module Display {
  import opened Sequences
  import opened Text
  import opened Cells
  import Utf8

  /**
   * A snapshot of the terminal without its byte parser. The last four fields are logs the
   * program itself does not read: rows scrolled out, bytes written to the pty, `Copy`
   * payloads and `RequestPaste` calls.
   */
  datatype Screen = Screen(
    showCursor: bool,
    wrap: bool,
    reverse: bool,
    origin: bool,
    insert: bool,
    tabs: seq<bool>,
    saveRow: int,
    saveCol: int,
    saveStyle: Style,
    style: Style,
    history: seq<Row>,
    grid: Grid,
    cols: nat,
    rows: nat,
    row: int,
    col: int,
    top: int,
    bottom: int,
    online: bool,
    scrolled: seq<Row>,
    sent: string,
    copies: seq<string>,
    requests: nat
  )

  /** `utf8proc_charwidth`, left uninterpreted. */
  type Width = nat -> int

  const MAX_HISTORY_LINES: nat := 5000
  const TAB_SIZE: nat := 8

  // ------------------------------------------------------------------ invariant

  /** A row of the right length whose first cell is not the right half of a wide character. */
  predicate RowOk(r: Row, cols: nat) {
    |r| == cols && cols >= 1 && !IsTail(r[0])
  }

  predicate GridOk(g: Grid, rows: nat, cols: nat) {
    |g| == rows && forall i :: 0 <= i < |g| ==> RowOk(g[i], cols)
  }

  /** A side of the screen: two at least, and small enough for sums with a character width or a tab distance. */
  predicate Side(n: nat) { 2 <= n && IsInt(n + TAB_SIZE) }

  predicate Shape(s: Screen) {
    && Side(s.rows) && Side(s.cols)
    && GridOk(s.grid, s.rows, s.cols)
    && |s.tabs| == s.cols
    && 0 <= s.top < s.bottom < s.rows
    && s.history == Last(s.scrolled, MAX_HISTORY_LINES)
  }

  lemma RowLengths(g: Grid, rows: nat, cols: nat)
    requires GridOk(g, rows, cols)
    ensures |g| == rows && forall k :: 0 <= k < |g| ==> |g[k]| == cols
  {
    forall k | 0 <= k < |g| ensures |g[k]| == cols {
      assert RowOk(g[k], cols);
    }
  }

  predicate CursorOk(s: Screen) {
    0 <= s.row < s.rows && 0 <= s.col <= s.cols
  }

  predicate WeightOk(st: Style) { st.font.Regular? || st.font.Bold? }

  /** The invariant of the screen. */
  predicate ScreenOk(s: Screen) {
    Shape(s) && CursorOk(s) && WeightOk(s.style) && WeightOk(s.saveStyle)
  }

  /** No `Copy` and no `RequestPaste` was called. */
  predicate NoCalls(s: Screen, t: Screen) { t.copies == s.copies && t.requests == s.requests }

  /** A visible cursor was not hidden. */
  predicate StillShown(s: Screen, t: Screen) { s.showCursor ==> t.showCursor }

  /** The saved cursor and style were not replaced. */
  predicate SameSaved(s: Screen, t: Screen) {
    t.saveRow == s.saveRow && t.saveCol == s.saveCol && t.saveStyle == s.saveStyle
  }

  /** Nothing was called or saved, and no row left the screen for the scrollback. */
  predicate SameLog(s: Screen, t: Screen) {
    NoCalls(s, t) && StillShown(s, t) && SameSaved(s, t) && t.scrolled == s.scrolled
  }

  /** Nothing was called, and at most one row left the screen for the scrollback. */
  predicate LogGrows(s: Screen, t: Screen) {
    NoCalls(s, t) && StillShown(s, t) && s.scrolled <= t.scrolled && |t.scrolled| <= |s.scrolled| + 1
  }

  // --------------------------------------------------------------------- resize

  function ResizeGrid(g: Grid, rows: nat, cols: nat): (h: Grid)
    ensures |h| == rows
    ensures forall i :: 0 <= i < rows ==> h[i] == Resized(if i < |g| then g[i] else [], cols, BLANK)
  {
    seq(rows, i requires 0 <= i => Resized(if i < |g| then g[i] else [], cols, BLANK))
  }

  /** Stops below the old width are kept; new ones stand every eight columns from the old width. */
  function ResizeTabs(tabs: seq<bool>, oldCols: nat, cols: nat): (t: seq<bool>)
    ensures |t| == cols
    ensures forall j :: 0 <= j < cols ==>
              t[j] == ((j < |tabs| && tabs[j]) || (j >= oldCols && (j - oldCols) % TAB_SIZE == 0))
  {
    seq(cols, j requires 0 <= j =>
      (j < |tabs| && tabs[j]) || (j >= oldCols && (j - oldCols) % TAB_SIZE == 0))
  }

  function Resize(s: Screen, rows: nat, cols: nat): (t: Screen)
    ensures SameLog(s, t)
  {
    s.(rows := rows, cols := cols, top := 0, bottom := rows - 1,
       grid := ResizeGrid(s.grid, rows, cols),
       row := Min(s.row, rows - 1),
       col := Min(s.col, cols - 1),
       tabs := ResizeTabs(s.tabs, s.cols, cols))
  }

  // --------------------------------------------------------------------- cursor

  function Within(x: int, lo: int, hi: int): (y: int)
    requires lo <= hi
    ensures lo <= y <= hi && (lo <= x <= hi ==> y == x)
  {
    if x < lo then lo else if x > hi then hi else x
  }

  /** `ClampCursor`: into the scrolling region in origin mode, else into the screen. */
  function Clamp(s: Screen): (t: Screen)
    requires Shape(s)
    ensures CursorOk(t) && t.col < t.cols && SameLog(s, t) && t.grid == s.grid
    ensures Shape(t) && t.style == s.style && t.saveStyle == s.saveStyle
  {
    s.(row := if s.origin then Within(s.row, s.top, s.bottom) else Within(s.row, 0, s.rows - 1),
       col := Within(s.col, 0, s.cols - 1))
  }

  function SetCursor(s: Screen, row: int, col: int): (t: Screen)
    requires Shape(s)
    ensures CursorOk(t) && t.col < t.cols && SameLog(s, t) && t.grid == s.grid
    ensures Shape(t) && t.style == s.style && t.saveStyle == s.saveStyle
  {
    Clamp(s.(row := if s.origin then row + s.top else row, col := col))
  }

  function MoveCursor(s: Screen, rowDiff: int, colDiff: int): (t: Screen)
    requires Shape(s)
    ensures CursorOk(t) && t.col < t.cols && SameLog(s, t) && t.grid == s.grid
    ensures Shape(t) && t.style == s.style && t.saveStyle == s.saveStyle
  {
    var t := Clamp(s);
    SetCursor(t, t.row + rowDiff, t.col + colDiff)
  }

  // -------------------------------------------------------------------- scrolling

  /** `vector::erase` of one row at `i`, then `vector::insert` of a blank row at `j`. */
  function EraseInsert(g: Grid, i: nat, j: nat, cols: nat): Grid
    requires i < |g| && j < |g|
  {
    var h := g[..i] + g[i + 1..];
    h[..j] + [BlankRow(cols)] + h[j..]
  }

  /** `DropFirstRowIfOverflow`, to be called after the row number was advanced. */
  function Drop(s: Screen): (t: Screen)
    requires Shape(s) && 0 <= s.row <= s.rows && 0 <= s.col <= s.cols
    ensures Shape(t) && CursorOk(t) && LogGrows(s, t)
    ensures t.style == s.style && t.saveStyle == s.saveStyle
    ensures t.col == s.col
  {
    if s.row == s.bottom + 1 then
      var scrolled := s.scrolled + [s.grid[s.top]];
      var grid := EraseInsert(s.grid, s.top, s.bottom, s.cols);
      assert grid == ShiftUp(s.grid, s.top, s.bottom + 1, 1, BlankRow(s.cols));
      s.(history := Last(s.history + [s.grid[s.top]], MAX_HISTORY_LINES),
         scrolled := scrolled, grid := grid, row := s.row - 1)
    else if s.row >= s.rows then s.(row := s.rows - 1)
    else s
  }

  function LineFeed(s: Screen): (t: Screen)
    requires ScreenOk(s)
    ensures ScreenOk(t) && LogGrows(s, t)
  {
    Drop(s.(row := s.row + 1))
  }

  /** ESC M. */
  function ReverseIndex(s: Screen): (t: Screen)
    requires ScreenOk(s)
    ensures ScreenOk(t) && SameLog(s, t)
  {
    if s.row == s.top then
      s.(grid := ShiftDown(s.grid, s.top, s.bottom + 1, 1, BlankRow(s.cols)))
    else Clamp(s.(row := s.row - 1))
  }

  // -------------------------------------------------------------------- printing

  /** Where the search for the start of a wide character stops: the last non-tail at or before `c`, or -1. */
  function BackOff(r: Row, c: int): (d: int)
    requires c < |r|
    ensures -1 <= d
    ensures d >= 0 ==> d <= c && !IsTail(r[d])
    ensures forall j :: 0 <= j <= c && d < j ==> IsTail(r[j])
  {
    if c < 0 then -1 else if IsTail(r[c]) then BackOff(r, c - 1) else c
  }

  /** The state in which the cell is written: after wrapping, or after backing off. */
  function MakeRoom(s: Screen, cw: nat): (t: Screen)
    requires ScreenOk(s) && 1 <= cw <= 2
    ensures ScreenOk(t) && t.col + cw <= t.cols && LogGrows(s, t)
  {
    if s.col + cw > s.cols then
      if s.wrap then Drop(s.(row := s.row + 1, col := 0))
      else
        assert RowOk(s.grid[s.row], s.cols);
        var c := BackOff(s.grid[s.row], s.cols - cw);
        assert 0 <= c <= s.cols - cw;
        s.(col := c)
    else s
  }

  function PutCell(s: Screen, code: nat): (t: Screen)
    requires ScreenOk(s) && s.col < s.cols
    requires code == WIDE_TAIL ==> s.col > 0
    ensures ScreenOk(t) && SameLog(s, t)
  {
    assert RowOk(s.grid[s.row], s.cols);
    s.(grid := s.grid[s.row := s.grid[s.row][s.col := Cell(code, s.style)]], col := s.col + 1)
  }

  /** `InsertUtf8`. */
  function InsertPoint(w: Width, s: Screen, code: nat): (t: Screen)
    requires ScreenOk(s) && code <= Utf8.MAX_POINT
    ensures ScreenOk(t) && LogGrows(s, t)
  {
    if w(code) <= 0 then s
    else
      var cw := Min(w(code), 2);
      var t := MakeRoom(s, cw);
      if cw == 1 then PutCell(t, code)
      else
        var u := PutCell(t, code);
        if u.col == u.cols then u else PutCell(u, WIDE_TAIL)
  }

  /** Insert mode moves the rest of the row right by one before a printable byte is stored. */
  function OpenGap(s: Screen): (t: Screen)
    requires ScreenOk(s)
    ensures ScreenOk(t) && SameLog(s, t)
  {
    if s.col < s.cols then
      var r := s.grid[s.row];
      assert RowOk(r, s.cols);
      s.(grid := s.grid[s.row := ShiftDown(r, s.col, s.cols, 1, r[s.col])])
    else s
  }

  // ------------------------------------------------------------------- tabulation

  /** First tab stop at or after `c`, or the row length. */
  function NextStop(tabs: seq<bool>, c: nat): (d: nat)
    ensures c <= |tabs| ==> c <= d <= |tabs|
    ensures c > |tabs| ==> d == c
    ensures d < |tabs| ==> tabs[d]
    ensures forall j :: c <= j < d && j < |tabs| ==> !tabs[j]
    decreases |tabs| - c
  {
    if c < |tabs| && !tabs[c] then NextStop(tabs, c + 1) else c
  }

  function Tab(s: Screen): (t: Screen)
    requires ScreenOk(s)
    ensures ScreenOk(t) && SameLog(s, t)
  {
    Clamp(s.(col := NextStop(s.tabs, s.col + 1)))
  }

  // -------------------------------------------------------------------- erasing

  function EraseCells(s: Screen, lo: nat, hi: nat): (t: Screen)
    requires ScreenOk(s) && lo <= hi <= s.cols
    ensures ScreenOk(t) && SameLog(s, t)
  {
    assert RowOk(s.grid[s.row], s.cols);
    s.(grid := s.grid[s.row := Fill(s.grid[s.row], lo, hi, BLANK)])
  }

  function EraseRows(s: Screen, lo: nat, hi: nat): (t: Screen)
    requires ScreenOk(s) && lo <= hi <= s.rows
    ensures ScreenOk(t) && SameLog(s, t)
  {
    s.(grid := Fill(s.grid, lo, hi, BlankRow(s.cols)))
  }

  /** ESC # 8. */
  function AlignmentPattern(s: Screen): (t: Screen)
    requires ScreenOk(s)
    ensures ScreenOk(t) && SameLog(s, t)
  {
    s.(grid := Rep(Rep(BLANK.(code := 0x45), s.cols), s.rows))
  }

  /** `WriteFull`: nothing is sent without a pty. */
  function Write(s: Screen, bytes: string): (t: Screen)
    ensures SameLog(s, t) && t.grid == s.grid
  {
    if s.online then s.(sent := s.sent + bytes) else s
  }

  // ------------------------------------------------------------------ first state

  /** The screen of a default-constructed `terminal_context`. */
  function NewScreen(online: bool): Screen {
    Screen(true, true, false, false, false, [], 0, 0,
         DEFAULT_STYLE, DEFAULT_STYLE, [], [], 0, 0, 0, 0, 0, -1, online, [], "", [], 0)
  }

  lemma ResizeKeepsOk(s: Screen, rows: nat, cols: nat)
    requires ScreenOk(s) && Side(rows) && Side(cols)
    ensures ScreenOk(Resize(s, rows, cols))
  {
    var t := Resize(s, rows, cols);
    forall i | 0 <= i < rows ensures RowOk(t.grid[i], cols) {
      if i < s.rows {
        assert RowOk(s.grid[i], s.cols);
      }
    }
  }

  /** The screen the program starts with, for every size of at least two by two. */
  lemma FreshOk(online: bool, rows: nat, cols: nat)
    requires Side(rows) && Side(cols)
    ensures ScreenOk(Resize(NewScreen(online), rows, cols))
  {
    var t := Resize(NewScreen(online), rows, cols);
    assert forall i :: 0 <= i < rows ==> RowOk(t.grid[i], cols);
  }
}
