/** What the screen operations change, cell by cell and coordinate by coordinate. */
module Effects {
  import opened Sequences
  import opened Text
  import opened Cells
  import opened Display
  import C = Csi

  // -------------------------------------------------------------------- erasing

  /** Reading order of screen positions. */
  predicate Before(i: int, j: int, k: int, l: int) { i < k || (i == k && j < l) }

  /** `t` is `s` with exactly the positions chosen by `erased` blank. */
  ghost predicate Erases(s: Screen, t: Screen, erased: (int, int) -> bool) {
    && t == s.(grid := t.grid) && |t.grid| == |s.grid|
    && forall i, j :: 0 <= i < |s.grid| && 0 <= j < s.cols ==>
         && |t.grid[i]| == |s.grid[i]| == s.cols
         && t.grid[i][j] == if erased(i, j) then BLANK else s.grid[i][j]
  }

  /** ED 0 blanks from the cursor to the end of the screen. */
  lemma EraseBelowErases(s: Screen)
    requires ScreenOk(s)
    ensures C.EraseDisplay(s, "").Some?
         && Erases(s, C.EraseDisplay(s, "").value, (i, j) => !Before(i, j, s.row, s.col))
  {
    RowLengths(s.grid, s.rows, s.cols);
  }

  /** ED 1 blanks up to and with the cursor. */
  lemma EraseAboveErases(s: Screen)
    requires ScreenOk(s) && s.col < s.cols
    ensures C.EraseDisplay(s, "1").Some?
         && Erases(s, C.EraseDisplay(s, "1").value, (i, j) => !Before(s.row, s.col, i, j))
  {
    RowLengths(s.grid, s.rows, s.cols);
  }

  /** ED 2 blanks everything. */
  lemma EraseAllErases(s: Screen)
    requires ScreenOk(s)
    ensures C.EraseDisplay(s, "2").Some? && Erases(s, C.EraseDisplay(s, "2").value, (i, j) => true)
  {
    RowLengths(s.grid, s.rows, s.cols);
  }

  /** EL does the same within the cursor row. */
  lemma EraseLineErases(s: Screen)
    requires ScreenOk(s)
    ensures Erases(s, C.EraseLine(s, ""), (i, j) => i == s.row && j >= s.col)
    ensures Erases(s, C.EraseLine(s, "1"), (i, j) => i == s.row && j <= s.col)
    ensures Erases(s, C.EraseLine(s, "2"), (i, j) => i == s.row)
  {
    RowLengths(s.grid, s.rows, s.cols);
  }

  /** ECH n blanks the n cells from the cursor on. */
  lemma EraseCharsErases(s: Screen, buf: string)
    requires ScreenOk(s) && C.EditFits(s, buf, 'X')
    ensures Erases(s, C.EraseChars(s, buf), (i, j) => i == s.row && s.col <= j < s.col + C.Count(buf))
  {
    hide Scan;
    RowLengths(s.grid, s.rows, s.cols);
  }

  // -------------------------------------------------------------- inserting, deleting

  /**
   * Place `i` of `r` when the window [a, b) of `s` was moved `n` places up: the place `n` before it, and `x`
   * where that is before the window. A negative `n` takes it from behind: what stands there in `r`, which is
   * what already stood there in `s` when that is behind the window.
   */
  ghost predicate DownAt<T(!new)>(s: seq<T>, a: int, b: int, n: int, x: T, r: seq<T>, i: nat)
    requires i < |s| == |r|
  {
    if i < a || b <= i then r[i] == s[i]
    else if i - n < a then r[i] == x
    else 0 <= i - n < |s| && r[i] == if n < 0 && i - n < b then r[i - n] else s[i - n]
  }

  /** The same for `n` places down: `x` where the place is behind the window. */
  ghost predicate UpAt<T(!new)>(s: seq<T>, a: int, b: int, n: int, x: T, r: seq<T>, i: nat)
    requires i < |s| == |r|
  {
    if i < a || b <= i then r[i] == s[i]
    else if i + n >= b then r[i] == x
    else 0 <= i + n < |s| && r[i] == if n < 0 && i + n >= a then r[i + n] else s[i + n]
  }

  ghost predicate MovedDown<T(!new)>(s: seq<T>, a: int, b: int, n: int, x: T, r: seq<T>) {
    |r| == |s| && forall i :: 0 <= i < |s| ==> DownAt(s, a, b, n, x, r, i)
  }

  ghost predicate MovedUp<T(!new)>(s: seq<T>, a: int, b: int, n: int, x: T, r: seq<T>) {
    |r| == |s| && forall i :: 0 <= i < |s| ==> UpAt(s, a, b, n, x, r, i)
  }

  lemma CopyDownMoves<T(!new)>(s: seq<T>, a: nat, b: nat, n: int, x: T)
    requires a <= b && (a < b ==> b + Max(0, -n) <= |s|) && b <= |s|
    ensures MovedDown(s, a, b, n, x, CopyDown(s, a, b, n, x))
  {
    hide CopyDown;
    var r := CopyDown(s, a, b, n, x);
    forall i | 0 <= i < |s| ensures DownAt(s, a, b, n, x, r, i) {
      if a <= i < b {
        PlaceDownStep(s, a, b, n, x, i);
      }
    }
  }

  lemma CopyUpMoves<T(!new)>(s: seq<T>, a: nat, b: nat, n: int, x: T)
    requires a <= b <= |s| && (a < b ==> a + n >= 0)
    ensures MovedUp(s, a, b, n, x, CopyUp(s, a, b, n, x))
  {
    hide CopyUp;
    var r := CopyUp(s, a, b, n, x);
    forall i | 0 <= i < |s| ensures UpAt(s, a, b, n, x, r, i) {
      if a <= i < b {
        PlaceUpStep(s, a, b, n, x, i);
      }
    }
  }

  // --------------------------------------------------------------------- printing

  /**
   * `h` is `g` with a character stored at (row, col), a wide one with its right half behind. All other
   * cells are those of `g`.
   */
  ghost predicate Stores(g: Grid, h: Grid, row: int, col: int, code: nat, wide: bool, style: Style) {
    && |h| == |g| && 0 <= row < |g| && |h[row]| == |g[row]|
    && 0 <= col && col + (if wide then 2 else 1) <= |g[row]|
    && (forall i :: 0 <= i < |g| && i != row ==> h[i] == g[i])
    && forall j :: 0 <= j < |g[row]| ==>
         h[row][j] == if j == col then Cell(code, style)
                      else if wide && j == col + 1 then Cell(WIDE_TAIL, style)
                      else g[row][j]
  }

  /** The row after the cursor row: a region that ends at the cursor scrolls, and the last row is not left. */
  function NextRow(s: Screen): int {
    if s.row == s.bottom || s.row == s.rows - 1 then s.row else s.row + 1
  }

  /** The grid in which it is: with the cursor row at the bottom margin the region moves up by one row. */
  ghost predicate NextGrid(s: Screen, g: Grid)
    requires Shape(s)
  {
    if s.row == s.bottom then IsShiftUp(s.grid, s.top, s.bottom + 1, 1, BlankRow(s.cols), g) else g == s.grid
  }

  ghost predicate NextLog(s: Screen, t: Screen)
    requires Shape(s)
  {
    t.scrolled == if s.row == s.bottom then s.scrolled + [s.grid[s.top]] else s.scrolled
  }

  /** The last column from which `cw` columns are left and which holds no right half. */
  predicate LastStart(r: Row, cw: nat, c: int)
    requires cw > 0
  {
    && 0 <= c <= |r| - cw && !IsTail(r[c])
    && forall j :: c < j <= |r| - cw ==> IsTail(r[j])
  }

  /** In a state with room a character is stored at the cursor. */
  lemma PutStores(u: Screen, code: nat, wide: bool)
    requires ScreenOk(u) && u.col + (if wide then 2 else 1) <= u.cols && code != WIDE_TAIL
    ensures var v := PutCell(u, code);
            var t := if wide then PutCell(v, WIDE_TAIL) else v;
            && v.col == u.col + 1 && v.cols == u.cols
            && t == u.(grid := t.grid, col := u.col + if wide then 2 else 1)
            && Stores(u.grid, t.grid, u.row, u.col, code, wide, u.style)
  {
    RowLengths(u.grid, u.rows, u.cols);
    hide GridOk, Last;
  }

  lemma StoredInRoom(w: Width, s: Screen, code: nat)
    requires ScreenOk(s) && code <= 0x10FFFF && w(code) > 0
    ensures var u := MakeRoom(s, Min(w(code), 2));
            var t := InsertPoint(w, s, code);
            && t == u.(grid := t.grid, col := u.col + Min(w(code), 2))
            && Stores(u.grid, t.grid, u.row, u.col, code, w(code) >= 2, u.style)
  {
    hide MakeRoom, PutCell, Stores;
    PutStores(MakeRoom(s, Min(w(code), 2)), code, w(code) >= 2);
  }

  /** A character that fits is stored at the cursor. */
  lemma InsertFits(w: Width, s: Screen, code: nat)
    requires ScreenOk(s) && code <= 0x10FFFF && w(code) > 0 && s.col + Min(w(code), 2) <= s.cols
    ensures var t := InsertPoint(w, s, code);
            && t == s.(grid := t.grid, col := s.col + Min(w(code), 2))
            && Stores(s.grid, t.grid, s.row, s.col, code, w(code) >= 2, s.style)
  {
    hide InsertPoint, Stores, ScreenOk;
    StoredInRoom(w, s, code);
  }

  /**
   * With autowrap a character that does not fit is stored at the start of the next row, and what
   * stood on the row it left stays there, one row higher if the region was scrolled.
   */
  lemma InsertWraps(w: Width, s: Screen, code: nat)
    requires ScreenOk(s) && code <= 0x10FFFF && w(code) > 0 && s.col + Min(w(code), 2) > s.cols && s.wrap
    ensures var t := InsertPoint(w, s, code);
            && t == s.(grid := t.grid, row := NextRow(s), col := Min(w(code), 2),
                       scrolled := t.scrolled, history := t.history)
            && NextLog(s, t)
            && exists g :: NextGrid(s, g) && Stores(g, t.grid, NextRow(s), 0, code, w(code) >= 2, s.style)
    ensures var t := InsertPoint(w, s, code);
            s.row == s.bottom || s.row < s.rows - 1 ==>
              t.grid[if s.row == s.bottom then s.row - 1 else s.row] == s.grid[s.row]
  {
    hide InsertPoint, Drop, BackOff;
    var u := Drop(s.(row := s.row + 1, col := 0));
    DropNext(s);
    StoredInRoom(w, s, code);
    assert MakeRoom(s, Min(w(code), 2)) == u;
    assert NextGrid(s, u.grid);
  }

  lemma DropNext(s: Screen)
    requires ScreenOk(s)
    ensures var u := Drop(s.(row := s.row + 1, col := 0));
            && u == s.(grid := u.grid, row := NextRow(s), col := 0, scrolled := u.scrolled, history := u.history)
            && NextGrid(s, u.grid) && NextLog(s, u)
  {
    hide EraseInsert, ShiftUp, IsShiftUp, Last, GridOk, BlankRow;
    if s.row == s.bottom {
      RowLengths(s.grid, s.rows, s.cols);
      EraseInsertShifts(s.grid, s.top, s.bottom, s.cols);
    }
  }

  lemma EraseInsertShifts(g: Grid, top: nat, bottom: nat, cols: nat)
    requires top <= bottom < |g|
    ensures IsShiftUp(g, top, bottom + 1, 1, BlankRow(cols), EraseInsert(g, top, bottom, cols))
  {
  }

  /** Without autowrap it is stored at the last place of the row where it fits and splits no wide character. */
  lemma InsertBacksOff(w: Width, s: Screen, code: nat)
    requires ScreenOk(s) && code <= 0x10FFFF && w(code) > 0 && s.col + Min(w(code), 2) > s.cols && !s.wrap
    ensures var t := InsertPoint(w, s, code);
            && t == s.(grid := t.grid, col := t.col)
            && LastStart(s.grid[s.row], Min(w(code), 2), t.col - Min(w(code), 2))
            && Stores(s.grid, t.grid, s.row, t.col - Min(w(code), 2), code, w(code) >= 2, s.style)
  {
    hide InsertPoint, Stores, Drop;
    StoredInRoom(w, s, code);
    assert RowOk(s.grid[s.row], s.cols);
  }

  /**
   * Where a character of `cw` columns goes: to the cursor if it fits there; else with autowrap to the start of
   * the next row, the row it left staying as it was, one row higher if the region was scrolled; else to the
   * last place of the row where it fits and splits no wide character.
   */
  ghost predicate Lands(s: Screen, t: Screen, code: nat, cw: nat)
    requires ScreenOk(s) && 1 <= cw <= 2
  {
    if s.col + cw <= s.cols then
      t == s.(grid := t.grid, col := s.col + cw) && Stores(s.grid, t.grid, s.row, s.col, code, cw == 2, s.style)
    else if s.wrap then
      && t == s.(grid := t.grid, row := NextRow(s), col := cw, scrolled := t.scrolled, history := t.history)
      && NextLog(s, t)
      && (exists g :: NextGrid(s, g) && Stores(g, t.grid, NextRow(s), 0, code, cw == 2, s.style))
      && (s.row == s.bottom || s.row < s.rows - 1 ==>
            t.grid[if s.row == s.bottom then s.row - 1 else s.row] == s.grid[s.row])
    else
      && t == s.(grid := t.grid, col := t.col)
      && LastStart(s.grid[s.row], cw, t.col - cw)
      && Stores(s.grid, t.grid, s.row, t.col - cw, code, cw == 2, s.style)
  }

  lemma InsertLands(w: Width, s: Screen, code: nat)
    requires ScreenOk(s) && code <= 0x10FFFF && w(code) > 0
    ensures Lands(s, InsertPoint(w, s, code), code, Min(w(code), 2))
  {
    hide InsertPoint, Stores, ScreenOk, NextGrid, NextLog, NextRow, LastStart;
    if s.col + Min(w(code), 2) <= s.cols {
      InsertFits(w, s, code);
    } else if s.wrap {
      InsertWraps(w, s, code);
    } else {
      InsertBacksOff(w, s, code);
    }
  }

  // ----------------------------------------------------------------------- motion

  lemma MoveRow(s: Screen, d: int)
    requires ScreenOk(s)
    ensures !s.origin ==>
              MoveCursor(s, d, 0) == s.(row := Within(s.row + d, 0, s.rows - 1), col := Min(s.col, s.cols - 1))
    ensures s.origin ==>
              MoveCursor(s, d, 0).row == Within(Within(s.row, s.top, s.bottom) + d + s.top, s.top, s.bottom)
  {
  }

  /**
   * With origin mode off CUU stops at the top margin, or at the first row when it starts above the
   * region. A negative count moves down, past the bottom margin if need be.
   */
  lemma UpwardMotion(s: Screen, buf: string)
    requires ScreenOk(s) && !s.origin && C.MotionFits(s, buf, 'A')
    ensures var n := C.Count(buf);
            C.CursorUp(s, buf)
            == s.(row := if n >= 0 then Max(s.row - n, if s.row >= s.top then s.top else 0)
                         else Min(s.row - n, s.rows - 1),
                  col := Min(s.col, s.cols - 1))
  {
    hide MoveCursor, C.Count;
    MoveRow(s, C.UpBy(s, C.Count(buf)));
  }

  /**
   * With origin mode off CUD stops at the bottom margin, or at the last row when it starts below the
   * region. A negative count moves up, past the top margin if need be.
   */
  lemma DownwardMotion(s: Screen, buf: string)
    requires ScreenOk(s) && !s.origin && C.MotionFits(s, buf, 'B')
    ensures var n := C.Count(buf);
            C.CursorDown(s, buf)
            == s.(row := if n >= 0 then Min(s.row + n, if s.row <= s.bottom then s.bottom else s.rows - 1)
                         else Max(s.row + n, 0),
                  col := Min(s.col, s.cols - 1))
  {
    hide MoveCursor, C.Count;
    MoveRow(s, C.DownBy(s, C.Count(buf)));
  }

  /** CUD in origin mode moves as far as it should only in these cases. */
  predicate DownSteady(s: Screen, home: int, n: int) {
    s.top == 0 || (if n >= 0 then home + n >= s.bottom else home + n <= 0)
  }

  /** CUU in origin mode moves as far as it should only in these cases. */
  predicate UpSteady(s: Screen, home: int, n: int) {
    || s.top == 0
    || (s.row >= s.bottom && n == 0)
    || (if n < 0 then home - n >= s.bottom
        else if s.row >= s.top then Min(n, s.row - s.top) >= s.bottom else n >= s.top)
  }

  /**
   * In origin mode the cursor is confined to the region, and the top margin is added to a row that
   * is already absolute. From the row it is confined to, CUD then moves down by its count and CUU up,
   * negative counts the other way, both stopping at the margins, in the cases of `DownSteady` and
   * `UpSteady` only: all of them with the region at the top, no motion, or a stop at a margin.
   */
  lemma OriginMotionDrifts(s: Screen, buf: string)
    requires ScreenOk(s) && s.origin
    ensures C.MotionFits(s, buf, 'B') ==>
              var home := Within(s.row, s.top, s.bottom);
              (C.CursorDown(s, buf).row == Within(home + C.Count(buf), s.top, s.bottom)
               <==> DownSteady(s, home, C.Count(buf)))
    ensures C.MotionFits(s, buf, 'A') ==>
              var home := Within(s.row, s.top, s.bottom);
              (C.CursorUp(s, buf).row == Within(home - C.Count(buf), s.top, s.bottom)
               <==> UpSteady(s, home, C.Count(buf)))
  {
    hide MoveCursor, C.Count, C.MotionFits;
    MoveRow(s, C.DownBy(s, C.Count(buf)));
    MoveRow(s, C.UpBy(s, C.Count(buf)));
  }

  /** Away from the bottom margin a line feed only moves down, and not past the last row. */
  lemma LineFeedMoves(s: Screen)
    requires ScreenOk(s) && s.row != s.bottom
    ensures LineFeed(s) == s.(row := Min(s.row + 1, s.rows - 1))
  {
  }
}
