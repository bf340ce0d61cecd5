/** How the scrolling and shifting operations relate to each other and to the scrollback. */
module Scrolling {
  import opened Sequences
  import opened Text
  import opened Cells
  import opened Display
  import opened Parser
  import C = Csi

  // ------------------------------------------------------- the scrolls agree on the grid

  /** Rows outside the margins are where they were. */
  predicate OutsideKept(s: Screen, t: Screen)
    requires |t.grid| == |s.grid|
  {
    forall i :: 0 <= i < |s.grid| && !(s.top <= i <= s.bottom) ==> t.grid[i] == s.grid[i]
  }

  /**
   * A line feed at the bottom margin (erase and insert on the row vector), SU 1 (rows copied
   * upwards) and DL 1 at the top margin (rows copied upwards) leave the same grid.
   */
  lemma ForwardScrollsAgree(s: Screen)
    requires ScreenOk(s) && s.row == s.bottom
    ensures LineFeed(s).grid == C.ScrollUp(s, 1).grid == C.DeleteLines(s.(row := s.top), 1).grid
    ensures OutsideKept(s, LineFeed(s))
  {
    hide ShiftUp;
    LineFeedShifts(s);
  }

  lemma LineFeedShifts(s: Screen)
    requires ScreenOk(s) && s.row == s.bottom
    ensures LineFeed(s).grid == ShiftUp(s.grid, s.top, s.bottom + 1, 1, BlankRow(s.cols))
  {
    assert EraseInsert(s.grid, s.top, s.bottom, s.cols)
        == ShiftUp(s.grid, s.top, s.bottom + 1, 1, BlankRow(s.cols));
  }

  /** RI at the top margin is IL 1 there. */
  lemma ReverseScrollsAgree(s: Screen)
    requires ScreenOk(s) && s.row == s.top
    ensures ReverseIndex(s).grid == C.InsertLines(s, 1).grid
    ensures OutsideKept(s, ReverseIndex(s))
  {
  }

  // --------------------------------------------------------------- composing and undoing

  /** Counts that are not negative add for IL. */
  lemma InsertLineCountsAdd(s: Screen, m: nat, n: nat)
    requires ScreenOk(s)
    ensures C.InsertLines(C.InsertLines(s, m), n) == C.InsertLines(s, m + n)
  {
    hide ShiftDown;
    if C.InRegion(s) {
      ShiftDownAdds(s.grid, s.row, s.bottom + 1, m, n, BlankRow(s.cols));
    }
  }

  /** A negative IL repeats the rows below the region over it, whatever an IL before it did. */
  lemma NegativeInsertOverwrites(s: Screen, m: int, n: int)
    requires ScreenOk(s) && C.InsertLinesReads(s, m) && C.InsertLinesReads(s, n) && n < 0
    ensures C.InsertLines(C.InsertLines(s, m), n) == C.InsertLines(s, n)
  {
    hide CopyDown, RowOk;
    if C.InRegion(s) {
      var t := C.InsertLines(s, m);
      var l, r := C.InsertLines(t, n).grid, C.InsertLines(s, n).grid;
      forall i | 0 <= i < |r| ensures l[i] == r[i] {
      }
    }
  }

  /** A negative DL repeats the rows above the cursor over the rest of the region, whatever a DL before it did. */
  lemma NegativeDeleteOverwrites(s: Screen, m: int, n: int)
    requires ScreenOk(s) && C.DeleteLinesReads(s, m) && C.DeleteLinesReads(s, n) && n < 0
    requires C.InRegion(s) ==> IsInt(s.bottom + m) && IsInt(s.bottom + n)
    ensures C.DeleteLines(C.DeleteLines(s, m), n) == C.DeleteLines(s, n)
  {
    hide CopyUp, RowOk;
    if C.InRegion(s) {
      var t := C.DeleteLines(s, m);
      var l, r := C.DeleteLines(t, n).grid, C.DeleteLines(s, n).grid;
      forall i | 0 <= i < |r| ensures l[i] == r[i] {
      }
    }
  }

  /** Counts that are not negative add for DL, as long as no row number overflows. */
  lemma DeleteLineCountsAdd(s: Screen, m: nat, n: nat)
    requires ScreenOk(s) && (C.InRegion(s) ==> IsInt(s.bottom + (m + n)))
    ensures C.DeleteLines(C.DeleteLines(s, m), n) == C.DeleteLines(s, m + n)
  {
    hide ShiftUp;
    if C.InRegion(s) {
      ShiftUpAdds(s.grid, s.row, s.bottom + 1, m, n, BlankRow(s.cols));
    }
  }

  lemma CopyUndone<T(!new)>(s: seq<T>, a: nat, b: nat, n: nat, x: T)
    requires a <= b <= |s|
    ensures CopyUp(CopyDown(s, a, b, n, x), a, b, n, x) == Fill(s, Max(a, b - n), b, x)
  {
    hide ShiftUp, ShiftDown, IsShiftUp, IsShiftDown, Fill, CopyUp, CopyDown, PlaceUp, PlaceDown;
    ShiftUpUndoesShiftDown(s, a, b, n, x);
  }

  /** DL n after IL n restores the screen, but the last n rows of the region are lost to blanks. */
  lemma DeleteUndoesInsertLines(s: Screen, n: nat)
    requires ScreenOk(s) && C.InRegion(s) && IsInt(s.bottom + n)
    ensures C.DeleteLines(C.InsertLines(s, n), n)
         == s.(grid := Fill(s.grid, Max(s.row, s.bottom + 1 - n), s.bottom + 1, BlankRow(s.cols)), col := 0)
  {
    hide Fill, GridOk, CopyUp, CopyDown, Last, BlankRow;
    RowLengths(s.grid, s.rows, s.cols);
    CopyUndone(s.grid, s.row, s.bottom + 1, n, BlankRow(s.cols));
  }

  /** Counts add for DCH on whole cells, for ICH on codes: the opened cells keep stale styles. */
  lemma CharCountsAdd(r: Row, c: nat, m: nat, n: nat)
    requires c <= |r|
    ensures C.DeleteCells(C.DeleteCells(r, c, m), c, n) == C.DeleteCells(r, c, m + n)
    ensures Codes(C.InsertBlanks(C.InsertBlanks(r, c, m), c, n)) == Codes(C.InsertBlanks(r, c, m + n))
  {
    ShiftUpAdds(r, c, |r|, m, n, BLANK);
  }

  /** Cells opened by the second of two ICH, or by both but not by one, had the style found there. */
  predicate StylesMatch(r: Row, c: nat, m: nat, n: nat) {
    && (forall i {:trigger r[i]} :: c <= i < |r| && m <= i - c < n ==> r[i].style == r[i - m].style)
    && (forall i {:trigger r[i]} :: c <= i < |r| && n <= i - c < m + n ==> r[i].style == r[i - n].style)
  }

  /** On whole cells, styles included, ICH counts add exactly on rows with matching styles. */
  lemma InsertCountsAddIff(r: Row, c: nat, m: nat, n: nat)
    requires c <= |r|
    ensures C.InsertBlanks(C.InsertBlanks(r, c, m), c, n) == C.InsertBlanks(r, c, m + n)
            <==> StylesMatch(r, c, m, n)
  {
    var u := C.InsertBlanks(r, c, m);
    var twice, once := C.InsertBlanks(u, c, n), C.InsertBlanks(r, c, m + n);
    if StylesMatch(r, c, m, n) {
      forall i | 0 <= i < |r| ensures twice[i] == once[i] {
      }
    } else if i :| c <= i < |r| && m <= i - c < n && r[i].style != r[i - m].style {
      assert twice[i] != once[i];
    } else {
      var i :| c <= i < |r| && n <= i - c < m + n && r[i].style != r[i - n].style;
      assert twice[i] != once[i];
    }
  }

  /** DCH n after ICH n restores the row, but its last n cells are lost to blanks. */
  lemma DeleteUndoesInsertChars(r: Row, c: nat, n: nat)
    requires c <= |r|
    ensures C.DeleteCells(C.InsertBlanks(r, c, n), c, n) == Fill(r, Max(c, |r| - n), |r|, BLANK)
  {
  }

  // ------------------------------------------------------------------------- scrollback

  /** A scroll only moves the boundary: log and region read the same, with one blank row more. */
  lemma ScrollConserves(s: Screen)
    requires ScreenOk(s) && s.row == s.bottom
    ensures var t := LineFeed(s);
            t.scrolled + t.grid[s.top..s.bottom + 1]
            == s.scrolled + s.grid[s.top..s.bottom + 1] + [BlankRow(s.cols)]
  {
    var t := LineFeed(s);
    assert t.grid == ShiftUp(s.grid, s.top, s.bottom + 1, 1, BlankRow(s.cols));
  }

  /**
   * Over any run the scrollback is a faithful bounded log: rows are only ever appended to the
   * record of rows scrolled out, and the scrollback is that record's last 5000 rows, in order.
   */
  lemma {:induction false} ScrollbackIsLog(w: Width, s: Term, bytes: string)
    requires Inv(s) && Run(w, s, bytes).Some?
    ensures var t := Run(w, s, bytes).value.scr;
            && s.scr.scrolled <= t.scrolled
            && t.history == Last(t.scrolled, MAX_HISTORY_LINES)
    decreases |bytes|
  {
    if bytes != "" {
      ScrollbackIsLog(w, Step(w, s, bytes[0]).value, bytes[1..]);
    }
  }

  /** No byte stream ever hides a visible cursor: DECRST 25 is implemented as showing it. */
  lemma {:induction false} CursorNeverHidden(w: Width, s: Term, bytes: string)
    requires Inv(s) && s.scr.showCursor && Run(w, s, bytes).Some?
    ensures Run(w, s, bytes).value.scr.showCursor
    decreases |bytes|
  {
    hide Step;
    if bytes == "" {
      RunNothing(w, s);
    } else {
      RunFirst(w, s, bytes);
      CursorNeverHidden(w, Step(w, s, bytes[0]).value, bytes[1..]);
    }
  }
}
