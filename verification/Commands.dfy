/**
 * What each control sequence does to the screen: from its bytes to cells and coordinates, for every
 * parameter text with which the sequence is accepted.
 */
module Commands {
  import opened Sequences
  import opened Text
  import opened Cells
  import opened Display
  import opened Parser
  import opened Reports
  import opened Effects
  import Utf8
  import C = Csi
  import Limits

  /** An idle terminal. */
  predicate Ready(s: Term) { Inv(s) && s.esc == Idle && s.utf8.state == Utf8.Initial }

  /** A whole control sequence. */
  function Sequence(p: string, b: char): string { [ESCAPE, '['] + p + [b] }

  /** The terminal takes the sequence without a fault. */
  predicate Accepted(w: Width, s: Term, p: string, b: char) {
    Ready(s) && Parameters(p) && C.IsFinal(b) && Run(w, s, Sequence(p, b)).Some?
  }

  /** The screen after it. */
  function Shown(w: Width, s: Term, p: string, b: char): (t: Screen)
    requires Accepted(w, s, p, b)
    ensures ScreenOk(t)
  {
    Run(w, s, Sequence(p, b)).value.scr
  }

  /** Afterwards the terminal is idle again, and the handler of the final byte was called on the screen. */
  lemma Handled(w: Width, s: Term, p: string, b: char)
    requires Accepted(w, s, p, b)
    ensures Run(w, s, Sequence(p, b)) == Some(s.(buf := p, scr := Shown(w, s, p, b)))
    ensures C.Admissible(s.scr, p, b) && C.Final(s.scr, p, b) == Some(Shown(w, s, p, b))
  {
    hide Run, C.Final, C.Admissible, ScreenOk, Utf8.InRange;
    RunSequence(w, s, p, b);
  }

  /**
   * On a screen of up to 500 million rows and columns, sequences with parameters of at most nine characters are
   * accepted, but for those whose handlers look at more of the screen or of the text.
   */
  lemma ShortIsAccepted(w: Width, s: Term, p: string, b: char)
    requires Ready(s) && Parameters(p) && C.IsFinal(b) && b !in "JLMPS@gmr"
    requires C.ShortParameters(p) && s.scr.rows <= 500_000_000 && s.scr.cols <= 500_000_000
    ensures Accepted(w, s, p, b)
  {
    hide Run, C.Final, C.IntsFit, ScreenOk, C.ShortParameters, Parameters;
    C.ShortParametersFit(s.scr, p, b);
    RunSequence(w, s, p, b);
  }

  lemma Sound(w: Width, s: Term, p: string, b: char)
    requires Accepted(w, s, p, b)
    ensures ScreenOk(s.scr)
  {
    hide Run, ScreenOk;
  }

  /** An accepted final byte that changes cells is inside the guards of its handler, which makes the change. */
  lemma Edited(w: Width, s: Term, p: string, b: char)
    requires Accepted(w, s, p, b)
    ensures ScreenOk(s.scr) && C.EditFits(s.scr, p, b) && C.EditReads(s.scr, p, b)
    ensures C.IsEdit(b) ==> C.Edit(s.scr, p, b) == Some(Shown(w, s, p, b))
  {
    hide C.Edit, C.Motion, C.Setting, C.MotionFits, C.SettingFits, C.Count, C.EditFits, C.EditReads, C.SettingSafe,
         C.TailStaysOff, ScreenOk, Accepted, Shown;
    Sound(w, s, p, b);
    Handled(w, s, p, b);
  }

  /** Which handler belongs to which final byte. */
  lemma EditHandler(s: Screen, p: string, b: char)
    requires ScreenOk(s) && C.EditReads(s, p, b)
    ensures b == 'J' ==> C.Edit(s, p, b) == C.EraseDisplay(s, p)
    ensures b == 'K' ==> C.Edit(s, p, b) == Some(C.EraseLine(s, p))
    ensures b == 'L' ==> C.Edit(s, p, b) == Some(C.InsertLines(s, C.Count(p)))
    ensures b == 'M' ==> C.Edit(s, p, b) == Some(C.DeleteLines(s, C.Count(p)))
    ensures b == 'P' ==> C.Edit(s, p, b) == Some(C.DeleteChars(s, C.Count(p)))
    ensures b == 'S' ==> C.Edit(s, p, b) == Some(C.ScrollUp(s, C.Count(p)))
    ensures b == 'X' ==> C.Edit(s, p, b) == Some(C.EraseChars(s, p))
    ensures b == '@' ==> C.Edit(s, p, b) == Some(C.InsertChars(s, p))
  {
    hide C.EraseDisplay, C.EraseLine, C.InsertLines, C.DeleteLines, C.DeleteChars, C.ScrollUp, C.EraseChars,
         C.InsertChars, C.Count, ScreenOk;
  }

  // ---------------------------------------------------------------------------- erasing

  predicate InDisplay(s: Screen, p: string, i: int, j: int) {
    if p == "" || p == "0" then !Before(i, j, s.row, s.col)
    else if p == "1" then !Before(s.row, s.col, i, j)
    else p == "2"
  }

  predicate InLine(s: Screen, p: string, i: int, j: int) {
    i == s.row && if p == "" || p == "0" then j >= s.col else if p == "1" then j <= s.col else p == "2"
  }

  lemma FillErases(s: Screen, t: Screen, a: nat, b: nat, lo: nat, hi: nat, erased: (int, int) -> bool)
    requires ScreenOk(s) && a <= b <= s.rows && lo <= hi <= s.cols
    requires t == EraseRows(EraseCells(s, lo, hi), a, b) || t == EraseCells(EraseRows(s, a, b), lo, hi)
    requires forall i, j :: 0 <= i < s.rows && 0 <= j < s.cols ==>
               (erased(i, j) <==> a <= i < b || (i == s.row && lo <= j < hi))
    ensures Erases(s, t, erased)
  {
    RowLengths(s.grid, s.rows, s.cols);
    hide GridOk, Last;
  }

  lemma DisplayErases(s: Screen, p: string)
    requires ScreenOk(s) && C.EraseDisplay(s, p).Some?
    ensures Erases(s, C.EraseDisplay(s, p).value, (i, j) => InDisplay(s, p, i, j))
  {
    hide EraseCells, EraseRows, Erases, Shape;
    var t := C.EraseDisplay(s, p).value;
    if p == "" || p == "0" {
      FillErases(s, t, s.row + 1, s.rows, s.col, s.cols, (i, j) => InDisplay(s, p, i, j));
    } else if p == "1" {
      FillErases(s, t, 0, s.row, 0, s.col + 1, (i, j) => InDisplay(s, p, i, j));
    } else if p == "2" {
      NoCells(s);
      FillErases(s, t, 0, s.rows, 0, 0, (i, j) => InDisplay(s, p, i, j));
    } else {
      NothingErased(s, (i, j) => InDisplay(s, p, i, j));
    }
  }

  lemma NothingErased(s: Screen, erased: (int, int) -> bool)
    requires ScreenOk(s) && forall i, j :: !erased(i, j)
    ensures Erases(s, s, erased)
  {
    RowLengths(s.grid, s.rows, s.cols);
  }

  lemma NoCells(s: Screen)
    requires ScreenOk(s)
    ensures EraseCells(s, 0, 0) == s
  {
    assert Fill(s.grid[s.row], 0, 0, BLANK) == s.grid[s.row];
    assert s.grid[s.row := s.grid[s.row]] == s.grid;
  }

  lemma NoRows(s: Screen)
    requires ScreenOk(s)
    ensures EraseRows(s, 0, 0) == s
  {
    assert Fill(s.grid, 0, 0, BlankRow(s.cols)) == s.grid;
  }

  lemma LineErases(s: Screen, p: string)
    requires ScreenOk(s)
    ensures Erases(s, C.EraseLine(s, p), (i, j) => InLine(s, p, i, j))
  {
    hide EraseCells, EraseRows, Erases, Shape;
    var t := C.EraseLine(s, p);
    NoRows(s);
    if p == "" || p == "0" {
      FillErases(s, t, 0, 0, s.col, s.cols, (i, j) => InLine(s, p, i, j));
    } else if p == "1" {
      FillErases(s, t, 0, 0, 0, Min(s.col + 1, s.cols), (i, j) => InLine(s, p, i, j));
    } else if p == "2" {
      FillErases(s, t, 0, 0, 0, s.cols, (i, j) => InLine(s, p, i, j));
    } else {
      NothingErased(s, (i, j) => InLine(s, p, i, j));
    }
  }

  /** ED blanks from the cursor on, up to and with the cursor, or everything; with other parameters nothing. */
  lemma EraseDisplay(w: Width, s: Term, p: string)
    requires Accepted(w, s, p, 'J')
    ensures Erases(s.scr, Shown(w, s, p, 'J'), (i, j) => InDisplay(s.scr, p, i, j))
  {
    hide Accepted, Shown, Erases, ScreenOk, C.Edit, C.EditReads, C.EraseDisplay, C.EditFits, C.Count;
    Edited(w, s, p, 'J');
    EditHandler(s.scr, p, 'J');
    DisplayErases(s.scr, p);
  }

  /** EL does the same within the cursor row. */
  lemma EraseLine(w: Width, s: Term, p: string)
    requires Accepted(w, s, p, 'K')
    ensures Erases(s.scr, Shown(w, s, p, 'K'), (i, j) => InLine(s.scr, p, i, j))
  {
    hide Accepted, Shown, Erases, ScreenOk, C.Edit, C.EditReads, C.EraseLine, C.EditFits, C.Count;
    Edited(w, s, p, 'K');
    EditHandler(s.scr, p, 'K');
    LineErases(s.scr, p);
  }

  /** ECH blanks as many cells as its count says, from the cursor on. */
  lemma EraseChars(w: Width, s: Term, p: string)
    requires Accepted(w, s, p, 'X')
    ensures Erases(s.scr, Shown(w, s, p, 'X'), (i, j) => i == s.scr.row && s.scr.col <= j < s.scr.col + C.Count(p))
  {
    hide Accepted, Shown, Erases, ScreenOk, C.Edit, C.EditReads, C.EraseChars, C.EditFits, C.Count;
    Edited(w, s, p, 'X');
    EditHandler(s.scr, p, 'X');
    EraseCharsErases(s.scr, p);
  }

  // -------------------------------------------------------------- inserting, deleting

  /** In the region IL moves the rows from the cursor on up by its count and goes to column 0; else it does nothing. */
  lemma InsertLines(w: Width, s: Term, p: string)
    requires Accepted(w, s, p, 'L')
    ensures var t := Shown(w, s, p, 'L');
            if s.scr.top <= s.scr.row <= s.scr.bottom then
              && t == s.scr.(grid := t.grid, col := 0)
              && MovedDown(s.scr.grid, s.scr.row, s.scr.bottom + 1, C.Count(p), BlankRow(s.scr.cols), t.grid)
            else t == s.scr
  {
    hide Accepted, Shown, C.Edit, C.EditFits, C.Count, CopyDown, MovedDown, Last, GridOk;
    Edited(w, s, p, 'L');
    EditHandler(s.scr, p, 'L');
    RowLengths(s.scr.grid, s.scr.rows, s.scr.cols);
    if C.InRegion(s.scr) {
      CopyDownMoves(s.scr.grid, s.scr.row, s.scr.bottom + 1, C.Count(p), BlankRow(s.scr.cols));
    }
  }

  /** DL moves them down. */
  lemma DeleteLines(w: Width, s: Term, p: string)
    requires Accepted(w, s, p, 'M')
    ensures var t := Shown(w, s, p, 'M');
            if s.scr.top <= s.scr.row <= s.scr.bottom then
              && t == s.scr.(grid := t.grid, col := 0)
              && MovedUp(s.scr.grid, s.scr.row, s.scr.bottom + 1, C.Count(p), BlankRow(s.scr.cols), t.grid)
            else t == s.scr
  {
    hide Accepted, Shown, C.Edit, C.EditFits, C.Count, CopyUp, MovedUp, Last, GridOk;
    Edited(w, s, p, 'M');
    EditHandler(s.scr, p, 'M');
    RowLengths(s.scr.grid, s.scr.rows, s.scr.cols);
    if C.InRegion(s.scr) {
      CopyUpMoves(s.scr.grid, s.scr.row, s.scr.bottom + 1, C.Count(p), BlankRow(s.scr.cols));
    }
  }

  /** SU moves the whole region down by its count; the cursor stays. */
  lemma ScrollUp(w: Width, s: Term, p: string)
    requires Accepted(w, s, p, 'S')
    ensures var t := Shown(w, s, p, 'S');
            && t == s.scr.(grid := t.grid)
            && MovedUp(s.scr.grid, s.scr.top, s.scr.bottom + 1, C.Count(p), BlankRow(s.scr.cols), t.grid)
  {
    hide Accepted, Shown, C.Edit, C.EditFits, C.Count, CopyUp, MovedUp, Last, GridOk;
    Edited(w, s, p, 'S');
    EditHandler(s.scr, p, 'S');
    RowLengths(s.scr.grid, s.scr.rows, s.scr.cols);
    CopyUpMoves(s.scr.grid, s.scr.top, s.scr.bottom + 1, C.Count(p), BlankRow(s.scr.cols));
  }

  /** `t` is `s` but for the cursor row, which is `r`. */
  predicate RowReplaced(s: Screen, t: Screen, r: Row)
    requires ScreenOk(s)
  {
    t == s.(grid := s.grid[s.row := r])
  }

  /** DCH moves the cells of the cursor row from the cursor on down by its count. */
  lemma DeleteChars(w: Width, s: Term, p: string)
    requires Accepted(w, s, p, 'P')
    ensures exists r :: RowReplaced(s.scr, Shown(w, s, p, 'P'), r)
                        && MovedUp(s.scr.grid[s.scr.row], s.scr.col, s.scr.cols, C.Count(p), BLANK, r)
  {
    hide Accepted, Shown, C.Edit, C.EditFits, C.Count, CopyUp, MovedUp, C.TailStaysOff, Last;
    Edited(w, s, p, 'P');
    EditHandler(s.scr, p, 'P');
    RowLengths(s.scr.grid, s.scr.rows, s.scr.cols);
    var r := s.scr.grid[s.scr.row];
    CopyUpMoves(r, s.scr.col, s.scr.cols, C.Count(p), BLANK);
    assert RowReplaced(s.scr, Shown(w, s, p, 'P'), C.DeleteCells(r, s.scr.col, C.Count(p)));
  }

  /** The cell `n` places before, or a space in the style of the cell that was there. */
  predicate Opened(r: Row, h: Row, c: int, n: int) {
    && |h| == |r|
    && forall j {:trigger h[j]} :: 0 <= j < |r| ==>
         if j < c then h[j] == r[j]
         else if j - c < n then h[j] == Cell(0x20, r[j].style)
         else 0 <= j - n < |r| && h[j] == r[j - n]
  }

  /** ICH moves them up; a parameter text that does not end in a digit is ignored. */
  lemma InsertChars(w: Width, s: Term, p: string)
    requires Accepted(w, s, p, '@')
    ensures p == "" || IsDigit(p[|p| - 1]) ==>
              exists r :: RowReplaced(s.scr, Shown(w, s, p, '@'), r)
                          && Opened(s.scr.grid[s.scr.row], r, s.scr.col, C.Count(p))
    ensures !(p == "" || IsDigit(p[|p| - 1])) ==> Shown(w, s, p, '@') == s.scr
  {
    hide Accepted, Shown, C.Edit, C.EditFits, C.Count, C.InsertBlanks, Last;
    Edited(w, s, p, '@');
    EditHandler(s.scr, p, '@');
    RowLengths(s.scr.grid, s.scr.rows, s.scr.cols);
    if C.EndsInDigit(p) {
      var h := C.InsertBlanks(s.scr.grid[s.scr.row], s.scr.col, C.Count(p));
      assert RowReplaced(s.scr, Shown(w, s, p, '@'), h);
    }
  }

  // ---------------------------------------------------------------------- cursor motion

  /** An accepted motion is inside the guards of its handler, which decides where the cursor goes. */
  lemma Steered(w: Width, s: Term, p: string, b: char)
    requires Accepted(w, s, p, b)
    ensures ScreenOk(s.scr) && C.MotionFits(s.scr, p, b)
    ensures C.IsMotion(b) ==> Shown(w, s, p, b) == C.Motion(s.scr, p, b)
  {
    hide C.Edit, C.Motion, C.Setting, C.EditFits, C.MotionFits, C.SettingFits, C.EditSafe, C.SettingSafe, ScreenOk,
         Accepted, Shown;
    Sound(w, s, p, b);
    Handled(w, s, p, b);
  }

  lemma MotionHandler(s: Screen, p: string, b: char)
    requires ScreenOk(s)
    ensures b == 'A' ==> C.Motion(s, p, b) == C.CursorUp(s, p)
    ensures b == 'B' ==> C.Motion(s, p, b) == C.CursorDown(s, p)
    ensures b == 'C' ==> C.Motion(s, p, b) == C.CursorAcross(s, p, 1)
    ensures b == 'D' ==> C.Motion(s, p, b) == C.CursorAcross(s, p, -1)
    ensures b == 'E' ==> C.Motion(s, p, b) == C.CursorLine(s, p, 1)
    ensures b == 'F' ==> C.Motion(s, p, b) == C.CursorLine(s, p, -1)
    ensures b == 'G' ==> C.Motion(s, p, b) == C.CursorColumn(s, p)
    ensures b == 'H' ==> C.Motion(s, p, b) == C.CursorPosition(s, p)
    ensures b == 'd' ==> C.Motion(s, p, b) == C.CursorRow(s, p)
    ensures b == 'f' ==> C.Motion(s, p, b) == C.FormatPosition(s, p)
  {
    hide C.CursorUp, C.CursorDown, C.CursorAcross, C.CursorLine, C.CursorColumn, C.CursorPosition, C.CursorRow,
         C.FormatPosition, ScreenOk;
  }

  /** The rows the cursor may be on: the region in origin mode, else the screen. */
  function FirstRow(s: Screen): int { if s.origin then s.top else 0 }

  function LastRow(s: Screen): int { if s.origin then s.bottom else s.rows - 1 }

  /** `t` is `s` with the cursor at (row, col), or as near as it may be. */
  predicate Moved(s: Screen, t: Screen, row: int, col: int)
    requires ScreenOk(s)
  {
    t == s.(row := Max(FirstRow(s), Min(row, LastRow(s))), col := Max(0, Min(col, s.cols - 1)))
  }

  /**
   * CUU. With origin mode off it stops at the top margin, or at the first row from above the region, and a
   * negative count moves down. In origin mode the top margin is added to a row that is already absolute.
   */
  lemma CursorUp(w: Width, s: Term, p: string)
    requires Accepted(w, s, p, 'A')
    ensures var n, u, t := C.Count(p), s.scr, Shown(w, s, p, 'A');
            && (!u.origin ==>
                  t == u.(row := if n >= 0 then Max(u.row - n, if u.row >= u.top then u.top else 0)
                                 else Min(u.row - n, u.rows - 1),
                          col := Min(u.col, u.cols - 1)))
            && (u.origin ==>
                  var up := if u.row >= u.top then Min(n, u.row - u.top) else n;
                  Moved(u, t, Max(u.top, Min(u.row, u.bottom)) - up + u.top, u.col))
  {
    hide Accepted, Shown, C.Motion, C.MotionFits, C.Count, C.CursorUp, ScreenOk, Moved;
    Steered(w, s, p, 'A');
    MotionHandler(s.scr, p, 'A');
    if s.scr.origin {
      UpInRegion(s.scr, p);
    } else {
      UpwardMotion(s.scr, p);
    }
  }

  lemma UpInRegion(s: Screen, p: string)
    requires ScreenOk(s) && s.origin
    ensures var up := if s.row >= s.top then Min(C.Count(p), s.row - s.top) else C.Count(p);
            Moved(s, C.CursorUp(s, p), Max(s.top, Min(s.row, s.bottom)) - up + s.top, s.col)
  {
    hide C.Count, GridOk, Last;
  }

  /** CUD, which stops at the bottom margin, or at the last row from below the region. */
  lemma CursorDown(w: Width, s: Term, p: string)
    requires Accepted(w, s, p, 'B')
    ensures var n, u, t := C.Count(p), s.scr, Shown(w, s, p, 'B');
            && (!u.origin ==>
                  t == u.(row := if n >= 0 then Min(u.row + n, if u.row <= u.bottom then u.bottom else u.rows - 1)
                                 else Max(u.row + n, 0),
                          col := Min(u.col, u.cols - 1)))
            && (u.origin ==>
                  var down := if u.row <= u.bottom then Min(n, u.bottom - u.row) else n;
                  Moved(u, t, Max(u.top, Min(u.row, u.bottom)) + down + u.top, u.col))
  {
    hide Accepted, Shown, C.Motion, C.MotionFits, C.Count, C.CursorDown, ScreenOk, Moved;
    Steered(w, s, p, 'B');
    MotionHandler(s.scr, p, 'B');
    if s.scr.origin {
      DownInRegion(s.scr, p);
    } else {
      DownwardMotion(s.scr, p);
    }
  }

  lemma DownInRegion(s: Screen, p: string)
    requires ScreenOk(s) && s.origin
    ensures var down := if s.row <= s.bottom then Min(C.Count(p), s.bottom - s.row) else C.Count(p);
            Moved(s, C.CursorDown(s, p), Max(s.top, Min(s.row, s.bottom)) + down + s.top, s.col)
  {
    hide C.Count, GridOk, Last;
  }

  lemma AcrossMoves(s: Screen, p: string)
    requires ScreenOk(s)
    ensures Moved(s, C.CursorAcross(s, p, 1), s.row, s.col + Max(C.Count(p), 1))
    ensures Moved(s, C.CursorAcross(s, p, -1), s.row, s.col - Max(C.Count(p), 1))
  {
    hide C.Count, GridOk, Last;
  }

  /** CUF and CUB move by at least one column, whatever their count. */
  lemma CursorAcross(w: Width, s: Term, p: string)
    ensures Accepted(w, s, p, 'C') ==> Moved(s.scr, Shown(w, s, p, 'C'), s.scr.row, s.scr.col + Max(C.Count(p), 1))
    ensures Accepted(w, s, p, 'D') ==> Moved(s.scr, Shown(w, s, p, 'D'), s.scr.row, s.scr.col - Max(C.Count(p), 1))
  {
    hide Accepted, Shown, C.Motion, C.MotionFits, C.Count, C.CursorAcross, ScreenOk, Moved;
    if Accepted(w, s, p, 'C') {
      Steered(w, s, p, 'C');
      MotionHandler(s.scr, p, 'C');
      AcrossMoves(s.scr, p);
    }
    if Accepted(w, s, p, 'D') {
      Steered(w, s, p, 'D');
      MotionHandler(s.scr, p, 'D');
      AcrossMoves(s.scr, p);
    }
  }

  lemma LineMoves(s: Screen, p: string)
    requires ScreenOk(s)
    ensures Moved(s, C.CursorLine(s, p, 1), s.row + C.Count(p), 0)
    ensures Moved(s, C.CursorLine(s, p, -1), s.row - C.Count(p), 0)
  {
    hide C.Count, GridOk, Last;
  }

  /** CNL and CPL move to column 0 of a row that many rows away; the margins do not stop them. */
  lemma CursorLine(w: Width, s: Term, p: string)
    ensures Accepted(w, s, p, 'E') ==> Moved(s.scr, Shown(w, s, p, 'E'), s.scr.row + C.Count(p), 0)
    ensures Accepted(w, s, p, 'F') ==> Moved(s.scr, Shown(w, s, p, 'F'), s.scr.row - C.Count(p), 0)
  {
    hide Accepted, Shown, C.Motion, C.MotionFits, C.Count, C.CursorLine, ScreenOk, Moved;
    if Accepted(w, s, p, 'E') {
      Steered(w, s, p, 'E');
      MotionHandler(s.scr, p, 'E');
      LineMoves(s.scr, p);
    }
    if Accepted(w, s, p, 'F') {
      Steered(w, s, p, 'F');
      MotionHandler(s.scr, p, 'F');
      LineMoves(s.scr, p);
    }
  }

  lemma ColumnRowMoves(s: Screen, p: string)
    requires ScreenOk(s)
    ensures Moved(s, C.CursorColumn(s, p), s.row, C.Count(p) - 1)
    ensures if p == "" then C.CursorRow(s, p) == s
            else Moved(s, C.CursorRow(s, p), Scan(p).GetOr(s.row) - 1, s.col)
  {
    hide C.Count, Scan, GridOk, Last;
  }

  /** CHA moves to a column counted from 1, VPA to a row; without a number VPA moves to the row above. */
  lemma CursorColumnRow(w: Width, s: Term, p: string)
    ensures Accepted(w, s, p, 'G') ==> Moved(s.scr, Shown(w, s, p, 'G'), s.scr.row, C.Count(p) - 1)
    ensures Accepted(w, s, p, 'd') && p != "" ==>
              Moved(s.scr, Shown(w, s, p, 'd'), Scan(p).GetOr(s.scr.row) - 1, s.scr.col)
    ensures Accepted(w, s, p, 'd') && p == "" ==> Shown(w, s, p, 'd') == s.scr
  {
    hide Accepted, Shown, C.Motion, C.MotionFits, C.Count, C.CursorColumn, C.CursorRow, Scan, ScreenOk, Moved;
    if Accepted(w, s, p, 'G') {
      Steered(w, s, p, 'G');
      MotionHandler(s.scr, p, 'G');
      ColumnRowMoves(s.scr, p);
    }
    if Accepted(w, s, p, 'd') {
      Steered(w, s, p, 'd');
      MotionHandler(s.scr, p, 'd');
      ColumnRowMoves(s.scr, p);
    }
  }

  /** Where a position of the text `p` moves the cursor; `home` for CUP. */
  predicate Positioned(s: Screen, t: Screen, p: string, home: bool)
    requires ScreenOk(s)
  {
    var parts := Split(p, ";");
    if |parts| == 2 then Moved(s, t, Scan(parts[0]).GetOr(s.row) - 1, Scan(parts[1]).GetOr(s.col) - 1)
    else if home && p == "" then t == s.(row := 0, col := 0)
    else if home && |parts| == 1 then Moved(s, t, Scan(p).GetOr(s.row) - 1, 0)
    else t == s
  }

  lemma PositionMoves(s: Screen, p: string)
    requires ScreenOk(s)
    ensures Positioned(s, C.CursorPosition(s, p), p, true)
    ensures Positioned(s, C.FormatPosition(s, p), p, false)
  {
    hide Scan, Split, GridOk, Last;
    ScanHead(p);
  }

  /**
   * CUP and HVP move to the row and column of two numbers counted from 1; a missing number leaves the row or
   * column one less. CUP with one number moves to column 0, and without any home, out of the region in
   * origin mode if need be. Other forms do nothing.
   */
  lemma CursorPosition(w: Width, s: Term, p: string)
    ensures Accepted(w, s, p, 'H') ==> Positioned(s.scr, Shown(w, s, p, 'H'), p, true)
    ensures Accepted(w, s, p, 'f') ==> Positioned(s.scr, Shown(w, s, p, 'f'), p, false)
  {
    hide Accepted, Shown, C.Motion, C.MotionFits, C.CursorPosition, C.FormatPosition, ScreenOk, Positioned;
    if Accepted(w, s, p, 'H') {
      Steered(w, s, p, 'H');
      MotionHandler(s.scr, p, 'H');
      PositionMoves(s.scr, p);
    }
    if Accepted(w, s, p, 'f') {
      Steered(w, s, p, 'f');
      MotionHandler(s.scr, p, 'f');
      PositionMoves(s.scr, p);
    }
  }

  // ------------------------------------------------------- modes, margins, stops, reports

  /** An accepted final byte that sets something is inside the guards of its handler, which sets it. */
  lemma Set(w: Width, s: Term, p: string, b: char)
    requires Accepted(w, s, p, b)
    ensures ScreenOk(s.scr) && C.SettingSafe(s.scr, p, b)
    ensures !C.IsMotion(b) && !C.IsEdit(b) ==> C.Setting(s.scr, p, b) == Some(Shown(w, s, p, b))
  {
    hide C.Edit, C.Motion, C.Setting, C.MotionFits, C.SettingFits, C.EditFits, C.EditSafe, C.SettingSafe, ScreenOk,
         Accepted, Shown;
    Sound(w, s, p, b);
    Handled(w, s, p, b);
  }

  lemma SettingHandler(s: Screen, p: string, b: char)
    requires ScreenOk(s)
    ensures b == 'c' ==> C.Setting(s, p, b) == Some(C.DeviceAttributes(s, p))
    ensures b == 'g' ==> C.Setting(s, p, b) == C.ClearTabs(s, p)
    ensures b == 'h' ==> C.Setting(s, p, b) == Some(C.SwitchModes(s, p, true))
    ensures b == 'l' ==> C.Setting(s, p, b) == Some(C.SwitchModes(s, p, false))
    ensures b == 'm' ==> C.Setting(s, p, b) == C.Rendition(s, p)
    ensures b == 'n' ==> C.Setting(s, p, b) == Some(C.DeviceStatus(s, p))
    ensures b == 'r' ==> C.Setting(s, p, b) == Some(C.SetMargins(s, p))
    ensures b !in "cghlmnr" ==> C.Setting(s, p, b) == Some(s)
  {
    hide C.DeviceAttributes, C.ClearTabs, C.SwitchModes, C.Rendition, C.DeviceStatus, C.SetMargins, C.SettingSafe,
         ScreenOk;
  }

  /** Every other final byte does nothing. */
  lemma Unknown(w: Width, s: Term, p: string, b: char)
    requires Accepted(w, s, p, b) && b !in "ABCDEFGHdfJKLMPSX@cghlmnr"
    ensures Shown(w, s, p, b) == s.scr
  {
    hide Accepted, Shown, C.Setting, C.SettingSafe, ScreenOk;
    Set(w, s, p, b);
    SettingHandler(s.scr, p, b);
  }

  function Widened(s: Screen, on: bool, width: bool): Screen {
    if width then Resize(s, s.rows, if on then 132 else 80) else s
  }

  /** Reverse video, origin mode and autowrap where chosen, and the cursor on. */
  function Flipped(s: Screen, on: bool, reverse: bool, origin: bool, wrap: bool, cursor: bool): Screen {
    s.(reverse := if reverse then on else s.reverse,
       origin := if origin then on else s.origin,
       wrap := if wrap then on else s.wrap,
       showCursor := s.showCursor || cursor)
  }

  /**
   * What a list of mode parameters switches: insert mode for 4; for private ones the screen width for 3, reverse
   * video for 5, origin mode for 6, autowrap for 7, and in both directions the cursor on for 25.
   */
  function Switched(s: Screen, parts: seq<string>, on: bool, isPrivate: bool): Screen {
    if !isPrivate then s.(insert := if "4" in parts then on else s.insert)
    else Flipped(Widened(s, on, "3" in parts), on, "5" in parts, "6" in parts, "7" in parts, "25" in parts)
  }

  lemma ResizeTwice(s: Screen, cols: nat)
    requires ScreenOk(s)
    ensures Resize(Resize(s, s.rows, cols), s.rows, cols) == Resize(s, s.rows, cols)
  {
    var t := Resize(s, s.rows, cols);
    var u := Resize(t, s.rows, cols);
    forall i | 0 <= i < s.rows ensures u.grid[i] == t.grid[i] {
      assert u.grid[i] == Resized(t.grid[i], cols, BLANK);
    }
    assert u.grid == t.grid && u.tabs == t.tabs;
  }

  /** The width and the other modes do not depend on each other. */
  lemma WidenFlipped(s: Screen, on: bool, width: bool, p: bool, q: bool, r: bool, t: bool)
    ensures Widened(Flipped(s, on, p, q, r, t), on, width) == Flipped(Widened(s, on, width), on, p, q, r, t)
  {
    hide ResizeGrid, ResizeTabs;
  }

  lemma WidenTwice(s: Screen, on: bool, a: bool, b: bool)
    requires ScreenOk(s)
    ensures Widened(Widened(s, on, a), on, b) == Widened(s, on, a || b)
  {
    hide ScreenOk, Resize;
    ResizeTwice(s, if on then 132 else 80);
    ResizeKeepsRows(s, if on then 132 else 80);
  }

  lemma ResizeKeepsRows(s: Screen, cols: nat)
    ensures Resize(s, s.rows, cols).rows == s.rows
  {
  }

  lemma FlipTwice(s: Screen, on: bool, p: bool, q: bool, r: bool, t: bool, a: bool, b: bool, c: bool, d: bool)
    ensures Flipped(Flipped(s, on, p, q, r, t), on, a, b, c, d) == Flipped(s, on, p || a, q || b, r || c, t || d)
  {
  }

  lemma NoFlips(s: Screen, on: bool)
    ensures Flipped(s, on, false, false, false, false) == s
  {
  }

  lemma InCons(x: string, a: string, rest: seq<string>)
    ensures x in [a] + rest <==> x == a || x in rest
  {
  }

  lemma PrivateSwitched(s: Screen, part: string, on: bool)
    requires ScreenOk(s)
    ensures (if on then C.PrivateSet(s, part) else C.PrivateReset(s, part))
         == Flipped(Widened(s, on, part == "3"), on, part == "5", part == "6", part == "7", part == "25")
  {
    hide Resize, ScreenOk;
    NoFlips(Widened(s, on, true), on);
    NoFlips(s, on);
  }

  lemma SwitchedOne(s: Screen, part: string, rest: seq<string>, on: bool)
    requires ScreenOk(s)
    ensures Switched(if on then C.PrivateSet(s, part) else C.PrivateReset(s, part), rest, on, true)
         == Switched(s, [part] + rest, on, true)
  {
    hide ScreenOk, Widened, Flipped, C.PrivateSet, C.PrivateReset;
    var a, b, c, d, e := part == "3", part == "5", part == "6", part == "7", part == "25";
    InCons("3", part, rest);
    InCons("5", part, rest);
    InCons("6", part, rest);
    InCons("7", part, rest);
    InCons("25", part, rest);
    PrivateSwitched(s, part, on);
    WidenFlipped(Widened(s, on, a), on, "3" in rest, b, c, d, e);
    WidenTwice(s, on, a, "3" in rest);
    FlipTwice(Widened(s, on, a || "3" in rest), on, b, c, d, e, "5" in rest, "6" in rest, "7" in rest, "25" in rest);
  }

  lemma InsertSwitched(s: Screen, part: string, rest: seq<string>, on: bool)
    ensures Switched(C.Mode(s, part, on), rest, on, false) == Switched(s, [part] + rest, on, false)
  {
    InCons("4", part, rest);
  }

  lemma {:induction false} ModesSwitch(s: Screen, parts: seq<string>, on: bool, isPrivate: bool)
    requires ScreenOk(s)
    ensures C.Modes(s, parts, on, isPrivate) == Switched(s, parts, on, isPrivate)
    decreases |parts|
  {
    hide ScreenOk, Resize, Switched, C.Mode, C.PrivateSet, C.PrivateReset;
    if parts == [] {
      NothingSwitched(s, on, isPrivate);
    } else {
      var u := if !isPrivate then C.Mode(s, parts[0], on)
               else if on then C.PrivateSet(s, parts[0]) else C.PrivateReset(s, parts[0]);
      ModeKeepsOk(s, parts[0], on);
      ModesSwitch(u, parts[1..], on, isPrivate);
      SwitchedOne(s, parts[0], parts[1..], on);
      InsertSwitched(s, parts[0], parts[1..], on);
      assert [parts[0]] + parts[1..] == parts;
    }
  }

  lemma NothingSwitched(s: Screen, on: bool, isPrivate: bool)
    ensures Switched(s, [], on, isPrivate) == s
  {
  }

  lemma ModeKeepsOk(s: Screen, part: string, on: bool)
    requires ScreenOk(s)
    ensures ScreenOk(C.Mode(s, part, on))
  {
  }

  /** SM and RM, and with a leading question mark DECSET and DECRST, for every list of parameters in any order. */
  lemma SwitchModes(w: Width, s: Term, p: string, b: char)
    requires b in "hl" && Accepted(w, s, p, b)
    ensures Shown(w, s, p, b) ==
            if p == "" then s.scr
            else if p[0] == '?' then Switched(s.scr, Split(p[1..], ";"), b == 'h', true)
            else Switched(s.scr, Split(p, ";"), b == 'h', false)
  {
    hide Accepted, Shown, C.Setting, C.SettingSafe, ScreenOk, Switched, Split, C.Modes;
    Set(w, s, p, b);
    SettingHandler(s.scr, p, b);
    if p != "" {
      ModesSwitch(s.scr, Split(p, ";"), b == 'h', false);
      ModesSwitch(s.scr, Split(p[1..], ";"), b == 'h', true);
    }
  }

  /** The number of a parameter, or a default where it has none. */
  function Read(part: string, default: int): int { Scan(part).GetOr(default) }

  predicate Region(s: Screen, t: Screen, first: int, last: int) {
    t == if last > first then s.(top := first - 1, bottom := last - 1, row := first - 1, col := 0) else s
  }

  lemma ScanNothing()
    ensures Scan("") == None
  {
  }

  lemma MarginsSet(s: Screen, p: string)
    requires ScreenOk(s)
    ensures var parts := Split(p, ";");
            if |parts| == 2 then Region(s, C.SetMargins(s, p), Read(parts[0], 1), Read(parts[1], s.rows))
            else if |parts| == 1 then Region(s, C.SetMargins(s, p), Read(p, 1), s.rows)
            else C.SetMargins(s, p) == s
  {
    hide Split, Scan, ScreenOk, C.MarginsFit, SameLog, C.WantedMargins;
    MarginsWanted(s, p);
  }

  lemma MarginsWanted(s: Screen, p: string)
    ensures var parts := Split(p, ";");
            C.WantedMargins(s, p) == if |parts| == 2 then Some((Read(parts[0], 1) - 1, Read(parts[1], s.rows) - 1))
                                     else if |parts| == 1 then Some((Read(p, 1) - 1, s.rows - 1))
                                     else None
  {
    hide Split, Scan;
    ScanHead(p);
    if p == "" {
      SplitNone(p, ';');
      ScanNothing();
    }
  }

  /**
   * DECSTBM takes its two numbers, counted from 1, as first and last row of the region, if the last one is larger,
   * and homes the cursor to the first one. By default they are the first and the last row of the screen.
   */
  lemma SetMargins(w: Width, s: Term, p: string)
    requires Accepted(w, s, p, 'r')
    ensures var t, parts := Shown(w, s, p, 'r'), Split(p, ";");
            if |parts| == 2 then Region(s.scr, t, Read(parts[0], 1), Read(parts[1], s.scr.rows))
            else if |parts| == 1 then Region(s.scr, t, Read(p, 1), s.scr.rows)
            else t == s.scr
  {
    hide Accepted, Shown, C.Setting, C.SettingSafe, ScreenOk, Split, Region, Read, C.SetMargins;
    Set(w, s, p, 'r');
    SettingHandler(s.scr, p, 'r');
    MarginsSet(s.scr, p);
  }

  predicate StopsCleared(s: Screen, t: Screen, n: int) {
    && t == s.(tabs := t.tabs) && |t.tabs| == |s.tabs|
    && forall j :: 0 <= j < |t.tabs| ==> t.tabs[j] == (s.tabs[j] && n != 3 && !(n == 0 && j == s.col))
  }

  lemma TabsCleared(s: Screen, p: string)
    requires ScreenOk(s) && C.ClearTabs(s, p).Some?
    ensures StopsCleared(s, C.ClearTabs(s, p).value, Read(p, 0))
  {
    hide Scan, GridOk, Last;
    if p == "" {
      ScanNothing();
    }
  }

  /** TBC clears the stop in the cursor column, or with 3 all of them. */
  lemma ClearTabs(w: Width, s: Term, p: string)
    requires Accepted(w, s, p, 'g')
    ensures StopsCleared(s.scr, Shown(w, s, p, 'g'), Read(p, 0))
  {
    hide Accepted, Shown, C.Setting, C.SettingSafe, ScreenOk, StopsCleared, Read, C.ClearTabs;
    Set(w, s, p, 'g');
    SettingHandler(s.scr, p, 'g');
    TabsCleared(s.scr, p);
  }

  /** `t` is `s` after `answer` was sent, if there is a pty. */
  predicate Answered(s: Screen, t: Screen, answer: string) {
    t == if s.online then s.(sent := s.sent + answer) else s
  }

  /** DA answers the two queries it knows and changes nothing else. */
  lemma DeviceAttributes(w: Width, s: Term, p: string)
    requires Accepted(w, s, p, 'c')
    ensures Answered(s.scr, Shown(w, s, p, 'c'),
                     if p == "" || p == "0" then [ESCAPE] + "[?1;2c"
                     else if p == ">" || p == ">0" then [ESCAPE] + "[>0;276;0c" else "")
  {
    hide Accepted, Shown, C.Setting, C.SettingSafe, ScreenOk;
    Set(w, s, p, 'c');
    SettingHandler(s.scr, p, 'c');
  }

  /** DSR answers that all is well to 5 and the cursor position, counted from 1, to 6. */
  lemma DeviceStatus(w: Width, s: Term, p: string)
    requires Accepted(w, s, p, 'n')
    ensures s.scr.row >= 0 && s.scr.col >= 0
    ensures Answered(s.scr, Shown(w, s, p, 'n'),
                     if p == "5" then [ESCAPE] + "[0n"
                     else if p == "6" then [ESCAPE] + "[" + (Dec(s.scr.row + 1) + ";" + Dec(s.scr.col + 1)) + "R"
                     else "")
  {
    hide Accepted, Shown, C.Setting, C.SettingSafe, Dec, Shape;
    Set(w, s, p, 'n');
    SettingHandler(s.scr, p, 'n');
  }

  /** Counts: 1 by default, a decimal number as it is written, and its negative behind a minus sign. */
  lemma CountReads(d: string)
    requires Limits.Digits(d)
    ensures C.Count("") == 1 && C.Count(d) == Value(d, 0) && C.Count("-" + d) == 0 - Value(d, 0)
  {
    Limits.ScanDigits(d);
    var p := "-" + d;
    assert p[1..] == d && p[0] == '-';
    assert SkipSpaces(p) == p;
  }
}
