/** Characters, control characters and escape sequences: what they do to the screen, from their bytes. */
module Controls {
  import opened Sequences
  import opened Text
  import opened Cells
  import opened Display
  import opened Parser
  import opened Effects
  import opened Commands
  import Utf8
  import C = Csi
  import Printing
  import Sizes

  // ------------------------------------------------------------------------- characters

  /** Outside of insert mode the bytes of a character put it where it belongs; one of width 0 does nothing. */
  lemma CharacterLands(w: Width, s: Term, code: nat, text: string)
    requires Ready(s) && !s.scr.insert
    requires Printing.Character(code) && Printing.Bytes(text) == Utf8.Encode(code)
    ensures var t := Run(w, s, text);
            && t.Some? && Ready(t.value)
            && if w(code) <= 0 then t.value.scr == s.scr else Lands(s.scr, t.value.scr, code, Min(w(code), 2))
  {
    hide Run, InsertPoint, Lands, ScreenOk, Utf8.Encode;
    Printing.RunInsertsOne(w, s, code, text);
    InsertOrNot(w, s.scr, code);
  }

  lemma InsertOrNot(w: Width, s: Screen, code: nat)
    requires ScreenOk(s) && code <= Utf8.MAX_POINT
    ensures if w(code) <= 0 then InsertPoint(w, s, code) == s
            else Lands(s, InsertPoint(w, s, code), code, Min(w(code), 2))
  {
    hide Lands, ScreenOk;
    if w(code) > 0 {
      InsertLands(w, s, code);
    }
  }

  /** The row with its cells from column `c` on moved right by one; the cell at `c` is there twice. */
  predicate Gap(r: Row, h: Row, c: nat) {
    && |h| == |r|
    && forall j {:trigger h[j]} :: 0 <= j < |r| ==> if j <= c then h[j] == r[j] else h[j] == r[j - 1]
  }

  /** Room was made at the cursor, if it stands on a cell. */
  ghost predicate Gapped(s: Screen, u: Screen)
    requires ScreenOk(s)
  {
    if s.col < s.cols then exists h :: RowReplaced(s, u, h) && Gap(s.grid[s.row], h, s.col) else u == s
  }

  lemma OpensGap(s: Screen)
    requires ScreenOk(s)
    ensures Gapped(s, OpenGap(s))
  {
    RowLengths(s.grid, s.rows, s.cols);
    if s.col < s.cols {
      var r := s.grid[s.row];
      assert RowReplaced(s, OpenGap(s), ShiftDown(r, s.col, s.cols, 1, r[s.col]));
    }
  }

  /** In insert mode a printable byte lands in the same way after room was made for it. */
  lemma InsertModeLands(w: Width, s: Term, b: char) returns (u: Screen)
    requires Ready(s) && s.scr.insert && IsPrintable(b)
    ensures ScreenOk(u) && Gapped(s.scr, u)
    ensures var t := Run(w, s, [b]);
            && t.Some? && t.value == s.(scr := t.value.scr)
            && if w(b as nat) <= 0 then t.value.scr == u else Lands(u, t.value.scr, b as nat, Min(w(b as nat), 2))
  {
    hide Run, Utf8.InRange, InsertPoint, OpenGap, ScreenOk, Lands, Gapped;
    u := OpenGap(s.scr);
    OpensGap(s.scr);
    InsertOrNot(w, u, b as nat);
    assert Step(w, s, b) == Some(s.(scr := Print(w, s.scr, b)));
    RunOne(w, s, b);
  }

  /**
   * So a byte of width 1 is stored at the cursor, and the rest of the row, but for its last cell, is kept one
   * column further right.
   */
  lemma InsertModeShifts(w: Width, s: Term, b: char)
    requires Ready(s) && s.scr.insert && IsPrintable(b) && w(b as nat) == 1 && s.scr.col < s.scr.cols
    ensures var r, t := s.scr.grid[s.scr.row], Run(w, s, [b]);
            && t.Some? && t.value == s.(scr := s.scr.(grid := t.value.scr.grid, col := s.scr.col + 1))
            && |t.value.scr.grid| == |s.scr.grid| && |t.value.scr.grid[s.scr.row]| == |r| == s.scr.cols
            && (forall i :: 0 <= i < s.scr.rows && i != s.scr.row ==> t.value.scr.grid[i] == s.scr.grid[i])
            && (forall j :: 0 <= j < s.scr.cols ==>
                  t.value.scr.grid[s.scr.row][j] == if j < s.scr.col then r[j]
                                                    else if j == s.scr.col then Cell(b as nat, s.scr.style)
                                                    else r[j - 1])
  {
    hide Run, Utf8.InRange, Last, GridOk;
    RowLengths(s.scr.grid, s.scr.rows, s.scr.cols);
    var u := InsertModeLands(w, s, b);
    var h :| RowReplaced(s.scr, u, h) && Gap(s.scr.grid[s.scr.row], h, s.scr.col);
    assert u.grid[s.scr.row] == h;
  }

  // ------------------------------------------------------------------ control characters

  /** A line feed: the next row, in the same column. */
  ghost predicate FeedsLine(s: Screen, t: Screen)
    requires ScreenOk(s)
  {
    && t == s.(grid := t.grid, row := NextRow(s), scrolled := t.scrolled, history := t.history)
    && NextGrid(s, t.grid) && NextLog(s, t)
  }

  lemma LineFeedFeeds(s: Screen)
    requires ScreenOk(s)
    ensures FeedsLine(s, LineFeed(s))
  {
    hide EraseInsert, ShiftUp, IsShiftUp, Last, GridOk, BlankRow;
    if s.row == s.bottom {
      RowLengths(s.grid, s.rows, s.cols);
      EraseInsertShifts(s.grid, s.top, s.bottom, s.cols);
    }
  }

  /** HT: the least tab stop to the right, or the last column. */
  predicate Tabbed(s: Screen, t: Screen)
    requires ScreenOk(s)
  {
    && t == s.(row := Max(FirstRow(s), Min(s.row, LastRow(s))), col := t.col)
    && if s.col < s.cols then Sizes.TabTarget(s, t.col) else t.col == s.cols - 1
  }

  lemma TabTabs(s: Screen)
    requires ScreenOk(s)
    ensures Tabbed(s, Tab(s))
  {
    hide GridOk, Last;
  }

  /** The effect of a control character other than ESC, on a screen of the invariant. */
  ghost predicate Controlled(s: Screen, t: Screen, b: char)
    requires ScreenOk(s)
  {
    if b == '\r' then t == s.(col := 0)
    else if b == '\n' then FeedsLine(s, t)
    else if b == '\U{0008}' then t == s.(col := if s.col > 0 then s.col - 1 else 0)
    else if b == '\t' then Tabbed(s, t)
    else t == s
  }

  /**
   * CR returns to column 0, LF moves to the next row, BS one column left and not beyond column 0, HT to the next
   * tab stop. The other control characters do nothing.
   */
  lemma ControlCharacters(w: Width, s: Term, b: char)
    requires Ready(s) && b < ' ' && b != ESCAPE
    ensures var t := Run(w, s, [b]);
            t.Some? && t.value == s.(scr := t.value.scr) && Controlled(s.scr, t.value.scr, b)
  {
    hide Run, Utf8.InRange, LineFeed, Tab, FeedsLine, Tabbed, ScreenOk;
    LineFeedFeeds(s.scr);
    TabTabs(s.scr);
    assert Step(w, s, b) == Some(s.(scr := Control(s.scr, b)));
    RunOne(w, s, b);
  }

  // ------------------------------------------------------------------- escape sequences

  /** ESC and a byte that neither opens a longer sequence nor sets a tab stop. */
  lemma RunEscape(w: Width, s: Term, b: char)
    requires Ready(s) && b !in "[]P#()H"
    ensures Run(w, s, [ESCAPE, b]) == Some(s.(buf := "", scr := EscAction(s.scr, b)))
  {
    hide Run, ScreenOk, EscAction, Utf8.InRange;
    var t := s.(esc := Esc, buf := "");
    assert Step(w, s, ESCAPE) == Some(t);
    assert Step(w, t, b) == Some(ToIdle(t, EscAction(t.scr, b)));
    RunCons(w, s, ESCAPE, [b]);
    RunOne(w, t, b);
    assert [ESCAPE, b] == [ESCAPE] + [b];
  }

  /** RI: one row up, or with the cursor row at the top margin the region moved up. */
  ghost predicate FeedsBack(s: Screen, t: Screen)
    requires ScreenOk(s)
  {
    if s.row == s.top then
      t == s.(grid := t.grid) && IsShiftDown(s.grid, s.top, s.bottom + 1, 1, BlankRow(s.cols), t.grid)
    else Moved(s, t, s.row - 1, s.col)
  }

  lemma ReverseIndexFeeds(s: Screen)
    requires ScreenOk(s)
    ensures FeedsBack(s, ReverseIndex(s))
  {
    hide GridOk, Last, ShiftDown;
    RowLengths(s.grid, s.rows, s.cols);
  }

  ghost predicate Escaped(s: Screen, t: Screen, b: char)
    requires ScreenOk(s)
  {
    if b == 'A' then Moved(s, t, s.row - 1, s.col)
    else if b == 'B' then Moved(s, t, s.row + 1, s.col)
    else if b == 'C' then Moved(s, t, s.row, s.col + 1)
    else if b == 'D' then FeedsLine(s, t)
    else if b == 'E' then Moved(s, t, s.row + 1, 0)
    else if b == 'M' then FeedsBack(s, t)
    else if b == '7' then t == s.(saveRow := s.row, saveCol := s.col, saveStyle := s.style)
    else if b == '8' then Moved(s.(style := s.saveStyle), t, s.saveRow, s.saveCol)
    else t == s
  }

  lemma CursorToMoves(s: Screen, row: int, col: int, style: Style)
    requires ScreenOk(s) && WeightOk(style)
    ensures ScreenOk(s.(style := style)) && Moved(s.(style := style), CursorTo(s, row, col, style), row, col)
    ensures s.(style := s.style) == s
  {
    hide GridOk, Last;
  }

  lemma CursorEscapes(s: Screen, b: char)
    requires ScreenOk(s)
    ensures b in "ABCE" ==> Escaped(s, EscCursor(s, b), b)
    ensures b == '8' ==> ScreenOk(s.(style := s.saveStyle))
                         && Moved(s.(style := s.saveStyle), EscCursor(s, b), s.saveRow, s.saveCol)
    ensures b !in "ABCE8" ==> EscCursor(s, b) == s
  {
    hide Shape, CursorTo, Moved;
    CursorToMoves(s, s.row - 1, s.col, s.style);
    CursorToMoves(s, s.row + 1, s.col, s.style);
    CursorToMoves(s, s.row, s.col + 1, s.style);
    CursorToMoves(s, s.row + 1, 0, s.style);
    CursorToMoves(s, s.saveRow, s.saveCol, s.saveStyle);
  }

  /**
   * ESC A to C move by one, IND feeds a line, ESC E moves down to column 0 without scrolling, RI feeds back, DECSC
   * saves cursor and style, DECRC takes them back. ESC and any other byte that ends a sequence do nothing.
   */
  lemma EscapeSequences(w: Width, s: Term, b: char)
    requires Ready(s) && b !in "[]P#()H"
    ensures var t := Run(w, s, [ESCAPE, b]);
            t.Some? && t.value == s.(buf := "", scr := t.value.scr) && Escaped(s.scr, t.value.scr, b)
  {
    hide Run, Moved, LineFeed, FeedsLine, FeedsBack, ReverseIndex, ScreenOk, Utf8.InRange, EscCursor;
    RunEscape(w, s, b);
    CursorEscapes(s.scr, b);
    LineFeedFeeds(s.scr);
    ReverseIndexFeeds(s.scr);
  }

  /** HTS sets a stop in the cursor column, which a full row does not have. */
  lemma SetsStop(w: Width, s: Term)
    requires Ready(s)
    ensures Run(w, s, [ESCAPE, 'H'])
         == if s.scr.col == s.scr.cols then None
            else Some(s.(buf := "", scr := s.scr.(tabs := s.scr.tabs[s.scr.col := true])))
  {
    hide Run, Utf8.InRange, GridOk, Last;
    var t := s.(esc := Esc, buf := "");
    assert Step(w, s, ESCAPE) == Some(t);
    RunCons(w, s, ESCAPE, ['H']);
    RunLast(w, t, 'H');
    assert [ESCAPE, 'H'] == [ESCAPE] + ['H'];
  }

  /** DECALN fills the screen with E in the default style. */
  lemma FillsScreen(w: Width, s: Term)
    requires Ready(s)
    ensures var t := Run(w, s, [ESCAPE, '#', '8']);
            && t.Some? && t.value == s.(buf := "#", scr := s.scr.(grid := t.value.scr.grid))
            && |t.value.scr.grid| == s.scr.rows
            && forall i, j :: 0 <= i < s.scr.rows && 0 <= j < s.scr.cols ==>
                 |t.value.scr.grid[i]| == s.scr.cols && t.value.scr.grid[i][j] == Cell(0x45, DEFAULT_STYLE)
  {
    hide Run, Utf8.InRange, ScreenOk;
    var t := s.(esc := Esc, buf := "");
    assert Step(w, s, ESCAPE) == Some(t);
    RunCons(w, s, ESCAPE, ['#', '8']);
    var u := t.(buf := "" + ['#']);
    assert Step(w, t, '#') == Some(u);
    RunCons(w, t, '#', ['8']);
    RunLast(w, u, '8');
    assert [ESCAPE, '#', '8'] == [ESCAPE] + ['#', '8'] && ['#', '8'] == ['#'] + ['8'];
  }

  // ------------------------------------------------------------- saved cursor and style

  /** The byte completes a DECSC. */
  predicate Saves(s: Term, b: char) { s.esc == Esc && s.buf == "" && b == '7' }

  lemma PrintKeepsSaved(w: Width, s: Screen, b: char)
    requires ScreenOk(s) && IsPrintable(b)
    ensures SameSaved(s, Print(w, s, b))
  {
    hide InsertPoint, OpenGap, ScreenOk, Lands;
    InsertKeepsSaved(w, s, b as nat);
    InsertKeepsSaved(w, OpenGap(s), b as nat);
  }

  lemma ControlKeepsSaved(s: Screen, b: char)
    requires ScreenOk(s)
    ensures SameSaved(s, Control(s, b))
  {
    hide LineFeed, Tab, ScreenOk, FeedsLine;
    LineFeedFeeds(s);
    FeedsKeepsSaved(s, LineFeed(s));
  }

  lemma FeedsKeepsSaved(s: Screen, t: Screen)
    requires ScreenOk(s) && FeedsLine(s, t)
    ensures SameSaved(s, t)
  {
  }

  lemma InsertKeepsSaved(w: Width, s: Screen, code: nat)
    requires ScreenOk(s) && code <= Utf8.MAX_POINT
    ensures SameSaved(s, InsertPoint(w, s, code))
  {
    hide InsertPoint, ScreenOk, Stores, NextGrid, NextLog, NextRow, LastStart;
    InsertOrNot(w, s, code);
  }

  lemma IdleKeepsSaved(w: Width, s: Term, b: char)
    requires Inv(s) && s.esc == Idle
    ensures SameSaved(s.scr, IdleByte(w, s, b).scr)
  {
    hide InsertPoint, Print, Control, ScreenOk, SameSaved;
    ControlKeepsSaved(s.scr, b);
    if IsPrintable(b) {
      PrintKeepsSaved(w, s.scr, b);
    }
    var o := Utf8.Feed(s.utf8, b as nat);
    Utf8.FeedInRange(s.utf8, b as nat);
    if o.point.Some? {
      InsertKeepsSaved(w, s.scr, o.point.value);
    }
    SavedReflexive(s.scr);
  }

  lemma SavedReflexive(s: Screen)
    ensures SameSaved(s, s)
  {
  }

  lemma EscapeKeepsSaved(s: Term, b: char)
    requires Inv(s) && s.esc == Esc && !Saves(s, b) && EscByte(s, b).Some?
    ensures SameSaved(s.scr, EscByte(s, b).value.scr)
  {
    hide LineFeed, ReverseIndex, EscCursor, FeedsLine, ScreenOk, AlignmentPattern;
    LineFeedFeeds(s.scr);
    FeedsKeepsSaved(s.scr, LineFeed(s.scr));
  }

  /** Only DECSC changes what is saved. */
  lemma StepKeepsSaved(w: Width, s: Term, b: char)
    requires Inv(s) && Step(w, s, b).Some? && !Saves(s, b)
    ensures SameSaved(s.scr, Step(w, s, b).value.scr)
  {
    hide IdleByte, EscByte, CsiByte, OscByte, DcsByte, ScreenOk;
    if s.esc == Idle {
      IdleKeepsSaved(w, s, b);
    } else if s.esc == Esc {
      EscapeKeepsSaved(s, b);
    } else if s.esc == Osc {
      OscKeepsSaved(s, b);
    }
  }

  lemma OscKeepsSaved(s: Term, b: char)
    requires Inv(s) && s.esc == Osc
    ensures SameSaved(s.scr, OscByte(s, b).scr)
  {
    hide OscBell, OscTerminated, ScreenOk, SameLog, OneCall, Utf8.InRange;
  }

  /** Nowhere in the run a byte completes a DECSC. */
  predicate NeverSaves(w: Width, s: Term, bytes: string)
    requires Inv(s)
    decreases |bytes|
  {
    bytes == "" ||
    (&& !Saves(s, bytes[0])
     && var t := Step(w, s, bytes[0]);
        t.Some? && Inv(t.value) ==> NeverSaves(w, t.value, bytes[1..]))
  }

  lemma {:induction false} RunKeepsSaved(w: Width, s: Term, bytes: string)
    requires Inv(s) && Run(w, s, bytes).Some? && NeverSaves(w, s, bytes)
    ensures SameSaved(s.scr, Run(w, s, bytes).value.scr)
    decreases |bytes|
  {
    hide Step, Inv, Saves;
    if bytes != "" {
      StepKeepsSaved(w, s, bytes[0]);
      RunFirst(w, s, bytes);
      RunKeepsSaved(w, Step(w, s, bytes[0]).value, bytes[1..]);
    }
  }

  /**
   * DECRC after DECSC gives back the row, column and style of the cursor, through any bytes that do not save again
   * and leave the terminal idle: styles and modes may change, and the cursor is clamped to the screen, or in origin
   * mode to the region, as it is then.
   */
  lemma SavedCursorReturns(w: Width, s: Term, bytes: string)
    requires Ready(s)
    ensures var a := s.(buf := "", scr := s.scr.(saveRow := s.scr.row, saveCol := s.scr.col, saveStyle := s.scr.style));
            && Run(w, s, [ESCAPE, '7']) == Some(a)
            && (Run(w, a, bytes).Some? && NeverSaves(w, a, bytes) && Ready(Run(w, a, bytes).value) ==>
                  var b := Run(w, a, bytes).value;
                  var t := Run(w, s, [ESCAPE, '7'] + bytes + [ESCAPE, '8']);
                  && t.Some? && t.value == b.(buf := "", scr := t.value.scr)
                  && Moved(b.scr.(style := s.scr.style), t.value.scr, s.scr.row, s.scr.col))
  {
    hide Run, NeverSaves, Moved, ScreenOk, Utf8.InRange;
    EscapeSequences(w, s, '7');
    var a := s.(buf := "", scr := s.scr.(saveRow := s.scr.row, saveCol := s.scr.col, saveStyle := s.scr.style));
    assert Run(w, s, [ESCAPE, '7']) == Some(a);
    if Run(w, a, bytes).Some? && NeverSaves(w, a, bytes) && Ready(Run(w, a, bytes).value) {
      var b := Run(w, a, bytes).value;
      RunKeepsSaved(w, a, bytes);
      EscapeSequences(w, b, '8');
      RunConcat(w, s, [ESCAPE, '7'], bytes);
      RunConcat(w, s, [ESCAPE, '7'] + bytes, [ESCAPE, '8']);
    }
  }
}
