/** Only regular and bold characters are ever on the screen or in the scrollback. */
module Weights {
  import opened Sequences
  import opened Text
  import opened Cells
  import opened Display
  import opened Parser
  import S = Sessions
  import Utf8
  import C = Csi

  predicate Sound(r: Row) {
    forall j :: 0 <= j < |r| ==> WeightOk(r[j].style)
  }

  predicate AllSound(g: Grid) {
    forall i :: 0 <= i < |g| ==> Sound(g[i])
  }

  /** Every cell of the screen, and of every row that ever left it, is regular or bold. */
  predicate Painted(s: Screen) { AllSound(s.grid) && AllSound(s.scrolled) }

  // ------------------------------------------------------------- rows and cells moved

  lemma ResizePainted(s: Screen, rows: nat, cols: nat)
    requires Painted(s)
    ensures Painted(Resize(s, rows, cols))
  {
    var g := ResizeGrid(s.grid, rows, cols);
    forall i | 0 <= i < rows ensures Sound(g[i]) {
      var r := if i < |s.grid| then s.grid[i] else [];
      assert i < |s.grid| ==> Sound(s.grid[i]);
      assert g[i] == Resized(r, cols, BLANK);
    }
  }

  lemma ShiftsPainted(g: Grid, a: nat, b: nat, n: nat, x: Row)
    requires a <= b <= |g| && AllSound(g) && Sound(x)
    ensures AllSound(ShiftDown(g, a, b, n, x)) && AllSound(ShiftUp(g, a, b, n, x))
  {
    hide Sound;
  }

  lemma CopyDownPainted(g: Grid, a: nat, b: nat, n: int, x: Row)
    requires a <= b <= |g| && (a < b ==> b + Max(0, -n) <= |g|) && AllSound(g) && Sound(x)
    ensures AllSound(CopyDown(g, a, b, n, x))
  {
    hide Sound, CopyDown;
    var t := CopyDown(g, a, b, n, x);
    forall i | 0 <= i < |t| ensures Sound(t[i]) {
    }
  }

  lemma CopyUpPainted(g: Grid, a: nat, b: nat, n: int, x: Row)
    requires a <= b <= |g| && (a < b ==> a + n >= 0) && AllSound(g) && Sound(x)
    ensures AllSound(CopyUp(g, a, b, n, x))
  {
    hide Sound, CopyUp;
    var t := CopyUp(g, a, b, n, x);
    forall i | 0 <= i < |t| ensures Sound(t[i]) {
    }
  }

  lemma CopyCellsSound(r: Row, a: nat, n: int)
    requires a <= |r| && (a < |r| ==> a + n >= 0) && Sound(r)
    ensures Sound(CopyUp(r, a, |r|, n, BLANK))
  {
    hide CopyUp;
    var t := CopyUp(r, a, |r|, n, BLANK);
    forall i | 0 <= i < |t| ensures WeightOk(t[i].style) {
    }
  }

  lemma BlankSound(cols: nat)
    ensures Sound(BlankRow(cols)) && Sound(Rep(BLANK.(code := 0x45), cols))
  {
  }

  /** Replacing the cursor row by a sound one. */
  lemma RowPainted(s: Screen, r: Row)
    requires Painted(s) && 0 <= s.row < |s.grid| && Sound(r)
    ensures Painted(s.(grid := s.grid[s.row := r]))
  {
    hide Sound;
  }

  lemma EraseInsertPainted(g: Grid, i: nat, j: nat, cols: nat)
    requires i < |g| && j < |g| && AllSound(g)
    ensures AllSound(EraseInsert(g, i, j, cols))
  {
    BlankSound(cols);
    hide Sound, BlankRow;
    var h := g[..i] + g[i + 1..];
    assert forall k :: 0 <= k < |h| ==> h[k] == g[if k < i then k else k + 1];
    var t := EraseInsert(g, i, j, cols);
    forall k | 0 <= k < |t| ensures Sound(t[k]) {
      assert t[k] == if k < j then h[k] else if k == j then BlankRow(cols) else h[k - 1];
    }
  }

  lemma DropPainted(s: Screen)
    requires Shape(s) && 0 <= s.row <= s.rows && 0 <= s.col <= s.cols && Painted(s)
    ensures Painted(Drop(s))
  {
    assert |s.grid| == s.rows;
    hide Sound, Last, EraseInsert, GridOk;
    if s.row == s.bottom + 1 {
      EraseInsertPainted(s.grid, s.top, s.bottom, s.cols);
      assert Sound(s.grid[s.top]);
    }
  }

  lemma ReverseIndexPainted(s: Screen)
    requires ScreenOk(s) && Painted(s)
    ensures Painted(ReverseIndex(s))
  {
    BlankSound(s.cols);
    if s.row == s.top {
      ShiftsPainted(s.grid, s.top, s.bottom + 1, 1, BlankRow(s.cols));
    }
  }

  // ------------------------------------------------------------------------ printing

  lemma PutPainted(s: Screen, code: nat)
    requires ScreenOk(s) && s.col < s.cols && (code == WIDE_TAIL ==> s.col > 0) && Painted(s)
    ensures Painted(PutCell(s, code)) && PutCell(s, code).style == s.style
  {
    var r := s.grid[s.row];
    assert RowOk(r, s.cols) && Sound(r);
    RowPainted(s, r[s.col := Cell(code, s.style)]);
  }

  lemma RoomPainted(s: Screen, cw: nat)
    requires ScreenOk(s) && 1 <= cw <= 2 && Painted(s)
    ensures Painted(MakeRoom(s, cw))
  {
    hide Drop, Painted;
    if s.col + cw > s.cols && s.wrap {
      assert Painted(s.(row := s.row + 1, col := 0)) by {
        assert Painted(s);
        SameCellsPainted(s, s.(row := s.row + 1, col := 0));
      }
      DropPainted(s.(row := s.row + 1, col := 0));
    } else {
      SameCellsPainted(s, MakeRoom(s, cw));
    }
  }

  lemma SameCellsPainted(s: Screen, t: Screen)
    requires Painted(s) && t.grid == s.grid && t.scrolled == s.scrolled
    ensures Painted(t)
  {
  }

  lemma InsertPainted(w: Width, s: Screen, code: nat)
    requires ScreenOk(s) && code <= Utf8.MAX_POINT && Painted(s)
    ensures Painted(InsertPoint(w, s, code))
  {
    hide MakeRoom, PutCell, Painted;
    if w(code) > 0 {
      var cw := Min(w(code), 2);
      RoomPainted(s, cw);
      var t := MakeRoom(s, cw);
      PutPainted(t, code);
      var u := PutCell(t, code);
      if cw == 2 && u.col < u.cols {
        assert u.col > 0 by { assert u.col == t.col + 1 by { PutAdvances(t, code); } }
        PutPainted(u, WIDE_TAIL);
      }
    }
  }

  lemma PutAdvances(s: Screen, code: nat)
    requires ScreenOk(s) && s.col < s.cols && (code == WIDE_TAIL ==> s.col > 0)
    ensures PutCell(s, code).col == s.col + 1
  {
  }

  lemma GapPainted(s: Screen)
    requires ScreenOk(s) && Painted(s)
    ensures Painted(OpenGap(s))
  {
    if s.col < s.cols {
      var r := s.grid[s.row];
      assert RowOk(r, s.cols) && Sound(r);
      var t := ShiftDown(r, s.col, s.cols, 1, r[s.col]);
      forall j | 0 <= j < |t| ensures WeightOk(t[j].style) {
      }
      RowPainted(s, t);
    }
  }

  // ---------------------------------------------------------------- control sequences

  lemma EraseCellsPainted(s: Screen, lo: nat, hi: nat)
    requires ScreenOk(s) && lo <= hi <= s.cols && Painted(s)
    ensures Painted(EraseCells(s, lo, hi))
  {
    assert RowOk(s.grid[s.row], s.cols) && Sound(s.grid[s.row]);
    RowPainted(s, Fill(s.grid[s.row], lo, hi, BLANK));
  }

  lemma EraseRowsPainted(s: Screen, lo: nat, hi: nat)
    requires ScreenOk(s) && lo <= hi <= s.rows && Painted(s)
    ensures Painted(EraseRows(s, lo, hi))
  {
    BlankSound(s.cols);
    hide Sound, BlankRow;
  }

  lemma EraseDisplayPainted(s: Screen, buf: string)
    requires ScreenOk(s) && C.EraseDisplay(s, buf).Some? && Painted(s)
    ensures Painted(C.EraseDisplay(s, buf).value)
  {
    hide Fill, GridOk, Painted;
    if buf == "" || buf == "0" {
      EraseCellsPainted(s, s.col, s.cols);
      EraseRowsPainted(EraseCells(s, s.col, s.cols), s.row + 1, s.rows);
    } else if buf == "1" {
      EraseRowsPainted(s, 0, s.row);
      EraseCellsPainted(EraseRows(s, 0, s.row), 0, s.col + 1);
    } else if buf == "2" {
      EraseRowsPainted(s, 0, s.rows);
    }
  }

  lemma EraseLinePainted(s: Screen, buf: string)
    requires ScreenOk(s) && Painted(s)
    ensures Painted(C.EraseLine(s, buf)) && Painted(C.EraseChars(s, buf))
  {
    hide EraseCells, Painted, Scan;
    EraseCellsPainted(s, s.col, s.cols);
    EraseCellsPainted(s, 0, Min(s.col + 1, s.cols));
    EraseCellsPainted(s, 0, s.cols);
    EraseCellsPainted(s, s.col, Max(s.col, Min(s.col + C.Count(buf), s.cols)));
  }

  lemma InsertLinesPainted(s: Screen, n: int)
    requires ScreenOk(s) && C.InsertLinesReads(s, n) && Painted(s)
    ensures Painted(C.InsertLines(s, n))
  {
    assert |s.grid| == s.rows;
    BlankSound(s.cols);
    hide Sound, CopyDown, GridOk, BlankRow;
    if C.InRegion(s) {
      CopyDownPainted(s.grid, s.row, s.bottom + 1, n, BlankRow(s.cols));
    }
  }

  lemma DeleteLinesPainted(s: Screen, n: int)
    requires ScreenOk(s) && C.DeleteLinesReads(s, n) && Painted(s)
    ensures Painted(C.DeleteLines(s, n))
  {
    assert |s.grid| == s.rows;
    BlankSound(s.cols);
    hide Sound, CopyUp, GridOk, BlankRow;
    if C.InRegion(s) {
      CopyUpPainted(s.grid, s.row, s.bottom + 1, n, BlankRow(s.cols));
    }
  }

  lemma ScrollUpPainted(s: Screen, n: int)
    requires ScreenOk(s) && C.ScrollUpReads(s, n) && Painted(s)
    ensures Painted(C.ScrollUp(s, n))
  {
    assert |s.grid| == s.rows;
    BlankSound(s.cols);
    hide Sound, CopyUp, GridOk, BlankRow;
    CopyUpPainted(s.grid, s.top, s.bottom + 1, n, BlankRow(s.cols));
  }

  lemma CharsPainted(s: Screen, buf: string)
    requires ScreenOk(s) && Painted(s)
    ensures C.DeleteCharsReads(s, C.Count(buf)) ==> Painted(C.DeleteChars(s, C.Count(buf)))
    ensures C.InsertCharsReads(s, buf) ==> Painted(C.InsertChars(s, buf))
  {
    hide CopyUp, Scan;
    var r := s.grid[s.row];
    assert RowOk(r, s.cols) && Sound(r);
    if C.DeleteCharsReads(s, C.Count(buf)) {
      CopyCellsSound(r, s.col, C.Count(buf));
      RowPainted(s, C.DeleteCells(r, s.col, C.Count(buf)));
    }
    if C.InsertCharsReads(s, buf) && C.EndsInDigit(buf) {
      var t := C.InsertBlanks(r, s.col, C.Count(buf));
      forall j | 0 <= j < |t| ensures WeightOk(t[j].style) {
      }
      RowPainted(s, t);
    }
  }

  lemma EditPainted(s: Screen, buf: string, b: char)
    requires ScreenOk(s) && C.Edit(s, buf, b).Some? && Painted(s)
    ensures Painted(C.Edit(s, buf, b).value)
  {
    hide Painted, ScreenOk, Scan, C.EraseDisplay, C.EraseLine, C.EraseChars, C.InsertLines, C.DeleteLines,
         C.ScrollUp, C.DeleteChars, C.InsertChars;
    EraseLinePainted(s, buf);
    CharsPainted(s, buf);
    if b == 'J' {
      EraseDisplayPainted(s, buf);
    } else if b == 'L' {
      InsertLinesPainted(s, C.Count(buf));
    } else if b == 'M' {
      DeleteLinesPainted(s, C.Count(buf));
    } else if b == 'S' {
      ScrollUpPainted(s, C.Count(buf));
    }
  }

  lemma SetPainted(s: Screen, part: string)
    requires ScreenOk(s) && Painted(s)
    ensures Painted(C.PrivateSet(s, part))
  {
    hide Resize, GridOk, Sound;
    ResizePainted(s, s.rows, 132);
  }

  lemma ResetPainted(s: Screen, part: string)
    requires ScreenOk(s) && Painted(s)
    ensures Painted(C.PrivateReset(s, part))
  {
    hide Resize, GridOk, Sound;
    ResizePainted(s, s.rows, 80);
  }

  lemma {:induction false} ModesPainted(s: Screen, parts: seq<string>, on: bool, isPrivate: bool)
    requires ScreenOk(s) && Painted(s)
    ensures Painted(C.Modes(s, parts, on, isPrivate))
    decreases |parts|
  {
    hide C.PrivateSet, C.PrivateReset, GridOk, Sound;
    if parts != [] {
      SetPainted(s, parts[0]);
      ResetPainted(s, parts[0]);
      var u := if !isPrivate then C.Mode(s, parts[0], on)
               else if on then C.PrivateSet(s, parts[0]) else C.PrivateReset(s, parts[0]);
      ModesPainted(u, parts[1..], on, isPrivate);
    }
  }

  lemma SettingPainted(s: Screen, buf: string, b: char)
    requires ScreenOk(s) && C.Setting(s, buf, b).Some? && Painted(s)
    ensures Painted(C.Setting(s, buf, b).value)
  {
    hide Split, Scan, Painted, C.Modes, ScreenOk, C.SettingSafe, C.ClearTabs, C.Rendition, C.DeviceStatus,
         C.DeviceAttributes, C.SetMargins;
    var t := C.Setting(s, buf, b).value;
    if b == 'h' || b == 'l' {
      if buf != "" && buf[0] != '?' {
        ModesPainted(s, C.Parts(buf), b == 'h', false);
      } else if buf != "" {
        ModesPainted(s, Split(buf[1..], ";"), b == 'h', true);
      }
    } else {
      SameCellsPainted(s, t);
    }
  }

  lemma FinalPainted(s: Screen, buf: string, b: char)
    requires ScreenOk(s) && C.Final(s, buf, b).Some? && Painted(s)
    ensures Painted(C.Final(s, buf, b).value)
  {
    hide Painted, ScreenOk, C.IntsFit, C.EditSafe, C.SettingSafe, C.Motion, C.Edit, C.Setting;
    if C.IsMotion(b) {
      SameCellsPainted(s, C.Motion(s, buf, b));
    } else if C.IsEdit(b) {
      EditPainted(s, buf, b);
    } else {
      SettingPainted(s, buf, b);
    }
  }

  // ------------------------------------------------------------------------- all bytes

  lemma EscPainted(s: Screen, buf: string, b: char)
    requires ScreenOk(s) && Painted(s)
    ensures Painted(EscEnd(s, buf, b))
  {
    hide Painted, LineFeed, ReverseIndex, ScreenOk, EscCursor, AlignmentPattern;
    if buf == "#" && b == '8' {
      PatternPainted(s);
    } else if buf == "" && b == 'D' {
      LineFeedPainted(s);
    } else if buf == "" && b == 'M' {
      ReverseIndexPainted(s);
    } else {
      SameCellsPainted(s, EscEnd(s, buf, b));
    }
  }

  lemma PatternPainted(s: Screen)
    requires ScreenOk(s) && Painted(s)
    ensures Painted(AlignmentPattern(s))
  {
    BlankSound(s.cols);
    hide Sound;
  }

  lemma MultiPainted(w: Width, s: Term, b: char)
    requires Inv(s) && s.esc == Idle && Painted(s.scr)
    ensures Painted(Multi(w, s, b).scr)
  {
    hide Painted, InsertPoint, Utf8.Feed;
    Utf8.FeedInRange(s.utf8, b as nat);
    var o := Utf8.Feed(s.utf8, b as nat);
    if o.point.Some? {
      InsertPainted(w, s.scr, o.point.value);
    }
  }

  lemma PrintPainted(w: Width, s: Screen, b: char)
    requires ScreenOk(s) && IsPrintable(b) && Painted(s)
    ensures Painted(Print(w, s, b))
  {
    hide Painted, InsertPoint, OpenGap;
    GapPainted(s);
    InsertPainted(w, if s.insert then OpenGap(s) else s, b as nat);
  }

  lemma LineFeedPainted(s: Screen)
    requires ScreenOk(s) && Painted(s)
    ensures Painted(LineFeed(s))
  {
    hide Painted, Drop, GridOk;
    SameCellsPainted(s, s.(row := s.row + 1));
    DropPainted(s.(row := s.row + 1));
  }

  lemma IdlePainted(w: Width, s: Term, b: char)
    requires Inv(s) && s.esc == Idle && Painted(s.scr)
    ensures Painted(IdleByte(w, s, b).scr)
  {
    hide Painted, Multi, Print, LineFeed, ScreenOk, Utf8.InRange;
    if s.utf8.state != Utf8.Initial || b > '\U{007F}' {
      MultiPainted(w, s, b);
    } else if IsPrintable(b) {
      PrintPainted(w, s.scr, b);
    } else if b == '\n' {
      LineFeedPainted(s.scr);
    } else {
      SameCellsPainted(s.scr, IdleByte(w, s, b).scr);
    }
  }

  lemma StepPainted(w: Width, s: Term, b: char)
    requires Inv(s) && Painted(s.scr) && Step(w, s, b).Some?
    ensures Painted(Step(w, s, b).value.scr)
  {
    hide Painted, IdleByte, EscEnd, C.Final, ScreenOk, Utf8.InRange, OscBell, OscTerminated;
    var t := Step(w, s, b).value.scr;
    if s.esc == Idle {
      IdlePainted(w, s, b);
    } else if s.esc == Csi && C.IsFinal(b) {
      FinalPainted(s.scr, s.buf, b);
    } else if t.grid == s.scr.grid && t.scrolled == s.scr.scrolled {
      SameCellsPainted(s.scr, t);
    } else {
      EscPainted(s.scr, s.buf, b);
    }
  }

  lemma {:induction false} SessionPainted(w: Width, s: Term, es: seq<S.Input>)
    requires Inv(s) && Painted(s.scr) && S.After(w, s, es).Some?
    ensures Painted(S.After(w, s, es).value.scr)
    decreases |es|
  {
    hide Step, Inv, Painted, Resize;
    if es != [] {
      var n := |es| - 1;
      SessionPainted(w, s, es[..n]);
      var t := S.After(w, s, es[..n]).value;
      match es[n]
      case Byte(b) => StepPainted(w, t, b);
      case Window(rows, cols) => ResizePainted(t.scr, rows, cols);
    }
  }

  /**
   * Whatever bytes and window sizes a new terminal has received, every cell of the screen and of
   * the scrollback has the regular or the bold font class: `Draw` asks for no other.
   */
  lemma OnlyRegularAndBold(w: Width, online: bool, rows: nat, cols: nat, es: seq<S.Input>)
    requires Side(rows) && Side(cols) && S.After(w, Fresh(online, rows, cols), es).Some?
    ensures var t := S.After(w, Fresh(online, rows, cols), es).value.scr;
            AllSound(t.history + t.grid)
  {
    hide S.After, Sound;
    var s := Fresh(online, rows, cols);
    assert Painted(NewScreen(online));
    ResizePainted(NewScreen(online), rows, cols);
    SessionPainted(w, s, es);
    var t := S.After(w, s, es).value.scr;
    forall i | 0 <= i < |t.history + t.grid| ensures Sound((t.history + t.grid)[i]) {
      if i < |t.history| {
        assert t.history[i] == t.scrolled[|t.scrolled| - |t.history| + i];
      }
    }
  }
}
