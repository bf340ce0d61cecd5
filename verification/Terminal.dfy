/** The mutable `terminal_context`, method by method, against the functions of its snapshots. */
module Terminal {
  import opened Sequences
  import opened Text
  import opened Cells
  import opened Display
  import P = Parser
  import C = Csi
  import Utf8
  import Sgr
  import Pasteboard

  type Byte = c: char | c < '\U{0100}'

  class TerminalContext {
    const board: Pasteboard.SharedPasteboard
    const charWidth: Width

    var fd: int
    var escapeState: P.EscapeState
    var escapeBuffer: string
    var utf8State: Utf8.State
    var currentUtf8: nat
    var showCursor: bool
    var enableWrap: bool
    var reverseVideo: bool
    var originMode: bool
    var insertMode: bool
    var tabStops: seq<bool>
    var saveRow: int
    var saveCol: int
    var saveStyle: Style
    var currentStyle: Style
    var history: seq<Row>
    var buffer: Grid
    var numCols: nat
    var numRows: nat
    var row: int
    var col: int
    var scrollTop: int
    var scrollBottom: int

    ghost var scrolled: seq<Row>
    ghost var sent: string
    ghost var copies: seq<string>
    ghost var requests: nat

    ghost function Scr(): Screen
      reads this
    {
      Screen(showCursor, enableWrap, reverseVideo, originMode, insertMode, tabStops, saveRow, saveCol,
             saveStyle, currentStyle, history, buffer, numCols, numRows, row, col, scrollTop, scrollBottom,
             fd != -1, scrolled, sent, copies, requests)
    }

    ghost function View(): P.Term
      reads this
    {
      P.Term(escapeState, escapeBuffer, Utf8.Decoder(utf8State, currentUtf8), Scr())
    }

    ghost predicate Valid()
      reads this
    {
      P.Inv(View())
    }

    /** The default member initialisers, then the size the caller asks for. */
    constructor (board: Pasteboard.SharedPasteboard, charWidth: Width, fd: int, rows: nat, cols: nat)
      requires Side(rows) && Side(cols)
      ensures Valid() && View() == P.Fresh(fd != -1, rows, cols)
      ensures this.board == board && this.charWidth == charWidth
    {
      this.board, this.charWidth, this.fd := board, charWidth, fd;
      escapeState, escapeBuffer := P.Idle, "";
      utf8State, currentUtf8 := Utf8.Initial, 0;
      showCursor, enableWrap, reverseVideo, originMode, insertMode := true, true, false, false, false;
      tabStops, saveRow, saveCol := [], 0, 0;
      saveStyle, currentStyle := DEFAULT_STYLE, DEFAULT_STYLE;
      history, buffer, numCols, numRows, row, col := [], [], 0, 0, 0, 0;
      scrollTop, scrollBottom := 0, -1;
      scrolled, sent, copies, requests := [], "", [], 0;
      new;
      hide Resize;
      assert Scr() == NewScreen(fd != -1);
      ResizeTo(rows, cols);
    }

    // ------------------------------------------------------------------ size, scrolling

    /** The loop that brings every row to the new width. */
    method ResizeRows()
      modifies `buffer
      ensures buffer == ResizeGrid(old(buffer), numRows, numCols)
    {
      ghost var t := ResizeGrid(buffer, numRows, numCols);
      buffer := Resized(buffer, numRows, []);
      ghost var g := buffer;
      var i := 0;
      while i < numRows
        invariant 0 <= i <= numRows && |buffer| == numRows
        invariant forall k :: 0 <= k < numRows ==> buffer[k] == if k < i then t[k] else g[k]
      {
        buffer := buffer[i := Resized(buffer[i], numCols, BLANK)];
        i := i + 1;
      }
    }

    /** The loop that sets the tab stops of new columns. */
    method ExtendTabs(oldCols: nat)
      requires IsInt(numCols + TAB_SIZE)
      modifies `tabStops
      ensures tabStops == ResizeTabs(old(tabStops), oldCols, numCols)
    {
      ghost var tabs := tabStops;
      tabStops := Resized(tabStops, numCols, false);
      var i := oldCols;
      while i < numCols
        invariant i >= oldCols && (i - oldCols) % TAB_SIZE == 0 && |tabStops| == numCols
        invariant forall j :: 0 <= j < numCols ==>
                    tabStops[j] == ((j < |tabs| && tabs[j]) || (oldCols <= j < i && (j - oldCols) % TAB_SIZE == 0))
      {
        tabStops := tabStops[i := true];
        i := Plus(i, TAB_SIZE);
      }
    }

    /** Brings the cursor back onto a smaller screen. */
    method ClipCursor()
      modifies `row, `col
      ensures row == Min(old(row), numRows - 1) && col == Min(old(col), numCols - 1)
    {
      if row > numRows - 1 {
        row := numRows - 1;
      }
      if col > numCols - 1 {
        col := numCols - 1;
      }
    }

    /** The new size, with margins at its edges. */
    method SetSize(newRows: nat, newCols: nat)
      modifies `numRows, `numCols, `scrollTop, `scrollBottom
      ensures numRows == newRows && numCols == newCols && scrollTop == 0 && scrollBottom == newRows - 1
    {
      numRows := newRows;
      numCols := newCols;
      scrollTop := 0;
      scrollBottom := numRows - 1;
    }

    method ResizeTo(newRows: nat, newCols: nat)
      requires Side(newRows) && Side(newCols)
      modifies `numRows, `numCols, `scrollTop, `scrollBottom, `buffer, `row, `col, `tabStops
      ensures Scr() == Resize(old(Scr()), newRows, newCols)
    {
      hide Resized, ResizeGrid, ResizeTabs, Min;
      var oldCols := numCols;
      SetSize(newRows, newCols);
      ResizeRows();
      ClipCursor();
      ExtendTabs(oldCols);
    }

    /** `vector::erase` at the top margin, `vector::insert` and `resize` at the bottom one. */
    method CycleRegion()
      requires 0 <= scrollTop < scrollBottom < |buffer|
      modifies `buffer
      ensures buffer == EraseInsert(old(buffer), scrollTop, scrollBottom, numCols)
    {
      buffer := buffer[..scrollTop] + buffer[scrollTop + 1..];
      ghost var h := buffer;
      buffer := buffer[..scrollBottom] + [[]] + buffer[scrollBottom..];
      buffer := buffer[scrollBottom := Resized(buffer[scrollBottom], numCols, BLANK)];
      assert buffer[scrollBottom] == BlankRow(numCols);
      assert buffer == h[..scrollBottom] + [BlankRow(numCols)] + h[scrollBottom..];
    }

    /** Pushes a row onto the scrollback and pops the oldest rows beyond the limit. */
    method Remember(r: Row)
      modifies `history, `scrolled
      ensures history == Last(old(history) + [r], MAX_HISTORY_LINES)
      ensures scrolled == old(scrolled) + [r]
    {
      scrolled := scrolled + [r];
      history := history + [r];
      ghost var log := history;
      while |history| > MAX_HISTORY_LINES
        modifies `history
        invariant history == Last(log, |history|) && |history| >= Min(|log|, MAX_HISTORY_LINES)
      {
        history := history[1..];
      }
    }

    /** Drops the first row of the region. */
    method ScrollRegion()
      requires 0 <= scrollTop < scrollBottom < |buffer|
      modifies `history, `buffer, `row, `scrolled
      ensures history == Last(old(history) + [old(buffer)[scrollTop]], MAX_HISTORY_LINES)
      ensures scrolled == old(scrolled) + [old(buffer)[scrollTop]]
      ensures buffer == EraseInsert(old(buffer), scrollTop, scrollBottom, numCols)
      ensures row == old(row) - 1
    {
      hide EraseInsert, Last;
      Remember(buffer[scrollTop]);
      CycleRegion();
      row := row - 1;
    }

    method DropFirstRowIfOverflow()
      requires Shape(Scr()) && 0 <= row <= numRows && 0 <= col <= numCols
      modifies `history, `buffer, `row, `scrolled
      ensures Scr() == Drop(old(Scr()))
    {
      hide EraseInsert, Last, GridOk;
      RowLengths(buffer, numRows, numCols);
      if row == scrollBottom + 1 {
        ScrollRegion();
      } else if row >= numRows {
        row := numRows - 1;
      }
    }

    // ---------------------------------------------------------------------- printing

    /** Writes the cell under the cursor and advances. */
    method PlaceCell(code: nat)
      requires ScreenOk(Scr()) && col < numCols && (code == WIDE_TAIL ==> col > 0)
      modifies `buffer, `col
      ensures Scr() == PutCell(old(Scr()), code)
    {
      assert RowOk(buffer[row], numCols);
      buffer := buffer[row := buffer[row][col := buffer[row][col].(code := code)]];
      buffer := buffer[row := buffer[row][col := buffer[row][col].(style := currentStyle)]];
      assert buffer[row] == old(buffer)[row][col := Cell(code, currentStyle)];
      assert buffer == old(buffer)[row := old(buffer)[row][col := Cell(code, currentStyle)]];
      col := Plus(col, 1);
    }

    /** Steps left over the right halves of wide characters; column 0 never holds one. */
    method RemoveBrokenWideChar()
      requires 0 <= row < |buffer| && 0 <= col < |buffer[row]| && !IsTail(buffer[row][0])
      modifies `col
      ensures col == BackOff(buffer[row], old(col)) && 0 <= col <= old(col)
    {
      while buffer[row][col].code == WIDE_TAIL
        invariant 0 <= col <= old(col)
        invariant BackOff(buffer[row], col) == BackOff(buffer[row], old(col))
        decreases col
      {
        col := col - 1;
      }
    }

    /** Wraps or backs off until a character of width `cw` fits. */
    method FitCursor(cw: nat)
      requires ScreenOk(Scr()) && 1 <= cw <= 2
      modifies `history, `buffer, `row, `col, `scrolled
      ensures Scr() == MakeRoom(old(Scr()), cw)
    {
      hide Drop, BackOff;
      if Plus(col, cw) > numCols {
        if enableWrap {
          row := Plus(row, 1);
          col := 0;
          DropFirstRowIfOverflow();
        } else {
          col := numCols - cw;
          assert RowOk(buffer[row], numCols);
          RemoveBrokenWideChar();
        }
      }
    }

    method InsertUtf8(codepoint: nat)
      requires ScreenOk(Scr()) && codepoint <= Utf8.MAX_POINT
      modifies `history, `buffer, `row, `col, `scrolled
      ensures Scr() == InsertPoint(charWidth, old(Scr()), codepoint)
    {
      var code := codepoint;
      var cw := charWidth(code);
      if cw <= 0 {
        return;
      }
      if cw > 2 {
        cw := 2;
      }
      FitCursor(cw);
      if cw > 1 {
        PlaceCell(code);
        if col == numCols {
          return;
        }
        code := WIDE_TAIL;
      }
      PlaceCell(code);
    }

    // ------------------------------------------------------------------------ cursor

    method ClampCursor()
      requires Shape(Scr())
      modifies `row, `col
      ensures Scr() == Clamp(old(Scr()))
    {
      if col < 0 {
        col := 0;
      } else if col > numCols - 1 {
        col := numCols - 1;
      }
      if originMode {
        if row < scrollTop {
          row := scrollTop;
        } else if row > scrollBottom {
          row := scrollBottom;
        }
      } else {
        if row < 0 {
          row := 0;
        } else if row > numRows - 1 {
          row := numRows - 1;
        }
      }
    }

    method SetCursor(newRow: int, newCol: int)
      requires Shape(Scr()) && (originMode ==> IsInt(newRow + scrollTop))
      modifies `row, `col
      ensures Scr() == Display.SetCursor(old(Scr()), newRow, newCol)
    {
      if originMode {
        row := Plus(newRow, scrollTop);
        col := newCol;
      } else {
        row := newRow;
        col := newCol;
      }
      ClampCursor();
    }

    method MoveCursor(rowDiff: int, colDiff: int)
      requires Shape(Scr()) && C.MoveFits(Scr(), rowDiff) && IsInt(Clamp(Scr()).col + colDiff)
      modifies `row, `col
      ensures Scr() == Display.MoveCursor(old(Scr()), rowDiff, colDiff)
    {
      ClampCursor();
      SetCursor(Plus(row, rowDiff), Plus(col, colDiff));
    }

    method CursorUp()
      requires ScreenOk(Scr()) && C.MotionFits(Scr(), escapeBuffer, 'A')
      modifies `row, `col
      ensures Scr() == C.CursorUp(old(Scr()), escapeBuffer)
    {
      hide Scan, GridOk, Display.MoveCursor;
      var line := ReadDefined(escapeBuffer, 1);
      if row >= scrollTop {
        MoveCursor(Minus(0, Min(line, Minus(row, scrollTop))), 0);
      } else {
        MoveCursor(Minus(0, line), 0);
      }
    }

    method CursorDown()
      requires ScreenOk(Scr()) && C.MotionFits(Scr(), escapeBuffer, 'B')
      modifies `row, `col
      ensures Scr() == C.CursorDown(old(Scr()), escapeBuffer)
    {
      hide Scan, GridOk, Display.MoveCursor;
      var line := ReadDefined(escapeBuffer, 1);
      if row <= scrollBottom {
        MoveCursor(Min(line, Minus(scrollBottom, row)), 0);
      } else {
        MoveCursor(line, 0);
      }
    }

    method CursorForward()
      requires ScreenOk(Scr()) && C.MotionFits(Scr(), escapeBuffer, 'C')
      modifies `row, `col
      ensures Scr() == C.CursorAcross(old(Scr()), escapeBuffer, 1)
    {
      col := Plus(col, Max(ReadDefined(escapeBuffer, 1), 1));
      ClampCursor();
    }

    method CursorBackward()
      requires ScreenOk(Scr()) && C.MotionFits(Scr(), escapeBuffer, 'D')
      modifies `row, `col
      ensures Scr() == C.CursorAcross(old(Scr()), escapeBuffer, -1)
    {
      col := Minus(col, Max(ReadDefined(escapeBuffer, 1), 1));
      ClampCursor();
    }

    method CursorNextLine()
      requires ScreenOk(Scr()) && C.MotionFits(Scr(), escapeBuffer, 'E')
      modifies `row, `col
      ensures Scr() == C.CursorLine(old(Scr()), escapeBuffer, 1)
    {
      row := Plus(row, ReadDefined(escapeBuffer, 1));
      col := 0;
      ClampCursor();
    }

    method CursorPreviousLine()
      requires ScreenOk(Scr()) && C.MotionFits(Scr(), escapeBuffer, 'F')
      modifies `row, `col
      ensures Scr() == C.CursorLine(old(Scr()), escapeBuffer, -1)
    {
      row := Minus(row, ReadDefined(escapeBuffer, 1));
      col := 0;
      ClampCursor();
    }

    method CursorColumn()
      requires ScreenOk(Scr()) && C.MotionFits(Scr(), escapeBuffer, 'G')
      modifies `row, `col
      ensures Scr() == C.CursorColumn(old(Scr()), escapeBuffer)
    {
      col := ReadDefined(escapeBuffer, 1);
      col := Minus(col, 1);
      ClampCursor();
    }

    method CursorRow()
      requires ScreenOk(Scr()) && C.CoordinateFits(escapeBuffer)
      modifies `row, `col
      ensures Scr() == C.CursorRow(old(Scr()), escapeBuffer)
    {
      hide Scan;
      if escapeBuffer != "" {
        row := C.ScanDefined(escapeBuffer, row);
        row := Minus(row, 1);
        ClampCursor();
      }
    }

    method FormatPosition()
      requires ScreenOk(Scr()) && C.MotionFits(Scr(), escapeBuffer, 'f')
      modifies `row, `col
      ensures Scr() == C.FormatPosition(old(Scr()), escapeBuffer)
    {
      hide Split, Scan, C.CoordinateFits;
      var parts := SplitString(escapeBuffer, ";");
      if |parts| == 2 {
        PositionPair(parts);
      }
    }

    /** CUP and HVP with both coordinates. */
    method PositionPair(parts: seq<string>)
      requires ScreenOk(Scr()) && parts == C.Parts(escapeBuffer) && |parts| == 2
      requires C.CoordinateFits(parts[0]) && C.CoordinateFits(parts[1])
      modifies `row, `col
      ensures Scr() == C.PositionPair(old(Scr()), escapeBuffer)
    {
      hide Split, Scan;
      row := C.ScanDefined(parts[0], row);
      col := C.ScanDefined(parts[1], col);
      row := Minus(row, 1);
      col := Minus(col, 1);
      ClampCursor();
    }

    method CursorPosition()
      requires ScreenOk(Scr()) && C.MotionFits(Scr(), escapeBuffer, 'H')
      modifies `row, `col
      ensures Scr() == C.CursorPosition(old(Scr()), escapeBuffer)
    {
      hide Split, Scan;
      var parts := SplitString(escapeBuffer, ";");
      if |parts| == 2 {
        PositionPair(parts);
      } else if |parts| == 1 && escapeBuffer != "" {
        row := C.ScanDefined(parts[0], row);
        col := 0;
        row := Minus(row, 1);
        ClampCursor();
      } else if escapeBuffer == "" {
        row := 0;
        col := 0;
      }
    }

    /** The final bytes that only move the cursor. */
    method HandleMotion(current: Byte)
      requires ScreenOk(Scr()) && C.MotionFits(Scr(), escapeBuffer, current)
      modifies `row, `col
      ensures Scr() == C.Motion(old(Scr()), escapeBuffer, current)
    {
      if current == 'A' {
        CursorUp();
      } else if current == 'B' {
        CursorDown();
      } else if current == 'C' {
        CursorForward();
      } else if current == 'D' {
        CursorBackward();
      } else if current == 'E' {
        CursorNextLine();
      } else if current == 'F' {
        CursorPreviousLine();
      } else if current == 'G' {
        CursorColumn();
      } else if current == 'H' {
        CursorPosition();
      } else if current == 'd' {
        CursorRow();
      } else if current == 'f' {
        FormatPosition();
      }
    }

    // ----------------------------------------------------------- erasing and shifting

    /** The loop that resets cells [lo, hi) of the cursor row. */
    method EraseInRow(lo: int, hi: int)
      requires ScreenOk(Scr()) && 0 <= lo <= hi <= numCols
      modifies `buffer
      ensures Scr() == EraseCells(old(Scr()), lo, hi)
    {
      ghost var g := buffer;
      assert RowOk(g[row], numCols);
      var i := lo;
      while i < hi
        modifies `buffer
        invariant lo <= i <= hi && |buffer| == |g| && |buffer[row]| == numCols
        invariant buffer == g[row := buffer[row]]
        invariant forall j :: 0 <= j < numCols ==> buffer[row][j] == if lo <= j < i then BLANK else g[row][j]
      {
        buffer := buffer[row := buffer[row][i := BLANK]];
        i := i + 1;
      }
      assert buffer[row] == Fill(g[row], lo, hi, BLANK);
    }

    /** The loop that fills rows [lo, hi) with blank cells. */
    method FillRows(lo: int, hi: int)
      requires ScreenOk(Scr()) && 0 <= lo <= hi <= numRows
      modifies `buffer
      ensures Scr() == EraseRows(old(Scr()), lo, hi)
    {
      ghost var g := buffer;
      var i := lo;
      while i < hi
        modifies `buffer
        invariant lo <= i <= hi && |buffer| == |g|
        invariant forall k :: 0 <= k < |g| ==> buffer[k] == if lo <= k < i then BlankRow(numCols) else g[k]
      {
        assert RowOk(g[i], numCols);
        buffer := buffer[i := Rep(BLANK, |buffer[i]|)];
        i := i + 1;
      }
      assert buffer == Fill(g, lo, hi, BlankRow(numCols));
    }

    method EraseDisplay()
      requires ScreenOk(Scr()) && (escapeBuffer == "1" ==> col < numCols)
      modifies `buffer
      ensures C.EraseDisplay(old(Scr()), escapeBuffer) == Some(Scr())
    {
      if escapeBuffer == "" || escapeBuffer == "0" {
        EraseInRow(col, numCols);
        FillRows(row + 1, numRows);
      } else if escapeBuffer == "1" {
        FillRows(0, row);
        EraseInRow(0, col + 1);
      } else if escapeBuffer == "2" {
        FillRows(0, numRows);
      }
    }

    method EraseLine()
      requires ScreenOk(Scr())
      modifies `buffer
      ensures Scr() == C.EraseLine(old(Scr()), escapeBuffer)
    {
      if escapeBuffer == "" || escapeBuffer == "0" {
        EraseInRow(col, numCols);
      } else if escapeBuffer == "1" {
        EraseInRow(0, Min(col + 1, numCols));
      } else if escapeBuffer == "2" {
        EraseInRow(0, numCols);
      }
    }

    predicate Rectangular()
      reads `buffer, `numCols
    {
      forall k :: 0 <= k < |buffer| ==> |buffer[k]| == numCols
    }

    /**
     * The loop of IL: rows [from, scrollBottom] are written from the bottom upwards, so a positive
     * count overwrites no source row early. A negative count reads rows below the region, and rows
     * already written.
     */
    method PushRowsDown(from: int, line: int)
      requires 0 <= from <= scrollBottom < |buffer| && Rectangular()
      requires IsInt(|buffer|) && IsInt(line) && (line < 0 ==> scrollBottom - line < |buffer|)
      modifies `buffer
      ensures buffer == CopyDown(old(buffer), from, scrollBottom + 1, line, BlankRow(numCols))
    {
      hide CopyDown, PlaceDown;
      ghost var g := buffer;
      var i := scrollBottom;
      while i >= from
        invariant from - 1 <= i <= scrollBottom && |buffer| == |g|
        invariant forall k {:trigger buffer[k]} :: 0 <= k < |g| ==>
                    buffer[k] == if i < k <= scrollBottom
                                 then PlaceDown(g, from, scrollBottom + 1, line, BlankRow(numCols), k) else g[k]
      {
        assert buffer[i] == g[i] && |g[i]| == numCols;
        PlaceDownStep(g, from, scrollBottom + 1, line, BlankRow(numCols), i);
        if Minus(i, line) >= from {
          buffer := buffer[i := buffer[Minus(i, line)]];
        } else {
          buffer := buffer[i := Rep(BLANK, |buffer[i]|)];
        }
        i := i - 1;
      }
      CopyDownUnique(g, from, scrollBottom + 1, line, BlankRow(numCols), buffer);
    }

    method InsertLines()
      requires ScreenOk(Scr()) && C.EditFits(Scr(), escapeBuffer, 'L') && C.EditReads(Scr(), escapeBuffer, 'L')
      modifies `buffer, `col
      ensures Scr() == C.InsertLines(old(Scr()), C.Count(escapeBuffer))
    {
      hide CopyDown, GridOk, Scan;
      var line := ReadDefined(escapeBuffer, 1);
      if row < scrollTop || row > scrollBottom {
        return;
      }
      RowLengths(buffer, numRows, numCols);
      PushRowsDown(row, line);
      col := 0;
    }

    /**
     * The loop of DL and SU: rows [from, scrollBottom] are written from the top downwards. A negative
     * count reads rows above `from`, and rows already written.
     */
    method PullRowsUp(from: int, line: int)
      requires 0 <= from <= scrollBottom < |buffer| && Rectangular()
      requires IsInt(line) && IsInt(scrollBottom + line) && from + line >= 0
      modifies `buffer
      ensures buffer == CopyUp(old(buffer), from, scrollBottom + 1, line, BlankRow(numCols))
    {
      hide CopyUp, PlaceUp;
      ghost var g := buffer;
      var i := from;
      while i <= scrollBottom
        invariant from <= i <= scrollBottom + 1 && |buffer| == |g|
        invariant forall k {:trigger buffer[k]} :: 0 <= k < |g| ==>
                    buffer[k] == if from <= k < i
                                 then PlaceUp(g, from, scrollBottom + 1, line, BlankRow(numCols), k) else g[k]
      {
        assert buffer[i] == g[i] && |g[i]| == numCols;
        PlaceUpStep(g, from, scrollBottom + 1, line, BlankRow(numCols), i);
        if Plus(i, line) <= scrollBottom {
          buffer := buffer[i := buffer[Plus(i, line)]];
        } else {
          buffer := buffer[i := Rep(BLANK, |buffer[i]|)];
        }
        i := i + 1;
      }
      CopyUpUnique(g, from, scrollBottom + 1, line, BlankRow(numCols), buffer);
    }

    method DeleteLines()
      requires ScreenOk(Scr()) && C.EditFits(Scr(), escapeBuffer, 'M') && C.EditReads(Scr(), escapeBuffer, 'M')
      modifies `buffer, `col
      ensures Scr() == C.DeleteLines(old(Scr()), C.Count(escapeBuffer))
    {
      hide CopyUp, GridOk, Scan;
      var line := ReadDefined(escapeBuffer, 1);
      if row < scrollTop || row > scrollBottom {
        return;
      }
      RowLengths(buffer, numRows, numCols);
      PullRowsUp(row, line);
      col := 0;
    }

    method ScrollUp()
      requires ScreenOk(Scr()) && C.EditFits(Scr(), escapeBuffer, 'S') && C.EditReads(Scr(), escapeBuffer, 'S')
      modifies `buffer
      ensures Scr() == C.ScrollUp(old(Scr()), C.Count(escapeBuffer))
    {
      hide CopyUp, GridOk, Scan;
      var line := ReadDefined(escapeBuffer, 1);
      RowLengths(buffer, numRows, numCols);
      PullRowsUp(scrollTop, line);
    }

    /**
     * The loop of DCH: cells of the cursor row are written from left to right. A negative count reads
     * cells left of the cursor, and cells already written.
     */
    method PullCellsLeft(del: int)
      requires 0 <= row < |buffer| && 0 <= col <= |buffer[row]| == numCols
      requires IsInt(del) && (col < numCols ==> IsInt(numCols - 1 + del) && col + del >= 0)
      modifies `buffer
      ensures |buffer| == |old(buffer)| && buffer == old(buffer)[row := buffer[row]]
      ensures buffer[row] == CopyUp(old(buffer)[row], col, numCols, del, BLANK)
    {
      hide CopyUp, PlaceUp;
      ghost var g := buffer;
      var i := col;
      while i < numCols
        invariant col <= i <= numCols && |buffer| == |g| && |buffer[row]| == numCols
        invariant buffer == g[row := buffer[row]]
        invariant forall j {:trigger buffer[row][j]} :: 0 <= j < numCols ==>
                    buffer[row][j] == if col <= j < i then PlaceUp(g[row], col, numCols, del, BLANK, j) else g[row][j]
      {
        PlaceUpStep(g[row], col, numCols, del, BLANK, i);
        if Plus(i, del) < numCols {
          buffer := buffer[row := buffer[row][i := buffer[row][Plus(i, del)]]];
        } else {
          buffer := buffer[row := buffer[row][i := BLANK]];
        }
        i := i + 1;
      }
      CopyUpUnique(g[row], col, numCols, del, BLANK, buffer[row]);
    }

    method DeleteChars()
      requires ScreenOk(Scr()) && C.EditFits(Scr(), escapeBuffer, 'P') && C.EditReads(Scr(), escapeBuffer, 'P')
      modifies `buffer
      ensures Scr() == C.DeleteChars(old(Scr()), C.Count(escapeBuffer))
    {
      hide CopyUp, Scan;
      var del := ReadDefined(escapeBuffer, 1);
      assert RowOk(buffer[row], numCols);
      PullCellsLeft(del);
    }

    method EraseChars()
      requires ScreenOk(Scr()) && C.EditFits(Scr(), escapeBuffer, 'X')
      modifies `buffer
      ensures Scr() == C.EraseChars(old(Scr()), escapeBuffer)
    {
      var del := ReadDefined(escapeBuffer, 1);
      EraseInRow(col, Max(col, Min(Plus(col, del), numCols)));
    }

    /** The loop of ICH: cells of the cursor row are copied from right to left. */
    method PushCellsRight(count: int)
      requires 0 <= row < |buffer| && 0 <= col <= |buffer[row]| == numCols
      requires col < numCols ==> count >= 0
      requires IsInt(numCols)
      modifies `buffer
      ensures |buffer| == |old(buffer)|
      ensures buffer == old(buffer)[row := C.InsertBlanks(old(buffer)[row], col, count)]
    {
      ghost var g := buffer;
      ghost var t := C.InsertBlanks(g[row], col, count);
      var i := numCols - 1;
      while i >= col
        invariant col - 1 <= i <= numCols - 1 && |buffer| == |g| && |buffer[row]| == numCols
        invariant buffer == g[row := buffer[row]]
        invariant forall j {:trigger buffer[row][j]} :: 0 <= j < numCols ==>
                    buffer[row][j] == if j <= i then g[row][j] else t[j]
      {
        assert t[i] == if i - col < count then g[row][i].(code := 0x20) else g[row][i - count];
        if Minus(i, col) < count {
          buffer := buffer[row := buffer[row][i := buffer[row][i].(code := 0x20)]];
        } else {
          buffer := buffer[row := buffer[row][i := buffer[row][Minus(i, count)]]];
        }
        i := i - 1;
      }
      assert buffer[row] == t;
    }

    method InsertChars()
      requires ScreenOk(Scr()) && C.EditFits(Scr(), escapeBuffer, '@') && C.EditReads(Scr(), escapeBuffer, '@')
      modifies `buffer
      ensures Scr() == C.InsertChars(old(Scr()), escapeBuffer)
    {
      hide C.InsertBlanks, Scan;
      if !C.EndsInDigit(escapeBuffer) {
        return;
      }
      var count := ReadDefined(escapeBuffer, 1);
      assert RowOk(buffer[row], numCols);
      PushCellsRight(count);
    }

    /** The final bytes that change cells. */
    method HandleEdit(current: Byte)
      requires ScreenOk(Scr())
      requires C.EditFits(Scr(), escapeBuffer, current) && C.EditReads(Scr(), escapeBuffer, current)
      modifies `buffer, `col
      ensures C.Edit(old(Scr()), escapeBuffer, current) == Some(Scr())
    {
      hide Scan, Split, GridOk;
      if current == 'J' {
        EraseDisplay();
      } else if current == 'K' {
        EraseLine();
      } else if current == 'L' {
        InsertLines();
      } else if current == 'M' {
        DeleteLines();
      } else if current == 'P' {
        DeleteChars();
      } else if current == 'S' {
        ScrollUp();
      } else if current == 'X' {
        EraseChars();
      } else if current == '@' {
        InsertChars();
      }
    }

    // -------------------------------------------------------------- modes and reports

    method WriteFull(data: string)
      modifies `sent
      ensures Scr() == Write(old(Scr()), data)
    {
      if fd == -1 {
        return;
      }
      sent := sent + data;
    }

    method ClearTabs()
      requires ScreenOk(Scr()) && C.CountReadable(escapeBuffer)
      requires ReadInt(escapeBuffer, 0) == 0 ==> col < numCols
      modifies `tabStops
      ensures C.ClearTabs(old(Scr()), escapeBuffer) == Some(Scr())
    {
      hide Scan;
      var mode := ReadDefined(escapeBuffer, 0);
      if mode == 0 {
        tabStops := tabStops[col := false];
      } else if mode == 3 {
        tabStops := Rep(false, |tabStops|);
      }
    }

    /** One parameter of DECSET. */
    method PrivateSet(part: string)
      requires ScreenOk(Scr())
      modifies `numRows, `numCols, `scrollTop, `scrollBottom, `buffer, `row, `col, `tabStops,
               `reverseVideo, `originMode, `enableWrap, `showCursor
      ensures Scr() == C.PrivateSet(old(Scr()), part)
    {
      if part == "3" {
        ResizeTo(numRows, 132);
      } else if part == "5" {
        reverseVideo := true;
      } else if part == "6" {
        originMode := true;
      } else if part == "7" {
        enableWrap := true;
      } else if part == "25" {
        showCursor := true;
      }
    }

    /** One parameter of DECRST. */
    method PrivateReset(part: string)
      requires ScreenOk(Scr())
      modifies `numRows, `numCols, `scrollTop, `scrollBottom, `buffer, `row, `col, `tabStops,
               `reverseVideo, `originMode, `enableWrap, `showCursor
      ensures Scr() == C.PrivateReset(old(Scr()), part)
    {
      if part == "3" {
        ResizeTo(numRows, 80);
      } else if part == "5" {
        reverseVideo := false;
      } else if part == "6" {
        originMode := false;
      } else if part == "7" {
        enableWrap := false;
      } else if part == "25" {
        showCursor := true;
      }
    }

    /** One parameter of SM or RM. */
    method SwitchMode(part: string, on: bool)
      modifies `insertMode
      ensures Scr() == C.Mode(old(Scr()), part, on)
    {
      if part == "4" {
        insertMode := on;
      }
    }

    /** The parameter loop of SM and RM. */
    method SwitchAnsiModes(parts: seq<string>, on: bool)
      requires ScreenOk(Scr())
      modifies `insertMode
      ensures Scr() == C.Modes(old(Scr()), parts, on, false)
    {
      hide C.Mode;
      ghost var s := Scr();
      assert parts[0..] == parts;
      var i := 0;
      while i < |parts|
        modifies `insertMode
        invariant 0 <= i <= |parts| && ScreenOk(Scr())
        invariant C.Modes(Scr(), parts[i..], on, false) == C.Modes(s, parts, on, false)
      {
        assert parts[i..][0] == parts[i] && parts[i..][1..] == parts[i + 1..];
        SwitchMode(parts[i], on);
        i := i + 1;
      }
    }

    /** The parameter loop of DECSET and DECRST. */
    method SwitchPrivateModes(parts: seq<string>, on: bool)
      requires ScreenOk(Scr())
      modifies `numRows, `numCols, `scrollTop, `scrollBottom, `buffer, `row, `col, `tabStops,
               `reverseVideo, `originMode, `enableWrap, `showCursor
      ensures Scr() == C.Modes(old(Scr()), parts, on, true)
    {
      hide C.PrivateSet, C.PrivateReset;
      ghost var s := Scr();
      assert parts[0..] == parts;
      var i := 0;
      while i < |parts|
        invariant 0 <= i <= |parts| && ScreenOk(Scr())
        invariant C.Modes(Scr(), parts[i..], on, true) == C.Modes(s, parts, on, true)
      {
        assert parts[i..][0] == parts[i] && parts[i..][1..] == parts[i + 1..];
        if on {
          PrivateSet(parts[i]);
        } else {
          PrivateReset(parts[i]);
        }
        i := i + 1;
      }
    }

    /** SM, RM, DECSET and DECRST. */
    method SwitchModes(on: bool)
      requires ScreenOk(Scr())
      modifies `numRows, `numCols, `scrollTop, `scrollBottom, `buffer, `row, `col, `tabStops,
               `reverseVideo, `originMode, `enableWrap, `showCursor, `insertMode
      ensures Scr() == C.SwitchModes(old(Scr()), escapeBuffer, on)
    {
      hide Split, C.Modes;
      if escapeBuffer == "" {
        return;
      }
      if escapeBuffer[0] != '?' {
        var parts := SplitString(escapeBuffer, ";");
        SwitchAnsiModes(parts, on);
      } else {
        var parts := SplitString(escapeBuffer[1..], ";");
        SwitchPrivateModes(parts, on);
      }
    }

    /** The margins DECSTBM asks for, zero-based; not `known` for an unknown form. */
    method ReadMargins() returns (known: bool, newTop: int, newBottom: int)
      requires C.SettingFits(escapeBuffer, 'r') && IsInt(numRows)
      ensures C.WantedMargins(Scr(), escapeBuffer) == if known then Some((newTop, newBottom)) else None
    {
      hide Split, Scan;
      var parts := SplitString(escapeBuffer, ";");
      known := true;
      newTop := 1;
      newBottom := numRows;
      if |parts| == 2 {
        newTop := C.ScanDefined(parts[0], newTop);
        newBottom := C.ScanDefined(parts[1], newBottom);
        newTop := Minus(newTop, 1);
        newBottom := Minus(newBottom, 1);
      } else if escapeBuffer == "" {
        newTop := 0;
        newBottom := numRows - 1;
      } else if |parts| == 1 {
        newTop := C.ScanDefined(parts[0], newTop);
        newTop := Minus(newTop, 1);
        newBottom := numRows - 1;
      } else {
        known := false;
      }
    }

    method SetMargins()
      requires ScreenOk(Scr()) && C.SettingFits(escapeBuffer, 'r')
      modifies `scrollTop, `scrollBottom, `row, `col
      ensures Scr() == C.SetMargins(old(Scr()), escapeBuffer)
    {
      hide C.WantedMargins, C.SettingFits;
      var known, newTop, newBottom := ReadMargins();
      if known && newBottom > newTop {
        EnterRegion(newTop, newBottom);
      }
    }

    /** Sets the margins and moves the cursor to the new home position. */
    method EnterRegion(newTop: int, newBottom: int)
      modifies `scrollTop, `scrollBottom, `row, `col
      ensures scrollTop == newTop && scrollBottom == newBottom && row == newTop && col == 0
    {
      scrollTop := newTop;
      scrollBottom := newBottom;
      row := scrollTop;
      col := 0;
    }

    method Rendition()
      requires ScreenOk(Scr())
      requires !(escapeBuffer != "" && escapeBuffer[0] == '>') ==> Sgr.Numeric(C.Parts(escapeBuffer))
      modifies `currentStyle
      ensures C.Rendition(old(Scr()), escapeBuffer) == Some(Scr())
    {
      if escapeBuffer != "" && escapeBuffer[0] == '>' {
        return;
      }
      var parts := SplitString(escapeBuffer, ";");
      Sgr.DefinedIffNumeric(parts, currentStyle);
      var ok, style := Sgr.ApplyParts(parts, currentStyle);
      currentStyle := style;
    }

    /** The final bytes that change modes, margins, tab stops or style, or ask for a report. */
    method HandleSetting(current: Byte)
      requires ScreenOk(Scr())
      requires C.SettingFits(escapeBuffer, current) && C.SettingSafe(Scr(), escapeBuffer, current)
      modifies `numRows, `numCols, `scrollTop, `scrollBottom, `buffer, `row, `col, `tabStops,
               `reverseVideo, `originMode, `enableWrap, `showCursor, `insertMode, `currentStyle, `sent
      ensures C.Setting(old(Scr()), escapeBuffer, current) == Some(Scr())
    {
      if current == 'c' {
        if escapeBuffer == "" || escapeBuffer == "0" {
          WriteFull([P.ESCAPE] + "[?1;2c");
        } else if escapeBuffer == ">" || escapeBuffer == ">0" {
          WriteFull([P.ESCAPE] + "[>0;276;0c");
        }
      } else if current == 'g' {
        ClearTabs();
      } else if current == 'h' {
        SwitchModes(true);
      } else if current == 'l' {
        SwitchModes(false);
      } else if current == 'm' {
        Rendition();
      } else if current == 'n' {
        if escapeBuffer == "5" {
          WriteFull([P.ESCAPE] + "[0n");
        } else if escapeBuffer == "6" {
          WriteFull([P.ESCAPE] + "[" + (Dec(Plus(row, 1)) + ";" + Dec(Plus(col, 1))) + "R");
        }
      } else if current == 'r' {
        SetMargins();
      }
    }

    method HandleFinal(current: Byte)
      requires ScreenOk(Scr()) && C.Admissible(Scr(), escapeBuffer, current)
      modifies `numRows, `numCols, `scrollTop, `scrollBottom, `buffer, `row, `col, `tabStops,
               `reverseVideo, `originMode, `enableWrap, `showCursor, `insertMode, `currentStyle, `sent
      ensures C.Final(old(Scr()), escapeBuffer, current) == Some(Scr())
    {
      hide C.Motion, C.Edit, C.Setting, C.MotionFits, C.EditFits, C.SettingFits, C.EditReads, C.SettingSafe, ScreenOk;
      if C.IsMotion(current) {
        HandleMotion(current);
      } else if C.IsEdit(current) {
        HandleEdit(current);
      } else {
        HandleSetting(current);
      }
    }

    method HandleCSI(current: Byte)
      requires Valid() && escapeState == P.EscapeState.Csi
      requires P.CsiSafe(View(), current)
      modifies `escapeState, `escapeBuffer,
               `numRows, `numCols, `scrollTop, `scrollBottom, `buffer, `row, `col, `tabStops,
               `reverseVideo, `originMode, `enableWrap, `showCursor, `insertMode, `currentStyle, `sent
      ensures P.CsiByte(old(View()), current) == Some(View())
      ensures Valid()
    {
      hide C.Final, C.Admissible, ScreenOk, Utf8.InRange;
      if '@' <= current <= '~' {
        HandleFinal(current);
        escapeState := P.Idle;
      } else if ' ' <= current <= '?' {
        escapeBuffer := escapeBuffer + [current];
      } else {
        escapeState := P.Idle;
      }
    }

    // --------------------------------------------------------------------- ESC sequences

    /** The loop of RI at the top margin. */
    method PushRegionDown()
      requires 0 <= scrollTop < scrollBottom < |buffer| && Rectangular()
      modifies `buffer
      ensures IsShiftDown(old(buffer), scrollTop, scrollBottom + 1, 1, BlankRow(numCols), buffer)
    {
      ghost var g := buffer;
      var i := scrollBottom;
      while i > scrollTop
        invariant scrollTop <= i <= scrollBottom && |buffer| == |g|
        invariant forall k {:trigger buffer[k]} :: 0 <= k < |g| ==>
                    buffer[k] == if i < k <= scrollBottom then g[k - 1] else g[k]
      {
        buffer := buffer[i := buffer[i - 1]];
        i := i - 1;
      }
      assert buffer[scrollTop] == g[scrollTop] && |g[scrollTop]| == numCols;
      buffer := buffer[scrollTop := Rep(BLANK, |buffer[scrollTop]|)];
    }

    method ReverseIndex()
      requires ScreenOk(Scr())
      modifies `buffer, `row, `col
      ensures Scr() == Display.ReverseIndex(old(Scr()))
    {
      hide ShiftDown, IsShiftDown;
      if row == scrollTop {
        RowLengths(buffer, numRows, numCols);
        ghost var g := buffer;
        PushRegionDown();
        ShiftDownUnique(g, scrollTop, scrollBottom + 1, 1, BlankRow(numCols), buffer);
      } else {
        row := row - 1;
        ClampCursor();
      }
    }

    /** The two loops of DECALN. */
    method FillPattern()
      requires |buffer| == numRows && Rectangular()
      modifies `buffer
      ensures buffer == Rep(Rep(BLANK.(code := 0x45), numCols), numRows)
    {
      var e := BLANK.(code := 0x45);
      var i := 0;
      while i < numRows
        invariant 0 <= i <= numRows && |buffer| == numRows && Rectangular()
        invariant forall k :: 0 <= k < i ==> buffer[k] == Rep(e, numCols)
      {
        ghost var g := buffer;
        var j := 0;
        while j < numCols
          invariant 0 <= j <= numCols && |buffer| == numRows && |buffer[i]| == numCols
          invariant buffer == g[i := buffer[i]]
          invariant forall k :: 0 <= k < j ==> buffer[i][k] == e
        {
          buffer := buffer[i := buffer[i][j := BLANK]];
          buffer := buffer[i := buffer[i][j := buffer[i][j].(code := 0x45)]];
          j := j + 1;
        }
        assert buffer[i] == Rep(e, numCols);
        i := i + 1;
      }
    }

    method AlignmentPattern()
      requires ScreenOk(Scr())
      modifies `buffer
      ensures Scr() == Display.AlignmentPattern(old(Scr()))
    {
      RowLengths(buffer, numRows, numCols);
      FillPattern();
    }

    method SaveCursor()
      modifies `saveRow, `saveCol, `saveStyle
      ensures saveRow == row && saveCol == col && saveStyle == currentStyle
    {
      saveRow := row;
      saveCol := col;
      saveStyle := currentStyle;
    }

    method CursorTo(newRow: int, newCol: int)
      requires ScreenOk(Scr())
      modifies `row, `col
      ensures Scr() == P.CursorTo(old(Scr()), newRow, newCol, currentStyle)
    {
      row := newRow;
      col := newCol;
      ClampCursor();
    }

    method RestoreCursor()
      requires ScreenOk(Scr())
      modifies `row, `col, `currentStyle
      ensures Scr() == P.CursorTo(old(Scr()), saveRow, saveCol, saveStyle)
    {
      CursorTo(saveRow, saveCol);
      currentStyle := saveStyle;
    }

    method EscCursor(input: Byte)
      requires ScreenOk(Scr())
      modifies `row, `col, `currentStyle
      ensures Scr() == P.EscCursor(old(Scr()), input)
    {
      hide P.CursorTo;
      if input == 'A' {
        CursorTo(Minus(row, 1), col);
      } else if input == 'B' {
        CursorTo(Plus(row, 1), col);
      } else if input == 'C' {
        CursorTo(row, Plus(col, 1));
      } else if input == 'E' {
        CursorTo(Plus(row, 1), 0);
      } else if input == '8' {
        RestoreCursor();
      }
    }

    method EscAction(input: Byte)
      requires ScreenOk(Scr())
      modifies `row, `col, `buffer, `history, `scrolled, `saveRow, `saveCol, `saveStyle, `currentStyle
      ensures Scr() == P.EscAction(old(Scr()), input)
    {
      hide P.EscCursor, Display.ReverseIndex, Drop;
      if input == 'D' {
        row := Plus(row, 1);
        DropFirstRowIfOverflow();
      } else if input == 'M' {
        ReverseIndex();
      } else if input == '7' {
        SaveCursor();
      } else {
        EscCursor(input);
      }
    }

    method HandleEsc(input: Byte)
      requires Valid() && escapeState == P.Esc
      requires escapeBuffer == "" && input == 'H' ==> col < numCols
      modifies `escapeState, `escapeBuffer, `tabStops,
               `row, `col, `buffer, `history, `scrolled, `saveRow, `saveCol, `saveStyle, `currentStyle
      ensures P.EscByte(old(View()), input) == Some(View())
    {
      hide P.EscRest;
      if input == '[' && escapeBuffer == "" {
        escapeState := P.EscapeState.Csi;
      } else if input == ']' && escapeBuffer == "" {
        escapeState := P.Osc;
      } else if input == 'P' && escapeBuffer == "" {
        escapeState := P.Dcs;
      } else if input == 'H' && escapeBuffer == "" {
        tabStops := tabStops[col := true];
        escapeState := P.Idle;
      } else {
        HandleEscRest(input);
      }
    }

    /** The effect of a byte that ends an ESC sequence. */
    method EscEnd(input: Byte)
      requires ScreenOk(Scr())
      modifies `row, `col, `buffer, `history, `scrolled, `saveRow, `saveCol, `saveStyle, `currentStyle
      ensures Scr() == P.EscEnd(old(Scr()), escapeBuffer, input)
    {
      hide P.EscAction, Display.AlignmentPattern;
      if input == '8' && escapeBuffer == "#" {
        AlignmentPattern();
      } else if escapeBuffer == "" {
        EscAction(input);
      }
    }

    /** After ESC: a designator byte is collected, any other byte ends the sequence. */
    method HandleEscRest(input: Byte)
      requires Valid() && escapeState == P.Esc
      modifies `escapeState, `escapeBuffer,
               `row, `col, `buffer, `history, `scrolled, `saveRow, `saveCol, `saveStyle, `currentStyle
      ensures View() == P.EscRest(old(View()), input)
    {
      hide P.EscEnd;
      if input == '#' || input == '(' || input == ')' {
        escapeBuffer := escapeBuffer + [input];
      } else {
        EscEnd(input);
        escapeState := P.Idle;
      }
    }

    // ----------------------------------------------------------------- OSC, DCS strings

    /** What the calls made since `before` did to the clipboard queues. */
    ghost function Reported(b: Pasteboard.Board, before: Screen, after: Screen): Pasteboard.Board
      requires |before.copies| <= |after.copies| && before.requests <= after.requests
    {
      b.(copyQueue := b.copyQueue + after.copies[|before.copies|..],
         pasteRequests := b.pasteRequests + (after.requests - before.requests))
    }

    method OscBell()
      requires ScreenOk(Scr()) && (P.Asks(escapeBuffer) ==> IsInt(board.pasteRequests + 1))
      modifies `copies, `requests, board
      ensures Scr() == P.OscBell(old(Scr()), escapeBuffer)
      ensures old(copies) <= copies && old(requests) <= requests
      ensures board.View() == Reported(old(board.View()), old(Scr()), Scr())
    {
      hide Split;
      var parts := SplitString(escapeBuffer, ";");
      if |parts| == 3 && parts[0] == "52" && parts[1] == "c" && parts[2] != "?" {
        board.Copy(parts[2]);
        copies := copies + [parts[2]];
      } else if |parts| == 3 && parts[0] == "52" && parts[1] == "c" && parts[2] == "?" {
        board.RequestPaste();
        requests := requests + 1;
      }
    }

    method OscTerminated()
      requires ScreenOk(Scr()) && P.EscapePending(escapeBuffer)
      modifies `sent
      ensures Scr() == P.OscTerminated(old(Scr()), escapeBuffer)
    {
      hide Split;
      var parts := SplitString(escapeBuffer[..|escapeBuffer| - 1], ";");
      if |parts| == 2 && parts[0] == "10" && parts[1] == "?" {
        WriteFull([P.ESCAPE] + "]10;rgb:0/0/0" + [P.ESCAPE] + "\\");
      } else if |parts| == 2 && parts[0] == "11" && parts[1] == "?" {
        WriteFull([P.ESCAPE] + "]10;rgb:f/f/f" + [P.ESCAPE] + "\\");
      }
    }

    method HandleOsc(input: Byte)
      requires Valid() && escapeState == P.Osc
      requires P.RequestsPaste(View(), input) ==> IsInt(board.pasteRequests + 1)
      modifies `escapeState, `escapeBuffer, `sent, `copies, `requests, board
      ensures View() == P.OscByte(old(View()), input)
      ensures old(copies) <= copies && old(requests) <= requests
      ensures board.View() == Reported(old(board.View()), old(Scr()), Scr())
    {
      hide P.OscBell, P.OscTerminated, P.Asks, ScreenOk, Utf8.InRange;
      if input == P.BEL {
        OscBell();
        escapeState := P.Idle;
      } else if input == '\\' && P.EscapePending(escapeBuffer) {
        OscTerminated();
        escapeState := P.Idle;
      } else if P.IsText(input) {
        escapeBuffer := escapeBuffer + [input];
      } else {
        escapeState := P.Idle;
      }
    }

    method HandleDcs(input: Byte)
      requires Valid() && escapeState == P.Dcs
      modifies `escapeState, `escapeBuffer
      ensures View() == P.DcsByte(old(View()), input)
    {
      if input == '\\' && P.EscapePending(escapeBuffer) {
        escapeState := P.Idle;
      } else if P.IsText(input) {
        escapeBuffer := escapeBuffer + [input];
      } else {
        escapeState := P.Idle;
      }
    }

    // --------------------------------------------------------------- outside of sequences

    /** The loop of insert mode: cells right of the cursor move one column to the right. */
    method PushGap()
      requires 0 <= row < |buffer| && 0 <= col < |buffer[row]| == numCols
      modifies `buffer
      ensures |buffer| == |old(buffer)| && buffer == old(buffer)[row := buffer[row]]
      ensures IsShiftDown(old(buffer)[row], col, numCols, 1, old(buffer)[row][col], buffer[row])
    {
      ghost var g := buffer;
      var i := numCols - 1;
      while i > col
        invariant col <= i <= numCols - 1 && |buffer| == |g| && |buffer[row]| == numCols
        invariant buffer == g[row := buffer[row]]
        invariant forall j {:trigger buffer[row][j]} :: 0 <= j < numCols ==>
                    buffer[row][j] == if i < j then g[row][j - 1] else g[row][j]
      {
        buffer := buffer[row := buffer[row][i := buffer[row][i - 1]]];
        i := i - 1;
      }
    }

    method OpenGap()
      requires ScreenOk(Scr())
      modifies `buffer
      ensures Scr() == Display.OpenGap(old(Scr()))
    {
      hide ShiftDown, IsShiftDown;
      if col < numCols {
        ghost var r := buffer[row];
        assert RowOk(r, numCols);
        PushGap();
        ShiftDownUnique(r, col, numCols, 1, r[col], buffer[row]);
      }
    }

    method PrintByte(input: Byte)
      requires ScreenOk(Scr()) && P.IsPrintable(input)
      modifies `history, `buffer, `row, `col, `scrolled
      ensures Scr() == P.Print(charWidth, old(Scr()), input)
    {
      hide InsertPoint, Display.OpenGap;
      if insertMode {
        OpenGap();
      }
      InsertUtf8(input as nat);
    }

    /** The search loop of HT. */
    method SkipToStop()
      requires 0 <= col <= |tabStops| == numCols && IsInt(numCols + 1)
      modifies `col
      ensures col == NextStop(tabStops, old(col) + 1)
    {
      col := Plus(col, 1);
      while col < numCols && !tabStops[col]
        invariant old(col) + 1 <= col <= numCols + 1
        invariant NextStop(tabStops, col) == NextStop(tabStops, old(col) + 1)
      {
        col := Plus(col, 1);
      }
    }

    method AdvanceTab()
      requires ScreenOk(Scr())
      modifies `row, `col
      ensures Scr() == Tab(old(Scr()))
    {
      SkipToStop();
      ClampCursor();
    }

    method HandleControl(input: Byte)
      requires ScreenOk(Scr())
      modifies `history, `buffer, `row, `col, `scrolled
      ensures Scr() == P.Control(old(Scr()), input)
    {
      hide Tab, Drop;
      if input == '\r' {
        col := 0;
      } else if input == '\n' {
        row := Plus(row, 1);
        DropFirstRowIfOverflow();
      } else if input == '\U{0008}' {
        if col > 0 {
          col := col - 1;
        }
      } else if input == '\t' {
        AdvanceTab();
      }
    }

    /** A first byte: starts a multi-byte character or is ignored. */
    method HandleLead(x: nat)
      requires utf8State == Utf8.Initial
      modifies `utf8State, `currentUtf8
      ensures Utf8.Decoder(utf8State, currentUtf8)
           == Utf8.Feed(old(Utf8.Decoder(utf8State, currentUtf8)), x).next
    {
      if 0xC2 <= x <= 0xDF {
        utf8State := Utf8.Two2;
        currentUtf8 := x % 0x20 * 0x40;
      } else if x == 0xE0 {
        utf8State := Utf8.Three2E0;
        currentUtf8 := x % 0x10 * 0x1000;
      } else if 0xE1 <= x <= 0xEF {
        utf8State := Utf8.Three2;
        currentUtf8 := x % 0x10 * 0x1000;
      } else if x == 0xF0 {
        utf8State := Utf8.Four2F0;
        currentUtf8 := x % 8 * 0x40000;
      } else if 0xF1 <= x <= 0xF3 {
        utf8State := Utf8.Four2;
        currentUtf8 := x % 8 * 0x40000;
      } else if x == 0xF4 {
        utf8State := Utf8.Four2F4;
        currentUtf8 := x % 8 * 0x40000;
      }
    }

    /** A byte that must continue the character; `done` when it completes it. */
    method HandleContinuation(x: nat) returns (done: bool)
      requires utf8State != Utf8.Initial
      modifies `utf8State, `currentUtf8
      ensures var o := Utf8.Feed(old(Utf8.Decoder(utf8State, currentUtf8)), x);
              && Utf8.Decoder(utf8State, currentUtf8) == o.next
              && o.point == if done then Some(currentUtf8) else None
    {
      done := false;
      if utf8State == Utf8.Two2 || utf8State == Utf8.Three3 || utf8State == Utf8.Four4 {
        if 0x80 <= x <= 0xBF {
          currentUtf8 := currentUtf8 + x % 0x40;
          done := true;
        }
        utf8State := Utf8.Initial;
      } else if utf8State == Utf8.Three2E0 {
        AcceptSecond(x, 0xA0, 0xBF, Utf8.Three3);
      } else if utf8State == Utf8.Three2 {
        AcceptSecond(x, 0x80, 0xBF, Utf8.Three3);
      } else if utf8State == Utf8.Four2F0 {
        AcceptSecond(x, 0x90, 0xBF, Utf8.Four3);
      } else if utf8State == Utf8.Four2 {
        AcceptSecond(x, 0x80, 0xBF, Utf8.Four3);
      } else if utf8State == Utf8.Four2F4 {
        AcceptSecond(x, 0x80, 0x8F, Utf8.Four3);
      } else {
        AcceptSecond(x, 0x80, 0xBF, Utf8.Four4);
      }
    }

    /** A middle byte in [lo, hi] adds its six bits; any other byte abandons the character. */
    method AcceptSecond(x: nat, lo: nat, hi: nat, next: Utf8.State)
      modifies `utf8State, `currentUtf8
      ensures Utf8.Decoder(utf8State, currentUtf8)
           == Utf8.Middle(old(Utf8.Decoder(utf8State, currentUtf8)), x, lo, hi, next).next
    {
      if lo <= x <= hi {
        currentUtf8 := currentUtf8 + (if next == Utf8.Four3 then x % 0x40 * 0x1000 else x % 0x40 * 0x40);
        utf8State := next;
      } else {
        utf8State := Utf8.Initial;
      }
    }

    method HandleMulti(input: Byte)
      requires Valid() && escapeState == P.Idle
      modifies `utf8State, `currentUtf8, `history, `buffer, `row, `col, `scrolled
      ensures View() == P.Multi(charWidth, old(View()), input)
    {
      hide Utf8.Feed, InsertPoint;
      Utf8.FeedInRange(Utf8.Decoder(utf8State, currentUtf8), input as nat);
      if utf8State == Utf8.Initial {
        Utf8.LeadIsSilent(Utf8.Decoder(utf8State, currentUtf8), input as nat);
        HandleLead(input as nat);
      } else {
        var done := HandleContinuation(input as nat);
        if done {
          InsertUtf8(currentUtf8);
        }
      }
    }

    method HandleIdle(input: Byte)
      requires Valid() && escapeState == P.Idle
      modifies `escapeState, `escapeBuffer, `utf8State, `currentUtf8,
               `history, `buffer, `row, `col, `scrolled
      ensures View() == P.IdleByte(charWidth, old(View()), input)
    {
      hide P.Multi, P.Print, P.Control;
      if utf8State != Utf8.Initial || input > '\U{007F}' {
        HandleMulti(input);
      } else if input == P.ESCAPE {
        escapeBuffer := "";
        escapeState := P.Esc;
      } else if P.IsPrintable(input) {
        PrintByte(input);
      } else {
        HandleControl(input);
      }
    }

    /** Every state but the one in which an OSC string can end: the clipboard is not involved. */
    method ParseQuietly(input: Byte)
      requires Valid() && P.Admissible(View(), input) && escapeState != P.Osc
      modifies `escapeState, `escapeBuffer, `utf8State, `currentUtf8,
               `numRows, `numCols, `scrollTop, `scrollBottom, `buffer, `row, `col, `tabStops,
               `reverseVideo, `originMode, `enableWrap, `showCursor, `insertMode, `currentStyle, `sent,
               `history, `scrolled, `saveRow, `saveCol, `saveStyle
      ensures P.Step(charWidth, old(View()), input) == Some(View())
    {
      hide P.EscByte, P.CsiByte, P.OscByte, P.DcsByte, P.IdleByte;
      if escapeState == P.Esc {
        HandleEsc(input);
      } else if escapeState == P.EscapeState.Csi {
        HandleCSI(input);
      } else if escapeState == P.Dcs {
        HandleDcs(input);
      } else {
        HandleIdle(input);
      }
    }

    /**
     * One byte from the pty. Under the exact condition of `Parser.StepSafeIff`, and if a paste request
     * it makes can be counted, it does what `Step` says, keeps the invariant, and hands the clipboard
     * exactly the calls it logs.
     */
    method Parse(input: Byte)
      requires Valid() && P.Admissible(View(), input)
      requires P.RequestsPaste(View(), input) ==> IsInt(board.pasteRequests + 1)
      modifies this, board
      ensures Valid() && P.Step(charWidth, old(View()), input) == Some(View())
      ensures old(copies) <= copies && old(requests) <= requests
      ensures board.View() == Reported(old(board.View()), old(Scr()), Scr())
    {
      hide P.EscByte, P.CsiByte, P.OscByte, P.DcsByte, P.IdleByte, P.Admissible;
      P.StepSafeIff(charWidth, View(), input);
      if escapeState == P.Osc {
        HandleOsc(input);
      } else {
        ParseQuietly(input);
      }
    }

    /**
     * The loop of `Worker` over the bytes of one read: the run of the whole buffer. The condition
     * is the exact one of `Parser.RunSafeIff`, with room in the counter for the requests made.
     */
    method ParseAll(input: seq<Byte>)
      requires Valid() && P.AdmissibleRun(charWidth, View(), input)
      requires IsInt(board.pasteRequests + P.RequestsMade(charWidth, View(), input))
      modifies this, board
      ensures Valid() && P.Run(charWidth, old(View()), input) == Some(View())
      ensures old(copies) <= copies && old(requests) <= requests
      ensures board.View() == Reported(old(board.View()), old(Scr()), Scr())
    {
      hide P.Step, P.Run, P.Admissible, P.Inv, P.RequestsPaste;
      ghost var s := View();
      P.RunNothing(charWidth, s);
      P.RunSafeIff(charWidth, s, input);
      assert input[..0] == [];
      var i := 0;
      while i < |input|
        invariant 0 <= i <= |input|
        invariant Valid() && P.Run(charWidth, s, input[..i]) == Some(View())
        invariant old(copies) <= copies && old(requests) <= requests
        invariant board.View() == Reported(old(board.View()), s.scr, Scr())
      {
        P.RunSnoc(charWidth, s, input[..i], input[i]);
        P.RequestFits(charWidth, s, input, i);
        assert input[..i + 1] == input[..i] + [input[i]];
        Parse(input[i]);
        i := i + 1;
      }
      assert input[..i] == input;
    }
  }
}
