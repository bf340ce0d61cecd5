/** The final bytes of `HandleCSI` as functions of the screen and the parameter text. */
module Csi {
  import opened Sequences
  import opened Text
  import opened Cells
  import opened Display
  import Sgr

  const ESCAPE: char := '\U{001B}'

  function Count(buf: string): int { ReadInt(buf, 1) }

  /** `read_int_or_default` is defined. */
  predicate CountReadable(buf: string) { buf != "" ==> Readable(buf) }

  function Parts(buf: string): (parts: seq<string>)
    ensures parts != []
  {
    Split(buf, ";")
  }

  // --------------------------------------------------------------------- cursor

  /** How far CUU moves: up to the top margin when it starts inside or below the region. */
  function UpBy(s: Screen, n: int): int {
    if s.row >= s.top then -Min(n, s.row - s.top) else -n
  }

  /** CUU. */
  function CursorUp(s: Screen, buf: string): (t: Screen)
    requires ScreenOk(s)
    ensures ScreenOk(t) && SameLog(s, t) && t.grid == s.grid
  {
    MoveCursor(s, UpBy(s, Count(buf)), 0)
  }

  /** How far CUD moves: down to the bottom margin when it starts inside or above the region. */
  function DownBy(s: Screen, n: int): int {
    if s.row <= s.bottom then Min(n, s.bottom - s.row) else n
  }

  /** CUD. */
  function CursorDown(s: Screen, buf: string): (t: Screen)
    requires ScreenOk(s)
    ensures ScreenOk(t) && SameLog(s, t) && t.grid == s.grid
  {
    MoveCursor(s, DownBy(s, Count(buf)), 0)
  }

  /** The sums of `MoveCursor` are `int`s. */
  predicate MoveFits(s: Screen, d: int)
    requires Shape(s)
  {
    var t := Clamp(s);
    IsInt(d) && IsInt(t.row + d) && (s.origin ==> IsInt(t.row + d + s.top))
  }

  /** CUF and CUB, by `sign`. */
  function CursorAcross(s: Screen, buf: string, sign: int): (t: Screen)
    requires ScreenOk(s)
    ensures ScreenOk(t) && SameLog(s, t) && t.grid == s.grid
  {
    Clamp(s.(col := s.col + sign * Max(Count(buf), 1)))
  }

  /** CNL and CPL, by `sign`. */
  function CursorLine(s: Screen, buf: string, sign: int): (t: Screen)
    requires ScreenOk(s)
    ensures ScreenOk(t) && SameLog(s, t) && t.grid == s.grid
  {
    Clamp(s.(row := s.row + sign * Count(buf), col := 0))
  }

  function CursorColumn(s: Screen, buf: string): (t: Screen)
    requires ScreenOk(s)
    ensures ScreenOk(t) && SameLog(s, t) && t.grid == s.grid
  {
    Clamp(s.(col := Count(buf) - 1))
  }

  /** `sscanf` into a variable: an unreadable part leaves the old value. */
  function ScanInto(part: string, fallback: int): int { Scan(part).GetOr(fallback) }

  /** `sscanf` into a variable, where it is defined. */
  function ScanDefined(part: string, fallback: int): (n: int)
    requires Readable(part)
    ensures n == ScanInto(part, fallback)
  {
    ScanInto(part, fallback)
  }

  /** A one-based coordinate that is read and made zero-based. */
  predicate CoordinateFits(part: string) {
    Scan(part).Some? ==> IsInt(Scan(part).value) && IsInt(Scan(part).value - 1)
  }

  function PositionPair(s: Screen, buf: string): (t: Screen)
    requires ScreenOk(s) && |Parts(buf)| == 2
    ensures ScreenOk(t) && SameLog(s, t) && t.grid == s.grid
  {
    Clamp(s.(row := ScanInto(Parts(buf)[0], s.row) - 1, col := ScanInto(Parts(buf)[1], s.col) - 1))
  }

  /** CUP. */
  function CursorPosition(s: Screen, buf: string): (t: Screen)
    requires ScreenOk(s)
    ensures ScreenOk(t) && SameLog(s, t) && t.grid == s.grid
  {
    if |Parts(buf)| == 2 then PositionPair(s, buf)
    else if |Parts(buf)| == 1 && buf != "" then
      Clamp(s.(row := ScanInto(Parts(buf)[0], s.row) - 1, col := 0))
    else if buf == "" then s.(row := 0, col := 0)
    else s
  }

  /** HVP. */
  function FormatPosition(s: Screen, buf: string): (t: Screen)
    requires ScreenOk(s)
    ensures ScreenOk(t) && SameLog(s, t) && t.grid == s.grid
  {
    if |Parts(buf)| == 2 then PositionPair(s, buf) else s
  }

  /** VPA. */
  function CursorRow(s: Screen, buf: string): (t: Screen)
    requires ScreenOk(s)
    ensures ScreenOk(t) && SameLog(s, t) && t.grid == s.grid
  {
    if buf != "" then Clamp(s.(row := ScanInto(buf, s.row) - 1)) else s
  }

  // -------------------------------------------------------------------- erasing

  /** ED. Erasing above writes the cell under the cursor, which does not exist past the last column. */
  function EraseDisplay(s: Screen, buf: string): (t: Option<Screen>)
    requires ScreenOk(s)
    ensures t.Some? ==> ScreenOk(t.value) && SameLog(s, t.value)
    ensures t.None? <==> buf == "1" && s.col == s.cols
  {
    if buf == "" || buf == "0" then
      Some(EraseRows(EraseCells(s, s.col, s.cols), s.row + 1, s.rows))
    else if buf == "1" then
      if s.col == s.cols then None
      else Some(EraseCells(EraseRows(s, 0, s.row), 0, s.col + 1))
    else if buf == "2" then Some(EraseRows(s, 0, s.rows))
    else Some(s)
  }

  /** EL. */
  function EraseLine(s: Screen, buf: string): (t: Screen)
    requires ScreenOk(s)
    ensures ScreenOk(t) && SameLog(s, t)
  {
    if buf == "" || buf == "0" then EraseCells(s, s.col, s.cols)
    else if buf == "1" then EraseCells(s, 0, Min(s.col + 1, s.cols))
    else if buf == "2" then EraseCells(s, 0, s.cols)
    else s
  }

  /** ECH. */
  function EraseChars(s: Screen, buf: string): (t: Screen)
    requires ScreenOk(s)
    ensures ScreenOk(t) && SameLog(s, t)
  {
    EraseCells(s, s.col, Max(s.col, Min(s.col + Count(buf), s.cols)))
  }

  // ----------------------------------------------------------- inserting, deleting

  predicate InRegion(s: Screen) { s.top <= s.row <= s.bottom }

  /** A negative count makes IL read rows below the region. */
  predicate InsertLinesReads(s: Screen, n: int) {
    InRegion(s) && n < 0 ==> s.bottom - n < s.rows
  }

  /** IL. */
  function InsertLines(s: Screen, n: int): (t: Screen)
    requires ScreenOk(s) && InsertLinesReads(s, n)
    ensures ScreenOk(t) && SameLog(s, t)
  {
    if InRegion(s)
    then s.(grid := CopyDown(s.grid, s.row, s.bottom + 1, n, BlankRow(s.cols)), col := 0)
    else s
  }

  /** A negative count makes DL read rows above the cursor. */
  predicate DeleteLinesReads(s: Screen, n: int) {
    InRegion(s) && n < 0 ==> s.row + n >= 0
  }

  /** DL. */
  function DeleteLines(s: Screen, n: int): (t: Screen)
    requires ScreenOk(s) && DeleteLinesReads(s, n)
    ensures ScreenOk(t) && SameLog(s, t)
  {
    if InRegion(s)
    then s.(grid := CopyUp(s.grid, s.row, s.bottom + 1, n, BlankRow(s.cols)), col := 0)
    else s
  }

  /** A negative count makes SU read rows above the region. */
  predicate ScrollUpReads(s: Screen, n: int) { s.top + n >= 0 }

  /** SU. Unlike a line feed it does not feed the scrollback. */
  function ScrollUp(s: Screen, n: int): (t: Screen)
    requires ScreenOk(s) && ScrollUpReads(s, n)
    ensures ScreenOk(t) && SameLog(s, t)
  {
    s.(grid := CopyUp(s.grid, s.top, s.bottom + 1, n, BlankRow(s.cols)))
  }

  /** The row DCH leaves. */
  function DeleteCells(r: Row, c: nat, n: int): (t: Row)
    requires c <= |r| && (c < |r| ==> c + n >= 0)
    ensures |t| == |r|
  {
    CopyUp(r, c, |r|, n, BLANK)
  }

  /** A negative count makes DCH read cells left of the cursor. */
  predicate DeleteCharsReads(s: Screen, n: int) { s.col < s.cols ==> s.col + n >= 0 }

  /** DCH. The only operation that can bring the right half of a wide character into column 0. */
  function DeleteChars(s: Screen, n: int): (t: Screen)
    requires ScreenOk(s) && DeleteCharsReads(s, n)
    ensures ScreenOk(t) <==> TailStaysOff(s, n)
    ensures SameLog(s, t)
  {
    var r := s.grid[s.row];
    assert RowOk(r, s.cols);
    var t := s.(grid := s.grid[s.row := DeleteCells(r, s.col, n)]);
    assert t.grid[s.row] == DeleteCells(r, s.col, n);
    assert RowOk(t.grid[s.row], s.cols) <==> TailStaysOff(s, n);
    t
  }

  /** The cell DCH would move into column 0 is not the right half of a wide character. */
  predicate TailStaysOff(s: Screen, n: int)
    requires ScreenOk(s) && DeleteCharsReads(s, n)
  {
    s.col == 0 && n < s.cols ==> !IsTail(s.grid[s.row][n])
  }

  /** The row ICH leaves: opened cells become spaces but keep the style they had. */
  function InsertBlanks(r: Row, c: nat, n: int): (t: Row)
    requires c <= |r| && (c < |r| ==> n >= 0)
    ensures |t| == |r|
    ensures forall i {:trigger t[i]} :: 0 <= i < |r| ==>
              t[i] == if i < c then r[i] else if i - c < n then r[i].(code := 0x20) else r[i - n]
  {
    seq(|r|, i requires 0 <= i < |r| =>
      if i < c then r[i] else if i - c < n then r[i].(code := 0x20) else r[i - n])
  }

  predicate EndsInDigit(buf: string) {
    buf == "" || IsDigit(buf[|buf| - 1])
  }

  /** A negative count makes ICH read cells right of the row. */
  predicate InsertCharsReads(s: Screen, buf: string) {
    EndsInDigit(buf) && s.col < s.cols ==> Count(buf) >= 0
  }

  /** ICH. */
  function InsertChars(s: Screen, buf: string): (t: Screen)
    requires ScreenOk(s) && InsertCharsReads(s, buf)
    ensures ScreenOk(t) && SameLog(s, t)
  {
    assert RowOk(s.grid[s.row], s.cols);
    if EndsInDigit(buf)
    then s.(grid := s.grid[s.row := InsertBlanks(s.grid[s.row], s.col, Count(buf))])
    else s
  }

  // ------------------------------------------------------------- tabs, modes, margins

  /** TBC. Clearing the stop under the cursor needs a column of the screen. */
  function ClearTabs(s: Screen, buf: string): (t: Option<Screen>)
    requires ScreenOk(s)
    ensures t.Some? ==> ScreenOk(t.value) && SameLog(s, t.value) && t.value.grid == s.grid
    ensures t.None? <==> ReadInt(buf, 0) == 0 && s.col == s.cols
  {
    if ReadInt(buf, 0) == 0 then
      if s.col == s.cols then None else Some(s.(tabs := s.tabs[s.col := false]))
    else if ReadInt(buf, 0) == 3 then Some(s.(tabs := Rep(false, |s.tabs|)))
    else Some(s)
  }

  /** One parameter of SM (`on`) or RM. */
  function Mode(s: Screen, part: string, on: bool): (t: Screen)
    ensures SameLog(s, t)
  {
    if part == "4" then s.(insert := on) else s
  }

  /** One parameter of DECSET. */
  function PrivateSet(s: Screen, part: string): (t: Screen)
    requires ScreenOk(s)
    ensures ScreenOk(t) && SameLog(s, t)
  {
    if part == "3" then ResizeKeepsOk(s, s.rows, 132); Resize(s, s.rows, 132)
    else if part == "5" then s.(reverse := true)
    else if part == "6" then s.(origin := true)
    else if part == "7" then s.(wrap := true)
    else if part == "25" then s.(showCursor := true)
    else s
  }

  /** One parameter of DECRST. Hiding the cursor is not implemented: 25 shows it in both directions. */
  function PrivateReset(s: Screen, part: string): (t: Screen)
    requires ScreenOk(s)
    ensures ScreenOk(t) && SameLog(s, t)
  {
    if part == "3" then ResizeKeepsOk(s, s.rows, 80); Resize(s, s.rows, 80)
    else if part == "5" then s.(reverse := false)
    else if part == "6" then s.(origin := false)
    else if part == "7" then s.(wrap := false)
    else if part == "25" then s.(showCursor := true)
    else s
  }

  /** All parameters of SM, RM, DECSET or DECRST, left to right. */
  function Modes(s: Screen, parts: seq<string>, on: bool, isPrivate: bool): (t: Screen)
    requires ScreenOk(s)
    ensures ScreenOk(t) && SameLog(s, t)
    decreases |parts|
  {
    if parts == [] then s
    else
      var u := if !isPrivate then Mode(s, parts[0], on)
               else if on then PrivateSet(s, parts[0]) else PrivateReset(s, parts[0]);
      Modes(u, parts[1..], on, isPrivate)
  }

  /** SM, RM, DECSET, DECRST. */
  function SwitchModes(s: Screen, buf: string, on: bool): (t: Screen)
    requires ScreenOk(s)
    ensures ScreenOk(t) && SameLog(s, t)
  {
    if buf == "" then s
    else if buf[0] != '?' then Modes(s, Parts(buf), on, false)
    else Modes(s, Split(buf[1..], ";"), on, true)
  }

  /** The zero-based margins a DECSTBM asks for; `None` for an unknown form. */
  function WantedMargins(s: Screen, buf: string): Option<(int, int)> {
    if |Parts(buf)| == 2 then
      Some((ScanInto(Parts(buf)[0], 1) - 1, ScanInto(Parts(buf)[1], s.rows) - 1))
    else if buf == "" then Some((0, s.rows - 1))
    else if |Parts(buf)| == 1 then Some((ScanInto(Parts(buf)[0], 1) - 1, s.rows - 1))
    else None
  }

  /** The margins asked for lie on the screen, or are ignored because they are not a region. */
  predicate MarginsFit(s: Screen, buf: string) {
    var m := WantedMargins(s, buf);
    m.Some? && m.value.1 > m.value.0 ==> 0 <= m.value.0 && m.value.1 < s.rows
  }

  /** DECSTBM. The source compares the margins with each other only. */
  function SetMargins(s: Screen, buf: string): (t: Screen)
    requires ScreenOk(s)
    ensures ScreenOk(t) <==> MarginsFit(s, buf)
    ensures SameLog(s, t) && t.grid == s.grid
  {
    var m := WantedMargins(s, buf);
    if m.Some? && m.value.1 > m.value.0
    then s.(top := m.value.0, bottom := m.value.1, row := m.value.0, col := 0)
    else s
  }

  // --------------------------------------------------------------- style and reports

  /** SGR; XTMODKEYS (a leading '>') is ignored. */
  function Rendition(s: Screen, buf: string): (t: Option<Screen>)
    requires ScreenOk(s)
    ensures t.Some? ==> ScreenOk(t.value) && SameLog(s, t.value) && t.value.grid == s.grid
    ensures t.None? <==> !(buf != "" && buf[0] == '>') && !Sgr.Numeric(Parts(buf))
  {
    Sgr.DefinedIffNumeric(Parts(buf), s.style);
    Sgr.KeepsWeight(Parts(buf), s.style);
    if buf != "" && buf[0] == '>' then Some(s)
    else
      var st := Sgr.Apply(Parts(buf), s.style);
      if st.None? then None else Some(s.(style := st.value))
  }

  /** The body of a cursor position report. */
  function Report(s: Screen): string
    requires s.row >= 0 && s.col >= 0
  {
    Dec(s.row + 1) + ";" + Dec(s.col + 1)
  }

  /** DA. */
  function DeviceAttributes(s: Screen, buf: string): (t: Screen)
    requires ScreenOk(s)
    ensures ScreenOk(t) && SameLog(s, t) && t.grid == s.grid
  {
    if buf == "" || buf == "0" then Write(s, [ESCAPE] + "[?1;2c")
    else if buf == ">" || buf == ">0" then Write(s, [ESCAPE] + "[>0;276;0c")
    else s
  }

  /** DSR. */
  function DeviceStatus(s: Screen, buf: string): (t: Screen)
    requires ScreenOk(s)
    ensures ScreenOk(t) && SameLog(s, t) && t.grid == s.grid
  {
    if buf == "5" then Write(s, [ESCAPE] + "[0n")
    else if buf == "6" then Write(s, [ESCAPE] + "[" + Report(s) + "R")
    else s
  }

  // ------------------------------------------------------------------- dispatching

  predicate IsFinal(b: char) { '@' <= b <= '~' }

  predicate IsParameter(b: char) { ' ' <= b <= '?' }

  /** Final bytes that only move the cursor. */
  function Motion(s: Screen, buf: string, b: char): (t: Screen)
    requires ScreenOk(s)
    ensures ScreenOk(t) && SameLog(s, t) && t.grid == s.grid
  {
    if b == 'A' then CursorUp(s, buf)
    else if b == 'B' then CursorDown(s, buf)
    else if b == 'C' then CursorAcross(s, buf, 1)
    else if b == 'D' then CursorAcross(s, buf, -1)
    else if b == 'E' then CursorLine(s, buf, 1)
    else if b == 'F' then CursorLine(s, buf, -1)
    else if b == 'G' then CursorColumn(s, buf)
    else if b == 'H' then CursorPosition(s, buf)
    else if b == 'd' then CursorRow(s, buf)
    else if b == 'f' then FormatPosition(s, buf)
    else s
  }

  /** The copy loops read cells of the screen only. */
  predicate EditReads(s: Screen, buf: string, b: char) {
    && (b == 'J' && buf == "1" ==> s.col < s.cols)
    && (b == 'L' ==> InsertLinesReads(s, Count(buf)))
    && (b == 'M' ==> DeleteLinesReads(s, Count(buf)))
    && (b == 'P' ==> DeleteCharsReads(s, Count(buf)))
    && (b == 'S' ==> ScrollUpReads(s, Count(buf)))
    && (b == '@' ==> InsertCharsReads(s, buf))
  }

  predicate EditSafe(s: Screen, buf: string, b: char)
    requires ScreenOk(s)
  {
    EditReads(s, buf, b) && (b == 'P' ==> TailStaysOff(s, Count(buf)))
  }

  /** Final bytes that change cells. */
  function Edit(s: Screen, buf: string, b: char): (t: Option<Screen>)
    requires ScreenOk(s)
    ensures EditSafe(s, buf, b) <==> t.Some? && ScreenOk(t.value)
    ensures t.Some? ==> SameLog(s, t.value)
  {
    if !EditReads(s, buf, b) then None
    else if b == 'J' then EraseDisplay(s, buf)
    else if b == 'K' then Some(EraseLine(s, buf))
    else if b == 'L' then Some(InsertLines(s, Count(buf)))
    else if b == 'M' then Some(DeleteLines(s, Count(buf)))
    else if b == 'P' then Some(DeleteChars(s, Count(buf)))
    else if b == 'S' then Some(ScrollUp(s, Count(buf)))
    else if b == 'X' then Some(EraseChars(s, buf))
    else if b == '@' then Some(InsertChars(s, buf))
    else Some(s)
  }

  predicate SettingSafe(s: Screen, buf: string, b: char)
    requires ScreenOk(s)
  {
    && (b == 'g' && ReadInt(buf, 0) == 0 ==> s.col < s.cols)
    && (b == 'm' && !(buf != "" && buf[0] == '>') ==> Sgr.Numeric(Parts(buf)))
    && (b == 'r' ==> MarginsFit(s, buf))
  }

  /** Final bytes that change modes, margins, tab stops or style, or ask for a report. */
  function Setting(s: Screen, buf: string, b: char): (t: Option<Screen>)
    requires ScreenOk(s)
    ensures SettingSafe(s, buf, b) <==> t.Some? && ScreenOk(t.value)
    ensures t.Some? ==> SameLog(s, t.value)
  {
    if b == 'c' then Some(DeviceAttributes(s, buf))
    else if b == 'g' then ClearTabs(s, buf)
    else if b == 'h' then Some(SwitchModes(s, buf, true))
    else if b == 'l' then Some(SwitchModes(s, buf, false))
    else if b == 'm' then Rendition(s, buf)
    else if b == 'n' then Some(DeviceStatus(s, buf))
    else if b == 'r' then Some(SetMargins(s, buf))
    else Some(s)
  }

  predicate IsMotion(b: char) { b in "ABCDEFGHdf" }

  predicate IsEdit(b: char) { b in "JKLMPSX@" }

  // ---------------------------------------------------------------- integer arithmetic

  /** Numbers read and sums made by a cursor motion are `int`s. */
  predicate MotionFits(s: Screen, buf: string, b: char)
    requires ScreenOk(s)
  {
    var n := Count(buf);
    && (b in "ABCDEFG" ==> CountReadable(buf))
    && (b == 'A' ==> MoveFits(s, UpBy(s, n)))
    && (b == 'B' ==> MoveFits(s, DownBy(s, n)))
    && (b == 'C' ==> IsInt(s.col + Max(n, 1)))
    && (b == 'D' ==> IsInt(s.col - Max(n, 1)))
    && (b == 'E' ==> IsInt(s.row + n))
    && (b == 'F' ==> IsInt(s.row - n))
    && (b == 'G' ==> IsInt(n - 1))
    && (b in "Hf" && |Parts(buf)| == 2 ==> CoordinateFits(Parts(buf)[0]) && CoordinateFits(Parts(buf)[1]))
    && (b == 'H' && |Parts(buf)| == 1 ==> CoordinateFits(Parts(buf)[0]))
    && (b == 'd' ==> CoordinateFits(buf))
  }

  /** The same for the loops over rows and cells; the largest sum is made at the last place. */
  predicate EditFits(s: Screen, buf: string, b: char) {
    var n := Count(buf);
    && (b in "LMPSX" || (b == '@' && EndsInDigit(buf)) ==> CountReadable(buf))
    && (b == 'M' && InRegion(s) ==> IsInt(s.bottom + n))
    && (b == 'S' ==> IsInt(s.bottom + n))
    && (b == 'P' && s.col < s.cols ==> IsInt(s.cols - 1 + n))
    && (b == 'X' ==> IsInt(s.col + n))
  }

  predicate SettingFits(buf: string, b: char) {
    && (b == 'g' ==> CountReadable(buf))
    && (b == 'r' && |Parts(buf)| == 2 ==> CoordinateFits(Parts(buf)[0]) && CoordinateFits(Parts(buf)[1]))
    && (b == 'r' && |Parts(buf)| == 1 ==> CoordinateFits(Parts(buf)[0]))
  }

  /** No number read is too large, and no sum of the handler overflows. */
  predicate IntsFit(s: Screen, buf: string, b: char)
    requires ScreenOk(s)
  {
    MotionFits(s, buf, b) && EditFits(s, buf, b) && SettingFits(buf, b)
  }

  /** What a final byte must satisfy for `HandleCSI` to stay defined, inside the screen and the invariant. */
  predicate Admissible(s: Screen, buf: string, b: char)
    requires ScreenOk(s)
  {
    IntsFit(s, buf, b) && EditSafe(s, buf, b) && SettingSafe(s, buf, b)
  }

  /** Final bytes of one kind meet the conditions of the others. */
  lemma OnlyTheirBytes(s: Screen, buf: string, b: char)
    requires ScreenOk(s)
    ensures !IsEdit(b) ==> EditSafe(s, buf, b)
    ensures IsMotion(b) || IsEdit(b) ==> SettingSafe(s, buf, b)
  {
  }

  /** The effect of a final byte; `None` where the source overflows, reads out of range or throws. */
  function Final(s: Screen, buf: string, b: char): (t: Option<Screen>)
    requires ScreenOk(s)
    ensures Admissible(s, buf, b) <==> t.Some? && ScreenOk(t.value)
    ensures t.Some? ==> SameLog(s, t.value)
  {
    hide IntsFit, EditSafe, SettingSafe, ScreenOk, SameLog;
    OnlyTheirBytes(s, buf, b);
    if !IntsFit(s, buf, b) then None
    else if IsMotion(b) then Some(Motion(s, buf, b))
    else if IsEdit(b) then Edit(s, buf, b)
    else Setting(s, buf, b)
  }

  /** Every parameter has at most nine characters. */
  predicate ShortParameters(buf: string) {
    forall i :: 0 <= i < |Parts(buf)| ==> |Parts(buf)[i]| <= 9
  }

  lemma ShortScan(buf: string)
    requires ShortParameters(buf)
    ensures Scan(buf).Some? ==> -1_000_000_000 < Scan(buf).value < 1_000_000_000
    ensures -1_000_000_000 < Count(buf) < 1_000_000_000
    ensures forall i :: 0 <= i < |Parts(buf)| ==> CoordinateFits(Parts(buf)[i])
  {
    hide Scan, Split;
    ScanHead(buf);
    ScanFits(Parts(buf)[0]);
    forall i | 0 <= i < |Parts(buf)| ensures CoordinateFits(Parts(buf)[i]) {
      ScanFits(Parts(buf)[i]);
    }
  }

  lemma ScanHeadFits(buf: string)
    requires ShortParameters(buf)
    ensures CoordinateFits(buf)
  {
    hide Split;
    ScanHead(buf);
    ShortScan(buf);
  }

  /** On a screen of up to 500 million rows and columns, short parameters never overflow. */
  lemma ShortParametersFit(s: Screen, buf: string, b: char)
    requires ScreenOk(s) && s.rows <= 500_000_000 && s.cols <= 500_000_000
    requires ShortParameters(buf)
    ensures IntsFit(s, buf, b)
  {
    hide Scan, Split, Count, GridOk, CoordinateFits;
    ShortScan(buf);
    assert CountReadable(buf);
    ScanHeadFits(buf);
  }
}
