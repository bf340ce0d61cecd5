/** `Parse` as a function from state and byte to state, its runs, and their safety. */
module Parser {
  import opened Sequences
  import opened Text
  import opened Cells
  import opened Display
  import Utf8
  import Csi

  datatype EscapeState = Idle | Esc | Csi | Osc | Dcs

  /** A snapshot of `terminal_context`: the byte parser and the screen. */
  datatype Term = Term(esc: EscapeState, buf: string, utf8: Utf8.Decoder, scr: Screen)

  const ESCAPE: char := Csi.ESCAPE
  const BEL: char := '\U{0007}'
  const CAN: char := '\U{0018}'

  predicate ParserOk(s: Term) {
    && (s.esc != Idle ==> s.utf8.state == Utf8.Initial)
    && Utf8.InRange(s.utf8)
  }

  /** The invariant of the whole machine. */
  predicate Inv(s: Term) { ParserOk(s) && ScreenOk(s.scr) }

  /** A fresh terminal of the given size. */
  function Fresh(online: bool, rows: nat, cols: nat): (t: Term)
    requires Side(rows) && Side(cols)
    ensures Inv(t)
  {
    FreshOk(online, rows, cols);
    Term(Idle, "", Utf8.Decoder(Utf8.Initial, 0), Resize(NewScreen(online), rows, cols))
  }

  // ------------------------------------------------------------------- ESC sequences

  /** ESC A, B, C, E and 8: cursor motion within the screen. */
  function EscCursor(s: Screen, b: char): (t: Screen)
    requires ScreenOk(s)
    ensures ScreenOk(t) && SameLog(s, t) && t.grid == s.grid
  {
    if b == 'A' then CursorTo(s, s.row - 1, s.col, s.style)
    else if b == 'B' then CursorTo(s, s.row + 1, s.col, s.style)
    else if b == 'C' then CursorTo(s, s.row, s.col + 1, s.style)
    else if b == 'E' then CursorTo(s, s.row + 1, 0, s.style)
    else if b == '8' then CursorTo(s, s.saveRow, s.saveCol, s.saveStyle)
    else s
  }

  /** Cursor and style set, then `ClampCursor`. */
  function CursorTo(s: Screen, row: int, col: int, style: Style): (t: Screen)
    requires ScreenOk(s) && WeightOk(style)
    ensures ScreenOk(t) && SameLog(s, t) && t.grid == s.grid
  {
    Clamp(s.(row := row, col := col, style := style))
  }

  /** Two-byte sequences that act on the screen; unknown ones do nothing. */
  function EscAction(s: Screen, b: char): (t: Screen)
    requires ScreenOk(s)
    ensures ScreenOk(t) && LogGrows(s, t)
  {
    if b == 'D' then LineFeed(s)
    else if b == 'M' then ReverseIndex(s)
    else if b == '7' then s.(saveRow := s.row, saveCol := s.col, saveStyle := s.style)
    else EscCursor(s, b)
  }

  /** The effect of a byte that ends an ESC sequence. */
  function EscEnd(s: Screen, buf: string, b: char): (t: Screen)
    requires ScreenOk(s)
    ensures ScreenOk(t) && LogGrows(s, t)
  {
    if buf == "#" && b == '8' then AlignmentPattern(s)
    else if buf == "" then EscAction(s, b)
    else s
  }

  /** HTS. `None` where it would set a tab stop past the last column. */
  function SetTab(s: Screen): (t: Option<Screen>)
    requires ScreenOk(s)
    ensures t.Some? ==> ScreenOk(t.value) && SameLog(s, t.value)
    ensures t.None? <==> s.col == s.cols
  {
    if s.col == s.cols then None else Some(s.(tabs := s.tabs[s.col := true]))
  }

  function ToIdle(s: Term, scr: Screen): Term { s.(esc := Idle, scr := scr) }

  /** After ESC: a designator byte is collected, any other byte ends the sequence. */
  function EscRest(s: Term, b: char): (t: Term)
    requires Inv(s) && s.esc == Esc
    ensures Inv(t) && LogGrows(s.scr, t.scr)
  {
    if b == '#' || b == '(' || b == ')' then s.(buf := s.buf + [b])
    else ToIdle(s, EscEnd(s.scr, s.buf, b))
  }

  /** After ESC. */
  function EscByte(s: Term, b: char): (t: Option<Term>)
    requires Inv(s) && s.esc == Esc
    ensures t.Some? ==> Inv(t.value) && LogGrows(s.scr, t.value.scr)
    ensures t.None? <==> s.buf == "" && b == 'H' && s.scr.col == s.scr.cols
  {
    if s.buf == "" && b == '[' then Some(s.(esc := EscapeState.Csi))
    else if s.buf == "" && b == ']' then Some(s.(esc := Osc))
    else if s.buf == "" && b == 'P' then Some(s.(esc := Dcs))
    else if s.buf == "" && b == 'H' then
      var t := SetTab(s.scr);
      if t.None? then None else Some(ToIdle(s, t.value))
    else Some(EscRest(s, b))
  }

  // ------------------------------------------------------------------- CSI sequences

  /** `HandleCSI`. */
  function CsiByte(s: Term, b: char): (t: Option<Term>)
    requires Inv(s) && s.esc == EscapeState.Csi
    ensures CsiSafe(s, b) <==> t.Some? && Inv(t.value)
    ensures t.Some? ==> SameLog(s.scr, t.value.scr)
  {
    if Csi.IsFinal(b) then
      var t := Csi.Final(s.scr, s.buf, b);
      if t.None? then None else Some(ToIdle(s, t.value))
    else if Csi.IsParameter(b) then Some(s.(buf := s.buf + [b]))
    else Some(ToIdle(s, s.scr))
  }

  predicate CsiSafe(s: Term, b: char)
    requires Inv(s) && s.esc == EscapeState.Csi
  {
    Csi.IsFinal(b) ==> Csi.Admissible(s.scr, s.buf, b)
  }

  // ---------------------------------------------------------------- OSC, DCS strings

  predicate IsText(b: char) { b == ESCAPE || ' ' <= b < '\U{007F}' }

  /** The last accumulated byte was ESC, so a backslash completes the string terminator. */
  predicate EscapePending(buf: string) {
    buf != "" && buf[|buf| - 1] == ESCAPE
  }

  /** The screen apart from what a finished OSC may report: answers, copies and paste requests. */
  predicate SameButLogs(s: Screen, t: Screen) {
    s == t.(sent := s.sent, copies := s.copies, requests := s.requests)
  }

  /** At most one clipboard call was made. */
  predicate OneCall(s: Screen, t: Screen) {
    || NoCalls(s, t)
    || (t.requests == s.requests && |t.copies| == |s.copies| + 1 && s.copies <= t.copies)
    || (t.copies == s.copies && t.requests == s.requests + 1)
  }

  /** OSC closed by BEL: the clipboard commands. */
  function OscBell(s: Screen, buf: string): (t: Screen)
    requires ScreenOk(s)
    ensures ScreenOk(t) && SameButLogs(s, t) && OneCall(s, t)
  {
    var parts := Split(buf, ";");
    if |parts| == 3 && parts[0] == "52" && parts[1] == "c" then
      if parts[2] != "?" then s.(copies := s.copies + [parts[2]])
      else s.(requests := s.requests + 1)
    else s
  }

  /** OSC closed by ST: the colour queries. Both answers start with 10. */
  function OscTerminated(s: Screen, buf: string): (t: Screen)
    requires ScreenOk(s) && EscapePending(buf)
    ensures ScreenOk(t) && SameButLogs(s, t) && NoCalls(s, t)
  {
    var parts := Split(buf[..|buf| - 1], ";");
    if |parts| == 2 && parts[0] == "10" && parts[1] == "?" then
      Write(s, [ESCAPE] + "]10;rgb:0/0/0" + [ESCAPE] + "\\")
    else if |parts| == 2 && parts[0] == "11" && parts[1] == "?" then
      Write(s, [ESCAPE] + "]10;rgb:f/f/f" + [ESCAPE] + "\\")
    else s
  }

  function OscByte(s: Term, b: char): (t: Term)
    requires Inv(s) && s.esc == Osc
    ensures Inv(t) && t.scr.scrolled == s.scr.scrolled && OneCall(s.scr, t.scr) && StillShown(s.scr, t.scr)
  {
    if b == BEL then ToIdle(s, OscBell(s.scr, s.buf))
    else if b == '\\' && EscapePending(s.buf) then ToIdle(s, OscTerminated(s.scr, s.buf))
    else if IsText(b) then s.(buf := s.buf + [b])
    else ToIdle(s, s.scr)
  }

  function DcsByte(s: Term, b: char): (t: Term)
    requires Inv(s) && s.esc == Dcs
    ensures Inv(t) && SameLog(s.scr, t.scr)
  {
    if b == '\\' && EscapePending(s.buf) then ToIdle(s, s.scr)
    else if IsText(b) then s.(buf := s.buf + [b])
    else ToIdle(s, s.scr)
  }

  // ------------------------------------------------------------- outside of sequences

  predicate IsPrintable(b: char) { ' ' <= b <= '\U{007F}' }

  /** A one-byte character, with insert mode making room for it first. */
  function Print(w: Width, s: Screen, b: char): (t: Screen)
    requires ScreenOk(s) && IsPrintable(b)
    ensures ScreenOk(t) && LogGrows(s, t)
  {
    var u := if s.insert then OpenGap(s) else s;
    InsertPoint(w, u, b as nat)
  }

  /** C0 control characters that act on the screen. */
  function Control(s: Screen, b: char): (t: Screen)
    requires ScreenOk(s)
    ensures ScreenOk(t) && LogGrows(s, t)
  {
    if b == '\r' then s.(col := 0)
    else if b == '\n' then LineFeed(s)
    else if b == '\U{0008}' then s.(col := Max(s.col - 1, 0))
    else if b == '\t' then Tab(s)
    else s
  }

  /** A byte of a multi-byte character, or a byte that starts one. */
  function Multi(w: Width, s: Term, b: char): (t: Term)
    requires Inv(s) && s.esc == Idle
    ensures Inv(t) && LogGrows(s.scr, t.scr)
  {
    var o := Utf8.Feed(s.utf8, b as nat);
    Utf8.FeedInRange(s.utf8, b as nat);
    s.(utf8 := o.next, scr := if o.point.Some? then InsertPoint(w, s.scr, o.point.value) else s.scr)
  }

  function IdleByte(w: Width, s: Term, b: char): (t: Term)
    requires Inv(s) && s.esc == Idle
    ensures Inv(t) && LogGrows(s.scr, t.scr)
  {
    if s.utf8.state != Utf8.Initial || b > '\U{007F}' then Multi(w, s, b)
    else if b == ESCAPE then s.(buf := "", esc := Esc)
    else if IsPrintable(b) then s.(scr := Print(w, s.scr, b))
    else s.(scr := Control(s.scr, b))
  }

  /** `Parse`; `None` where the source overflows an `int`, indexes out of range or throws. */
  function Step(w: Width, s: Term, b: char): (t: Option<Term>)
    requires Inv(s)
    ensures t.Some? ==> s.scr.scrolled <= t.value.scr.scrolled && OneCall(s.scr, t.value.scr)
    ensures t.Some? ==> StillShown(s.scr, t.value.scr)
    ensures t.Some? && s.esc != Osc ==> LogGrows(s.scr, t.value.scr)
  {
    match s.esc
    case Esc => EscByte(s, b)
    case Csi => CsiByte(s, b)
    case Osc => Some(OscByte(s, b))
    case Dcs => Some(DcsByte(s, b))
    case Idle => Some(IdleByte(w, s, b))
  }

  /** What a caller has to know about the next byte: guards on the state, none on the outcome. */
  predicate Admissible(s: Term, b: char)
    requires Inv(s)
  {
    && (s.esc == Esc && s.buf == "" && b == 'H' ==> s.scr.col < s.scr.cols)
    && (s.esc == EscapeState.Csi ==> CsiSafe(s, b))
  }

  /**
   * Exact safety of one step. From every state of the invariant, a byte keeps all arithmetic
   * defined, all accesses in range and the invariant standing if and only if it is admissible.
   */
  lemma StepSafeIff(w: Width, s: Term, b: char)
    requires Inv(s)
    ensures Admissible(s, b) <==> Step(w, s, b).Some? && Inv(Step(w, s, b).value)
  {
  }

  /** A run that stops with `None` at the first unsafe step. */
  function Run(w: Width, s: Term, bytes: string): (t: Option<Term>)
    requires Inv(s)
    ensures t.Some? ==> Inv(t.value)
    decreases |bytes|
  {
    if bytes == "" then Some(s)
    else
      var u := Step(w, s, bytes[0]);
      if u.None? || !Inv(u.value) then None else Run(w, u.value, bytes[1..])
  }

  function Then(w: Width, s: Option<Term>, bytes: string): (t: Option<Term>)
    requires s.Some? ==> Inv(s.value)
  {
    if s.None? then None else Run(w, s.value, bytes)
  }

  lemma {:induction false} RunConcat(w: Width, s: Term, a: string, b: string)
    requires Inv(s)
    ensures Run(w, s, a + b) == Then(w, Run(w, s, a), b)
    decreases |a|
  {
    if a == "" {
      assert a + b == b;
    } else {
      assert (a + b)[0] == a[0] && (a + b)[1..] == a[1..] + b;
      var u := Step(w, s, a[0]);
      if u.Some? && Inv(u.value) {
        RunConcat(w, u.value, a[1..], b);
      }
    }
  }

  lemma RunCons(w: Width, s: Term, b: char, rest: string)
    requires Inv(s) && Step(w, s, b).Some? && Inv(Step(w, s, b).value)
    ensures Run(w, s, [b] + rest) == Run(w, Step(w, s, b).value, rest)
  {
    assert ([b] + rest)[1..] == rest;
  }

  lemma RunLast(w: Width, s: Term, b: char)
    requires Inv(s)
    ensures var u := Step(w, s, b);
            Run(w, s, [b]) == if u.Some? && Inv(u.value) then u else None
  {
    assert [b][1..] == "";
  }

  lemma RunFirst(w: Width, s: Term, bytes: string)
    requires Inv(s) && bytes != "" && Run(w, s, bytes).Some?
    ensures var t := Step(w, s, bytes[0]);
            t.Some? && Inv(t.value) && Run(w, s, bytes) == Run(w, t.value, bytes[1..])
  {
  }

  lemma RunOne(w: Width, s: Term, b: char)
    requires Inv(s) && Step(w, s, b).Some? && Inv(Step(w, s, b).value)
    ensures Run(w, s, [b]) == Step(w, s, b)
  {
    var u := Step(w, s, b).value;
    assert [b][1..] == "";
    assert Run(w, u, "") == Some(u);
  }

  /** Each byte of the run is admissible in the state the bytes before it lead to. */
  predicate AdmissibleRun(w: Width, s: Term, bytes: string)
    requires Inv(s)
  {
    forall k :: 0 <= k < |bytes| ==>
      var t := Run(w, s, bytes[..k]);
      t.Some? ==> Admissible(t.value, bytes[k])
  }

  lemma RunSnoc(w: Width, s: Term, a: string, b: char)
    requires Inv(s)
    ensures var t := Run(w, s, a);
            Run(w, s, a + [b]) ==
            if t.Some? && Step(w, t.value, b).Some? && Inv(Step(w, t.value, b).value)
            then Step(w, t.value, b) else None
  {
    hide Step;
    RunConcat(w, s, a, [b]);
    if Run(w, s, a).Some? {
      RunLast(w, Run(w, s, a).value, b);
    }
  }

  /**
   * Whole-machine safety, exactly: from any state of the invariant, a byte stream stays on the
   * screen and in the invariant to its end if and only if each of its bytes is admissible where
   * it arrives.
   */
  lemma {:induction false} RunSafeIff(w: Width, s: Term, bytes: string)
    requires Inv(s)
    ensures Run(w, s, bytes).Some? <==> AdmissibleRun(w, s, bytes)
    decreases |bytes|
  {
    hide Step, Admissible, Run;
    if bytes == "" {
      RunNothing(w, s);
    } else {
      var n := |bytes| - 1;
      var a := bytes[..n];
      assert bytes == a + [bytes[n]];
      assert forall k :: 0 <= k <= n ==> a[..k] == bytes[..k];
      assert forall k :: 0 <= k < n ==> a[k] == bytes[k];
      RunSafeIff(w, s, a);
      RunSnoc(w, s, a, bytes[n]);
      if Run(w, s, a).Some? {
        StepSafeIff(w, Run(w, s, a).value, bytes[n]);
      }
      assert AdmissibleRun(w, s, bytes) <==>
             AdmissibleRun(w, s, a) && (Run(w, s, a).Some? ==> Admissible(Run(w, s, a).value, bytes[n]));
    }
  }

  lemma RunNothing(w: Width, s: Term)
    requires Inv(s)
    ensures Run(w, s, "") == Some(s)
  {
  }

  // -------------------------------------------------------------------- paste requests

  /** The command that asks for the clipboard. */
  predicate Asks(buf: string) { Split(buf, ";") == ["52", "c", "?"] }

  /** The byte completes such a command. */
  predicate RequestsPaste(s: Term, b: char) { s.esc == Osc && b == BEL && Asks(s.buf) }

  /** It is the only byte that makes a request, and it makes one. */
  lemma RequestCounted(w: Width, s: Term, b: char)
    requires Inv(s) && Step(w, s, b).Some?
    ensures Step(w, s, b).value.scr.requests == s.scr.requests + if RequestsPaste(s, b) then 1 else 0
  {
    hide Split, EscByte, CsiByte, DcsByte, IdleByte, ScreenOk, OscTerminated;
    if s.esc == Osc && b == BEL {
      var parts := Split(s.buf, ";");
      assert parts == ["52", "c", "?"] <==> |parts| == 3 && parts[0] == "52" && parts[1] == "c" && parts[2] == "?";
    }
  }

  /** The requests made by a run. */
  function RequestsMade(w: Width, s: Term, bytes: string): int
    requires Inv(s)
  {
    if Run(w, s, bytes).Some? then Run(w, s, bytes).value.scr.requests - s.scr.requests else 0
  }

  lemma {:induction false} RequestsGrow(w: Width, s: Term, bytes: string)
    requires Inv(s) && Run(w, s, bytes).Some?
    ensures s.scr.requests <= Run(w, s, bytes).value.scr.requests
    decreases |bytes|
  {
    hide Step, Run, Inv;
    if bytes == "" {
      RunNothing(w, s);
    } else {
      RunFirst(w, s, bytes);
      RequestsGrow(w, Step(w, s, bytes[0]).value, bytes[1..]);
    }
  }

  /** A request at one byte is among those the whole run makes. */
  lemma RequestFits(w: Width, s: Term, bytes: string, i: nat)
    requires Inv(s) && i < |bytes| && Run(w, s, bytes).Some?
    ensures var t := Run(w, s, bytes[..i]);
            t.Some? && (RequestsPaste(t.value, bytes[i]) ==>
                          t.value.scr.requests + 1 <= Run(w, s, bytes).value.scr.requests)
  {
    hide Step, Run, Inv, Asks;
    assert bytes == bytes[..i] + bytes[i..];
    RunConcat(w, s, bytes[..i], bytes[i..]);
    var t := Run(w, s, bytes[..i]).value;
    RunFirst(w, t, bytes[i..]);
    RequestCounted(w, t, bytes[i]);
    RequestsGrow(w, Step(w, t, bytes[i]).value, bytes[i..][1..]);
  }

  /** Text without escape sequences, valid UTF-8 or not, is safe on every screen. */
  lemma {:induction false} PlainTextIsSafe(w: Width, s: Term, bytes: string)
    requires Inv(s) && s.esc == Idle && ESCAPE !in bytes
    ensures Run(w, s, bytes).Some? && Run(w, s, bytes).value.esc == Idle
    decreases |bytes|
  {
    if bytes != "" {
      PlainTextIsSafe(w, IdleByte(w, s, bytes[0]), bytes[1..]);
    }
  }
}
