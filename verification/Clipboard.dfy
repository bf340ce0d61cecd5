/** The clipboard, end to end: from the bytes of the pty to the answers the UI gets. */
module Clipboard {
  import opened Text
  import opened Display
  import opened Parser
  import opened Reports
  import Utf8
  import C = Csi
  import Pasteboard
  import Printing

  // ------------------------------------------------------------------------- streams

  /**
   * What a well-formed stream is made of: plain text, two-byte escape sequences and those with
   * designators, control sequences, commands closed by BEL or by ST, and device control strings.
   */
  datatype Segment =
    | Plain(text: string)
    | EscapeSequence(final: char)
    | Designation(marks: string, final: char)
    | ControlSequence(params: string, final: char)
    | Command(text: string)
    | Terminated(text: string)
    | Device(text: string)

  const START := Utf8.Decoder(Utf8.Initial, 0)

  /** Plain text holds no ESC and does not stop inside a character. */
  predicate WellFormed(g: Segment) {
    match g
    case Plain(text) => ESCAPE !in text && Utf8.After(START, Printing.Bytes(text)).state == Utf8.Initial
    case EscapeSequence(b) => b !in "[]P#()"
    case Designation(marks, b) => Marks(marks) && marks != "" && b !in "#()"
    case ControlSequence(params, b) => Parameters(params) && C.IsFinal(b)
    case Command(text) => Printable(text)
    case Terminated(text) => Printable(text)
    case Device(text) => Printable(text)
  }

  predicate Marks(marks: string) {
    forall i :: 0 <= i < |marks| ==> marks[i] in "#()"
  }

  predicate AllWellFormed(gs: seq<Segment>) {
    forall i :: 0 <= i < |gs| ==> WellFormed(gs[i])
  }

  function Spelled(g: Segment): string {
    match g
    case Plain(text) => text
    case EscapeSequence(b) => [ESCAPE, b]
    case Designation(marks, b) => [ESCAPE] + marks + [b]
    case ControlSequence(params, b) => [ESCAPE, '['] + params + [b]
    case Command(text) => [ESCAPE, ']'] + text + [BEL]
    case Terminated(text) => [ESCAPE, ']'] + text + [ESCAPE, '\\']
    case Device(text) => [ESCAPE, 'P'] + text + [ESCAPE, '\\']
  }

  function Stream(gs: seq<Segment>): string {
    if gs == [] then "" else Spelled(gs[0]) + Stream(gs[1..])
  }

  /** The payload a segment submits to the clipboard: that of an OSC 52 command other than the query. */
  function Payloads(g: Segment): seq<string> {
    if !g.Command? then []
    else
      var parts := Split(g.text, ";");
      if |parts| == 3 && parts[0] == "52" && parts[1] == "c" && parts[2] != "?" then [parts[2]] else []
  }

  function AllPayloads(gs: seq<Segment>): seq<string> {
    if gs == [] then [] else Payloads(gs[0]) + AllPayloads(gs[1..])
  }

  /** What the decoder does next does not depend on a stale accumulator. */
  lemma {:induction false} AfterState(d: Utf8.Decoder, e: Utf8.Decoder, b: seq<nat>)
    requires d.state == e.state
    ensures Utf8.After(d, b).state == Utf8.After(e, b).state
    decreases |b|
  {
    if b != [] {
      AfterState(Utf8.Feed(d, b[0]).next, Utf8.Feed(e, b[0]).next, b[1..]);
    }
  }

  lemma PlainStep(w: Width, s: Term, b: char)
    requires Inv(s) && s.esc == Idle && b != ESCAPE
    ensures var t := IdleByte(w, s, b);
            Step(w, s, b) == Some(t) && Inv(t) && t.esc == Idle && NoCalls(s.scr, t.scr)
            && t.utf8.state == Utf8.Feed(s.utf8, b as nat).next.state
  {
    hide InsertPoint, Print, Control, Utf8.InRange, ScreenOk;
  }

  /** Plain text is safe, ends where the decoder alone would end, and leaves the clipboard alone. */
  lemma {:induction false} RunPlain(w: Width, s: Term, text: string)
    requires Inv(s) && s.esc == Idle && ESCAPE !in text
    ensures var t := Run(w, s, text);
            t.Some? && t.value.esc == Idle && NoCalls(s.scr, t.value.scr)
            && t.value.utf8.state == Utf8.After(s.utf8, Printing.Bytes(text)).state
    decreases |text|
  {
    hide Run, Step, IdleByte;
    if text == "" {
      RunNothing(w, s);
    } else {
      var b := Printing.Bytes(text);
      assert b[0] == text[0] as nat && b[1..] == Printing.Bytes(text[1..]);
      PlainStep(w, s, text[0]);
      var t := IdleByte(w, s, text[0]);
      assert text == [text[0]] + text[1..];
      RunCons(w, s, text[0], text[1..]);
      RunPlain(w, t, text[1..]);
      AfterState(t.utf8, Utf8.Feed(s.utf8, b[0]).next, b[1..]);
    }
  }

  lemma RunEscape(w: Width, s: Term, b: char)
    requires Inv(s) && s.esc == Idle && s.utf8.state == Utf8.Initial && b !in "[]P#()"
    ensures var t := Run(w, s, [ESCAPE, b]);
            t.Some? ==> t.value.esc == Idle && t.value.utf8 == s.utf8 && NoCalls(s.scr, t.value.scr)
  {
    hide Run, ScreenOk, Utf8.InRange, EscEnd, SetTab;
    var t := s.(esc := Esc, buf := "");
    assert Step(w, s, ESCAPE) == Some(t);
    RunCons(w, s, ESCAPE, [b]);
    RunLast(w, t, b);
    assert [ESCAPE, b] == [ESCAPE] + [b];
    assert Step(w, t, b) == EscByte(t, b);
  }

  lemma {:induction false} RunMarks(w: Width, s: Term, marks: string)
    requires Inv(s) && s.esc == Esc && Marks(marks)
    ensures Run(w, s, marks) == Some(s.(buf := s.buf + marks))
    decreases |marks|
  {
    hide ScreenOk, Utf8.InRange, EscEnd, SetTab;
    if marks == "" {
      assert s.buf + marks == s.buf;
    } else {
      var t := s.(buf := s.buf + [marks[0]]);
      assert Step(w, s, marks[0]) == Some(t);
      RunMarks(w, t, marks[1..]);
      assert s.buf + [marks[0]] + marks[1..] == s.buf + marks;
    }
  }

  lemma RunDesignation(w: Width, s: Term, marks: string, b: char)
    requires Inv(s) && s.esc == Idle && s.utf8.state == Utf8.Initial
    requires Marks(marks) && marks != "" && b !in "#()"
    ensures var t := Run(w, s, [ESCAPE] + marks + [b]);
            t.Some? && t.value.esc == Idle && t.value.utf8 == s.utf8 && NoCalls(s.scr, t.value.scr)
  {
    hide Run, ScreenOk, Utf8.InRange, EscEnd, SetTab;
    var t := s.(esc := Esc, buf := "");
    var u := t.(buf := t.buf + marks);
    assert Step(w, s, ESCAPE) == Some(t);
    RunOne(w, s, ESCAPE);
    RunMarks(w, t, marks);
    RunConcat(w, s, [ESCAPE], marks);
    assert u.buf != "" && Step(w, u, b) == Some(EscRest(u, b));
    RunLast(w, u, b);
    RunConcat(w, s, [ESCAPE] + marks, [b]);
  }

  lemma {:induction false} RunDcsText(w: Width, s: Term, text: string)
    requires Inv(s) && s.esc == Dcs && Printable(s.buf) && Printable(text)
    ensures Run(w, s, text) == Some(s.(buf := s.buf + text))
    decreases |text|
  {
    hide ScreenOk, Utf8.InRange;
    if text == "" {
      assert s.buf + text == s.buf;
    } else {
      var t := s.(buf := s.buf + [text[0]]);
      assert !EscapePending(s.buf);
      assert Step(w, s, text[0]) == Some(t);
      RunDcsText(w, t, text[1..]);
      assert s.buf + [text[0]] + text[1..] == s.buf + text;
    }
  }

  lemma RunDevice(w: Width, s: Term, text: string)
    requires Inv(s) && s.esc == Idle && s.utf8.state == Utf8.Initial && Printable(text)
    ensures Run(w, s, [ESCAPE, 'P'] + text + [ESCAPE, '\\']) == Some(s.(buf := text + [ESCAPE]))
  {
    hide Run, ScreenOk, Utf8.InRange, EscEnd, SetTab;
    var t := s.(esc := Esc, buf := "");
    var u := s.(esc := Dcs, buf := "");
    assert Step(w, s, ESCAPE) == Some(t);
    assert Step(w, t, 'P') == Some(u);
    RunCons(w, s, ESCAPE, ['P']);
    RunOne(w, t, 'P');
    assert [ESCAPE, 'P'] == [ESCAPE] + ['P'];
    RunDcsText(w, u, text);
    assert u.buf + text == text;
    RunConcat(w, s, [ESCAPE, 'P'], text);
    var v := u.(buf := text);
    DeviceEnds(w, v);
    RunConcat(w, s, [ESCAPE, 'P'] + text, [ESCAPE, '\\']);
    assert v.(esc := Idle, buf := text + [ESCAPE]) == s.(buf := text + [ESCAPE]);
  }

  lemma DeviceEnds(w: Width, v: Term)
    requires Inv(v) && v.esc == Dcs
    ensures Run(w, v, [ESCAPE, '\\']) == Some(v.(esc := Idle, buf := v.buf + [ESCAPE]))
  {
    hide Run, ScreenOk, Utf8.InRange;
    var u := v.(buf := v.buf + [ESCAPE]);
    assert Step(w, v, ESCAPE) == Some(u);
    assert Step(w, u, '\\') == Some(ToIdle(u, u.scr));
    RunCons(w, v, ESCAPE, ['\\']);
    RunOne(w, u, '\\');
    assert [ESCAPE, '\\'] == [ESCAPE] + ['\\'];
  }

  /** One segment: the parser is idle again, and the clipboard got exactly its payload. */
  lemma RunSegment(w: Width, s: Term, g: Segment)
    requires Inv(s) && s.esc == Idle && s.utf8.state == Utf8.Initial && WellFormed(g)
    ensures var t := Run(w, s, Spelled(g));
            t.Some? ==>
              t.value.esc == Idle && t.value.utf8.state == Utf8.Initial
              && t.value.scr.copies == s.scr.copies + Payloads(g)
  {
    hide Run, ScreenOk, Utf8.InRange, Utf8.After, C.Final, C.Admissible, Split;
    match g
    case Plain(text) =>
      RunPlain(w, s, text);
      AfterState(s.utf8, START, Printing.Bytes(text));
    case EscapeSequence(b) =>
      RunEscape(w, s, b);
    case Designation(marks, b) =>
      RunDesignation(w, s, marks, b);
    case ControlSequence(params, b) =>
      RunSequence(w, s, params, b);
    case Command(text) =>
      RunCommand(w, s, text);
    case Terminated(text) =>
      RunQuery(w, s, text);
    case Device(text) =>
      RunDevice(w, s, text);
  }

  /** A well-formed stream copies the payloads of its OSC 52 commands, in order, and nothing else. */
  lemma {:induction false} RunStream(w: Width, s: Term, gs: seq<Segment>)
    requires Inv(s) && s.esc == Idle && s.utf8.state == Utf8.Initial
    requires AllWellFormed(gs)
    requires Run(w, s, Stream(gs)).Some?
    ensures Run(w, s, Stream(gs)).value.scr.copies == s.scr.copies + AllPayloads(gs)
    decreases |gs|
  {
    hide Run, WellFormed, Spelled, Payloads;
    if gs == [] {
      RunNothing(w, s);
    } else {
      RunConcat(w, s, Spelled(gs[0]), Stream(gs[1..]));
      RunSegment(w, s, gs[0]);
      var t := Run(w, s, Spelled(gs[0])).value;
      RunStream(w, t, gs[1..]);
      assert s.scr.copies + Payloads(gs[0]) + AllPayloads(gs[1..]) == s.scr.copies + AllPayloads(gs);
    }
  }

  // ------------------------------------------------------- terminal, worker and UI together

  /** One atomic step of the program: the terminal parses a byte, or another thread's critical section. */
  datatype Event = Feed(byte: char) | Board(event: Pasteboard.Event)

  /** The clipboard calls a step of the terminal made. */
  function Calls(s: Screen, t: Screen): (calls: seq<Pasteboard.Event>)
    requires OneCall(s, t)
    ensures s.copies + Pasteboard.Copied(calls) == t.copies
    ensures s.requests + Pasteboard.Requested(calls) == t.requests
  {
    if |t.copies| > |s.copies| then [Pasteboard.Copy(t.copies[|s.copies|])]
    else if t.requests > s.requests then [Pasteboard.RequestPaste]
    else []
  }

  function BytesOf(es: seq<Event>): string {
    if es == [] then "" else (if es[0].Feed? then [es[0].byte] else "") + BytesOf(es[1..])
  }

  /** The schedule of critical sections that a schedule of the whole program performs. */
  function Sections(w: Width, s: Term, es: seq<Event>): seq<Pasteboard.Event>
    requires Inv(s)
    decreases |es|
  {
    if es == [] then []
    else if es[0].Board? then [es[0].event] + Sections(w, s, es[1..])
    else
      var t := Step(w, s, es[0].byte);
      if t.None? || !Inv(t.value) then []
      else Calls(s.scr, t.value.scr) + Sections(w, t.value, es[1..])
  }

  /** Other threads fetch and push; only the terminal itself copies and requests. */
  predicate OthersOnly(es: seq<Event>) {
    forall i :: 0 <= i < |es| && es[i].Board? ==> !es[i].event.Copy? && !es[i].event.RequestPaste?
  }

  lemma {:induction false} SubmittedAppend(a: seq<Pasteboard.Event>, b: seq<Pasteboard.Event>)
    ensures Pasteboard.Copied(a + b) == Pasteboard.Copied(a) + Pasteboard.Copied(b)
    ensures Pasteboard.Requested(a + b) == Pasteboard.Requested(a) + Pasteboard.Requested(b)
    decreases |a|
  {
    if a == [] {
      assert a + b == b;
    } else {
      assert (a + b)[0] == a[0] && (a + b)[1..] == a[1..] + b;
      SubmittedAppend(a[1..], b);
    }
  }

  lemma SectionsOfByte(w: Width, s: Term, es: seq<Event>)
    requires Inv(s) && es != [] && es[0].Feed?
    requires Step(w, s, es[0].byte).Some? && Inv(Step(w, s, es[0].byte).value)
    ensures var t := Step(w, s, es[0].byte).value;
            Sections(w, s, es) == Calls(s.scr, t.scr) + Sections(w, t, es[1..])
  {
    hide Step, Inv, Calls;
  }

  lemma SectionsOfBoard(w: Width, s: Term, es: seq<Event>)
    requires Inv(s) && es != [] && es[0].Board? && OthersOnly(es)
    ensures Pasteboard.Copied(Sections(w, s, es)) == Pasteboard.Copied(Sections(w, s, es[1..]))
    ensures Pasteboard.Requested(Sections(w, s, es)) == Pasteboard.Requested(Sections(w, s, es[1..]))
  {
    hide Step, Inv, Calls;
    assert Sections(w, s, es)[1..] == Sections(w, s, es[1..]);
  }

  /** Under every interleaving the copies and requests submitted are those the bytes alone cause. */
  lemma {:induction false} SubmittedCalls(w: Width, s: Term, es: seq<Event>)
    requires Inv(s) && OthersOnly(es) && Run(w, s, BytesOf(es)).Some?
    ensures s.scr.copies + Pasteboard.Copied(Sections(w, s, es)) == Run(w, s, BytesOf(es)).value.scr.copies
    ensures s.scr.requests + Pasteboard.Requested(Sections(w, s, es)) == Run(w, s, BytesOf(es)).value.scr.requests
    decreases |es|
  {
    hide Step, Run, Inv, Sections, Calls;
    if es == [] {
      RunNothing(w, s);
      NoSections(w, s);
    } else {
      assert OthersOnly(es[1..]);
      if es[0].Board? {
        assert BytesOf(es) == BytesOf(es[1..]);
        SectionsOfBoard(w, s, es);
        SubmittedCalls(w, s, es[1..]);
      } else {
        assert BytesOf(es)[0] == es[0].byte && BytesOf(es)[1..] == BytesOf(es[1..]);
        RunFirst(w, s, BytesOf(es));
        var t := Step(w, s, es[0].byte).value;
        SectionsOfByte(w, s, es);
        SubmittedCalls(w, t, es[1..]);
        var calls, rest := Calls(s.scr, t.scr), Sections(w, t, es[1..]);
        SubmittedAppend(calls, rest);
        Regroup(s.scr.copies, Pasteboard.Copied(calls), Pasteboard.Copied(rest));
      }
    }
  }

  lemma Regroup(a: seq<string>, b: seq<string>, c: seq<string>)
    ensures a + (b + c) == a + b + c
  {
  }

  lemma NoSections(w: Width, s: Term)
    requires Inv(s)
    ensures Sections(w, s, []) == []
  {
  }

  const EMPTY := Pasteboard.Board([], 0, [])

  /**
   * Over any safe run, however the other threads interleave: copies delivered and still queued are,
   * in order, those the bytes submitted, and requests granted and still pending are those made.
   */
  lemma ClipboardConserved(w: Width, s: Term, es: seq<Event>)
    requires Inv(s) && OthersOnly(es) && Run(w, s, BytesOf(es)).Some?
    ensures var t := Run(w, s, BytesOf(es)).value.scr;
            var sections := Sections(w, s, es);
            var delivered := Pasteboard.Delivered(EMPTY, sections, Pasteboard.CheckCopy);
            && s.scr.copies + (delivered + Pasteboard.After(EMPTY, sections).copyQueue) == t.copies
            && s.scr.requests + Pasteboard.Granted(EMPTY, sections)
               + Pasteboard.After(EMPTY, sections).pasteRequests == t.requests
  {
    hide Run, Sections, Inv;
    var sections := Sections(w, s, es);
    SubmittedCalls(w, s, es);
    Pasteboard.CopiesConserved(EMPTY, sections);
    Pasteboard.RequestsConserved(EMPTY, sections);
    assert [] + Pasteboard.Copied(sections) == Pasteboard.Copied(sections);
  }

  /**
   * End to end: in any stream of plain text, sequences, commands and device control strings, under every
   * interleaving, the texts `CheckCopy` has returned are, in order, a prefix of the payloads of the
   * OSC 52 commands received, and the rest is still queued.
   */
  lemma CopiesArriveInOrder(w: Width, s: Term, gs: seq<Segment>, es: seq<Event>)
    requires Inv(s) && s.esc == Idle && s.utf8.state == Utf8.Initial
    requires AllWellFormed(gs)
    requires OthersOnly(es) && BytesOf(es) == Stream(gs) && Run(w, s, Stream(gs)).Some?
    ensures var sections := Sections(w, s, es);
            var delivered := Pasteboard.Delivered(EMPTY, sections, Pasteboard.CheckCopy);
            && delivered + Pasteboard.After(EMPTY, sections).copyQueue == AllPayloads(gs)
            && delivered <= AllPayloads(gs)
  {
    hide Run, Sections, Inv, WellFormed;
    var sections := Sections(w, s, es);
    var arrived := Pasteboard.Delivered(EMPTY, sections, Pasteboard.CheckCopy)
                   + Pasteboard.After(EMPTY, sections).copyQueue;
    RunStream(w, s, gs);
    ClipboardConserved(w, s, es);
    assert s.scr.copies + arrived == s.scr.copies + AllPayloads(gs);
    assert arrived == (s.scr.copies + arrived)[|s.scr.copies|..];
    assert AllPayloads(gs) == (s.scr.copies + AllPayloads(gs))[|s.scr.copies|..];
  }
}
