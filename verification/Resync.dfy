/** Control bytes leave the screen alone, and CAN makes the parser forget what came before. */
module Resync {
  import opened Text
  import opened Display
  import opened Parser
  import Utf8
  import C = Csi

  // ----------------------------------------------------------- bytes inside sequences

  /** Bytes of a sequence that is still open: parameters, and the text of OSC and DCS strings. */
  predicate Collected(s: Term, b: char) {
    || (s.esc == Csi && C.IsParameter(b))
    || (s.esc == Osc && IsText(b) && !(b == '\\' && EscapePending(s.buf)))
    || (s.esc == Dcs)
  }

  /** The screen: everything but the parser's own state. */
  lemma OscKeepsScreen(s: Term, b: char)
    requires Inv(s) && s.esc == Osc
    ensures SameButLogs(s.scr, OscByte(s, b).scr)
    ensures IsText(b) && !(b == '\\' && EscapePending(s.buf)) ==> OscByte(s, b).scr == s.scr
  {
  }

  /**
   * Parameters of a control sequence and the contents of OSC and DCS strings never touch the
   * screen; a finished OSC touches only what it reports.
   */
  lemma SequenceBytesKeepScreen(w: Width, s: Term, b: char)
    requires Inv(s)
    ensures Collected(s, b) ==> Step(w, s, b).Some? && Step(w, s, b).value.scr == s.scr
    ensures s.esc == Osc ==> Step(w, s, b).Some? && SameButLogs(s.scr, Step(w, s, b).value.scr)
  {
    if s.esc == Osc {
      OscKeepsScreen(s, b);
    } else if s.esc == Csi && C.IsParameter(b) {
      assert !C.IsFinal(b);
    }
  }

  // -------------------------------------------------------------------- forgetting

  /**
   * Two states no byte can tell apart: equal but for an escape buffer that the next ESC
   * clears and a UTF-8 accumulator that the next lead byte overwrites.
   */
  predicate Alike(s: Term, t: Term) {
    && t == s.(buf := t.buf, utf8 := t.utf8)
    && t.utf8.state == s.utf8.state
    && (s.esc != Idle ==> t.buf == s.buf)
    && (s.utf8.state != Utf8.Initial ==> t.utf8 == s.utf8)
  }

  predicate AlikeOption(a: Option<Term>, b: Option<Term>) {
    a.Some? == b.Some? && (a.Some? ==> Alike(a.value, b.value))
  }

  lemma EscAlike(s: Term, t: Term, b: char)
    requires Inv(s) && Inv(t) && Alike(s, t) && s.esc == Esc
    ensures AlikeOption(EscByte(s, b), EscByte(t, b))
  {
  }

  lemma CsiAlike(s: Term, t: Term, b: char)
    requires Inv(s) && Inv(t) && Alike(s, t) && s.esc == Csi
    ensures AlikeOption(CsiByte(s, b), CsiByte(t, b))
  {
    if C.IsFinal(b) {
      var u := C.Final(s.scr, s.buf, b);
      assert CsiByte(s, b) == if u.None? then None else Some(ToIdle(s, u.value));
      assert CsiByte(t, b) == if u.None? then None else Some(ToIdle(t, u.value));
    }
  }

  lemma StringAlike(s: Term, t: Term, b: char)
    requires Inv(s) && Inv(t) && Alike(s, t)
    ensures s.esc == Osc ==> Alike(OscByte(s, b), OscByte(t, b))
    ensures s.esc == Dcs ==> Alike(DcsByte(s, b), DcsByte(t, b))
  {
  }

  lemma IdleAlike(w: Width, s: Term, t: Term, b: char)
    requires Inv(s) && Inv(t) && Alike(s, t) && s.esc == Idle
    ensures Alike(IdleByte(w, s, b), IdleByte(w, t, b))
  {
    if s.utf8.state != Utf8.Initial || b > '\U{007F}' {
      var o, p := Utf8.Feed(s.utf8, b as nat), Utf8.Feed(t.utf8, b as nat);
      assert o.point == p.point && o.next.state == p.next.state;
    }
  }

  /** `Alike` is preserved by every byte. */
  lemma StepAlike(w: Width, s: Term, t: Term, b: char)
    requires Inv(s) && Inv(t) && Alike(s, t)
    ensures AlikeOption(Step(w, s, b), Step(w, t, b))
  {
    match s.esc
    case Esc => EscAlike(s, t, b);
    case Csi => CsiAlike(s, t, b);
    case Osc => StringAlike(s, t, b);
    case Dcs => StringAlike(s, t, b);
    case Idle => IdleAlike(w, s, t, b);
  }

  /** Runs from indistinguishable states stay indistinguishable. */
  lemma {:induction false} RunAlike(w: Width, s: Term, t: Term, bytes: string)
    requires Inv(s) && Inv(t) && Alike(s, t)
    ensures AlikeOption(Run(w, s, bytes), Run(w, t, bytes))
    decreases |bytes|
  {
    if bytes != "" {
      StepAlike(w, s, t, bytes[0]);
      var u, v := Step(w, s, bytes[0]), Step(w, t, bytes[0]);
      if u.Some? && v.Some? {
        StepInvAlike(w, s, t, bytes[0]);
        if Inv(u.value) {
          RunAlike(w, u.value, v.value, bytes[1..]);
        }
      }
    }
  }

  lemma StepInRange(w: Width, s: Term, b: char)
    requires Inv(s) && Step(w, s, b).Some?
    ensures Utf8.InRange(Step(w, s, b).value.utf8)
  {
  }

  lemma StepInvAlike(w: Width, s: Term, t: Term, b: char)
    requires Inv(s) && Inv(t) && Alike(s, t) && Step(w, s, b).Some? && Step(w, t, b).Some?
    ensures Inv(Step(w, s, b).value) <==> Inv(Step(w, t, b).value)
  {
    StepAlike(w, s, t, b);
    StepInRange(w, s, b);
    StepInRange(w, t, b);
  }

  /** One CAN byte ends whatever was open and leaves the screen as it was. */
  lemma CancelResynchronises(w: Width, s: Term)
    requires Inv(s)
    ensures var t := Step(w, s, CAN);
            && t.Some? && Inv(t.value)
            && t.value.esc == Idle && t.value.utf8.state == Utf8.Initial
            && t.value.scr == s.scr
  {
    hide C.Final, C.Admissible, Utf8.InRange, OscBell, OscTerminated, LineFeed, ReverseIndex, AlignmentPattern;
    assert !C.IsFinal(CAN) && !C.IsParameter(CAN) && !IsText(CAN) && !IsPrintable(CAN);
  }

  /**
   * After a CAN byte the rest of the stream is parsed the same way, whatever control
   * prefix, complete or broken, the parser had seen on the same screen.
   */
  lemma SuffixIndependentOfPrefix(w: Width, s: Term, t: Term, suffix: string)
    requires Inv(s) && Inv(t) && s.scr == t.scr
    ensures AlikeOption(Run(w, s, [CAN] + suffix), Run(w, t, [CAN] + suffix))
  {
    CancelResynchronises(w, s);
    CancelResynchronises(w, t);
    var u, v := Step(w, s, CAN).value, Step(w, t, CAN).value;
    RunCons(w, s, CAN, suffix);
    RunCons(w, t, CAN, suffix);
    RunAlike(w, u, v, suffix);
  }
}
