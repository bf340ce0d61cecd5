/** Runs of the terminal in which the window is resized between bytes. */
module Sessions {
  import opened Text
  import opened Display
  import opened Parser

  /** What reaches the terminal: a byte from the pty, or a new size from the window thread. */
  datatype Input = Byte(byte: char) | Window(rows: nat, cols: nat)

  function Next(w: Width, s: Term, e: Input): Option<Term>
    requires Inv(s)
  {
    match e
    case Byte(b) => Step(w, s, b)
    case Window(rows, cols) => Some(s.(scr := Resize(s.scr, rows, cols)))
  }

  /** A byte must be admissible, a size must be one a screen can have. */
  predicate Allowed(s: Term, e: Input)
    requires Inv(s)
  {
    match e
    case Byte(b) => Admissible(s, b)
    case Window(rows, cols) => Side(rows) && Side(cols)
  }

  lemma NextSafeIff(w: Width, s: Term, e: Input)
    requires Inv(s)
    ensures Allowed(s, e) <==> Next(w, s, e).Some? && Inv(Next(w, s, e).value)
  {
    hide Step, Admissible, Resize;
    match e
    case Byte(b) => StepSafeIff(w, s, b);
    case Window(rows, cols) =>
      if Side(rows) && Side(cols) {
        ResizeKeepsOk(s.scr, rows, cols);
      } else {
        NewSize(s.scr, rows, cols);
      }
  }

  lemma NewSize(s: Screen, rows: nat, cols: nat)
    ensures Resize(s, rows, cols).rows == rows && Resize(s, rows, cols).cols == cols
  {
  }

  /** The state after a session; `None` from the first unsafe input on. */
  function After(w: Width, s: Term, es: seq<Input>): (t: Option<Term>)
    requires Inv(s)
    ensures t.Some? ==> Inv(t.value)
    decreases |es|
  {
    if es == [] then Some(s)
    else
      var t := After(w, s, es[..|es| - 1]);
      if t.None? then None
      else
        var u := Next(w, t.value, es[|es| - 1]);
        if u.Some? && Inv(u.value) then u else None
  }

  /**
   * Safety of whole sessions, exactly: bytes and resizes in any order stay defined, on the screen
   * and in the invariant if and only if each input is allowed where it arrives.
   */
  lemma {:induction false} SessionSafeIff(w: Width, s: Term, es: seq<Input>)
    requires Inv(s)
    ensures After(w, s, es).Some? <==>
              forall k :: 0 <= k < |es| ==>
                var t := After(w, s, es[..k]);
                t.Some? ==> Allowed(t.value, es[k])
    decreases |es|
  {
    hide Next, Allowed, Inv;
    if es != [] {
      var n := |es| - 1;
      var a := es[..n];
      assert forall k :: 0 <= k <= n ==> a[..k] == es[..k];
      assert forall k :: 0 <= k < n ==> a[k] == es[k];
      SessionSafeIff(w, s, a);
      if After(w, s, a).Some? {
        NextSafeIff(w, After(w, s, a).value, es[n]);
      }
    }
  }

  function Bytes(text: string): (es: seq<Input>)
    ensures |es| == |text|
  {
    seq(|text|, i requires 0 <= i < |text| => Byte(text[i]))
  }

  /** A session without resizes is a run. */
  lemma {:induction false} BytesRun(w: Width, s: Term, text: string)
    requires Inv(s)
    ensures After(w, s, Bytes(text)) == Run(w, s, text)
    decreases |text|
  {
    hide Step, Run, Inv;
    if text == "" {
      RunNothing(w, s);
    } else {
      var n := |text| - 1;
      assert text == text[..n] + [text[n]];
      assert Bytes(text)[..n] == Bytes(text[..n]);
      BytesRun(w, s, text[..n]);
      RunSnoc(w, s, text[..n], text[n]);
    }
  }
}
