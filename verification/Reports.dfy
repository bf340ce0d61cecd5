/** Control sequences, cursor reports and operating-system commands, end to end from bytes. */
module Reports {
  import opened Sequences
  import opened Text
  import opened Display
  import opened Parser
  import Utf8
  import C = Csi

  // ------------------------------------------------------------ collecting parameters

  predicate Parameters(text: string) {
    forall i :: 0 <= i < |text| ==> C.IsParameter(text[i])
  }

  /** Parameter bytes are collected and nothing else changes. */
  lemma {:induction false} RunParameters(w: Width, s: Term, text: string)
    requires Inv(s) && s.esc == EscapeState.Csi && Parameters(text)
    ensures Inv(s.(buf := s.buf + text))
    ensures Run(w, s, text) == Some(s.(buf := s.buf + text))
    decreases |text|
  {
    if text == "" {
      assert s.buf + text == s.buf;
    } else {
      var t := s.(buf := s.buf + [text[0]]);
      assert Step(w, s, text[0]) == Some(t);
      RunParameters(w, t, text[1..]);
      assert s.buf + [text[0]] + text[1..] == s.buf + text;
    }
  }

  /** ESC [ from the idle state opens an empty control sequence. */
  lemma RunIntroducer(w: Width, s: Term, b: char)
    requires Inv(s) && s.esc == Idle && s.utf8.state == Utf8.Initial && b in "[]"
    ensures Run(w, s, [ESCAPE, b]) == Some(s.(esc := if b == '[' then EscapeState.Csi else Osc, buf := ""))
  {
    var t := s.(esc := Esc, buf := "");
    var u := s.(esc := if b == '[' then EscapeState.Csi else Osc, buf := "");
    assert Step(w, s, ESCAPE) == Some(t);
    assert Step(w, t, b) == Some(u);
    RunCons(w, s, ESCAPE, [b]);
    RunOne(w, t, b);
    assert [ESCAPE, b] == [ESCAPE] + [b];
  }

  /**
   * A whole control sequence is its final byte applied to the collected parameters, and it is
   * safe exactly when that final byte is admissible.
   */
  lemma RunSequence(w: Width, s: Term, params: string, b: char)
    requires Inv(s) && s.esc == Idle && s.utf8.state == Utf8.Initial
    requires Parameters(params) && C.IsFinal(b)
    ensures Run(w, s, [ESCAPE, '['] + params + [b])
         == if C.Admissible(s.scr, params, b)
            then Some(s.(buf := params, scr := C.Final(s.scr, params, b).value)) else None
  {
    hide Run, C.Final, C.Admissible;
    var t := s.(esc := EscapeState.Csi, buf := "");
    var u := t.(buf := t.buf + params);
    assert t.buf + params == params;
    RunIntroducer(w, s, '[');
    RunParameters(w, t, params);
    assert Step(w, u, b) == CsiByte(u, b);
    RunLast(w, u, b);
    RunConcat(w, s, [ESCAPE, '['], params);
    RunConcat(w, s, [ESCAPE, '['] + params, [b]);
  }

  // -------------------------------------------------------------------- cursor report

  lemma DigitsAreParameters(n: nat)
    ensures Parameters(Dec(n)) && ';' !in Dec(n)
  {
  }

  /** The parameters of a report read back as the two numbers. */
  lemma ReportParts(row: nat, col: nat)
    ensures Split(Dec(row) + ";" + Dec(col), ";") == [Dec(row), Dec(col)]
    ensures Parameters(Dec(row) + ";" + Dec(col))
    ensures Scan(Dec(row)) == Some(row) && Scan(Dec(col)) == Some(col)
  {
    DigitsAreParameters(row);
    DigitsAreParameters(col);
    SplitHead(Dec(row), ';', Dec(col));
    SplitNone(Dec(col), ';');
    ScanDec(row);
    ScanDec(col);
  }

  lemma FinalStatus(s: Screen)
    requires ScreenOk(s) && s.online
    ensures C.Admissible(s, "6", 'n')
    ensures C.Final(s, "6", 'n') == Some(s.(sent := s.sent + ([C.ESCAPE] + "[" + C.Report(s) + "R")))
  {
    hide Split, Scan, Dec, GridOk;
  }

  lemma FinalPosition(s: Screen, p: string)
    requires ScreenOk(s) && |C.Parts(p)| == 2
    requires C.CoordinateFits(C.Parts(p)[0]) && C.CoordinateFits(C.Parts(p)[1])
    ensures C.Admissible(s, p, 'H') && C.Final(s, p, 'H') == Some(C.PositionPair(s, p))
  {
    hide Split;
  }

  /** CSI 6 n answers ESC [ report R and changes nothing else. */
  lemma StatusReportsCursor(w: Width, s: Term)
    requires Inv(s) && s.esc == Idle && s.utf8.state == Utf8.Initial && s.scr.online
    ensures Run(w, s, [ESCAPE, '['] + "6" + "n")
         == Some(s.(buf := "6", scr := s.scr.(sent := s.scr.sent + ([ESCAPE] + "[" + C.Report(s.scr) + "R"))))
  {
    hide Run, C.Final, C.Admissible, ScreenOk, Utf8.InRange;
    FinalStatus(s.scr);
    RunSequence(w, s, "6", 'n');
  }

  /**
   * A report, sent back as a cursor position, moves any cursor on a screen of the same size to
   * where the report was taken, but for the position past the last column, which it cannot
   * express: it restores (row, col) if and only if col < cols.
   */
  lemma ReportRestoresCursor(w: Width, u: Screen, s: Term)
    requires ScreenOk(u) && Inv(s) && s.esc == Idle && s.utf8.state == Utf8.Initial
    requires !s.scr.origin && s.scr.rows == u.rows && s.scr.cols == u.cols
    ensures var t := Run(w, s, [ESCAPE, '['] + C.Report(u) + "H");
            && t == Some(s.(buf := C.Report(u), scr := s.scr.(row := u.row, col := Min(u.col, u.cols - 1))))
            && ((t.value.scr.row, t.value.scr.col) == (u.row, u.col) <==> u.col < u.cols)
  {
    hide Run, C.Final, C.Admissible, Split, Scan, Dec, Utf8.InRange;
    var p := C.Report(u);
    ReportParts(u.row + 1, u.col + 1);
    assert C.Parts(p) == [Dec(u.row + 1), Dec(u.col + 1)];
    FinalPosition(s.scr, p);
    RunSequence(w, s, p, 'H');
  }

  // ------------------------------------------------------- operating-system commands

  predicate Printable(text: string) {
    forall i :: 0 <= i < |text| ==> ' ' <= text[i] < '\U{007F}'
  }

  /** Printable bytes of an OSC string are collected and nothing else changes. */
  lemma {:induction false} RunOscText(w: Width, s: Term, text: string)
    requires Inv(s) && s.esc == Osc && Printable(s.buf) && Printable(text)
    ensures Run(w, s, text) == Some(s.(buf := s.buf + text))
    decreases |text|
  {
    hide ScreenOk, Utf8.InRange;
    if text == "" {
      assert s.buf + text == s.buf;
    } else {
      var t := s.(buf := s.buf + [text[0]]);
      assert !EscapePending(s.buf);
      assert Step(w, s, text[0]) == Some(t);
      RunOscText(w, t, text[1..]);
      assert s.buf + [text[0]] + text[1..] == s.buf + text;
    }
  }

  lemma RunOpenOsc(w: Width, s: Term, p: string)
    requires Inv(s) && s.esc == Idle && s.utf8.state == Utf8.Initial && Printable(p)
    ensures Inv(s.(esc := Osc, buf := p))
    ensures Run(w, s, [ESCAPE, ']'] + p) == Some(s.(esc := Osc, buf := p))
  {
    hide Run, Step;
    var t := s.(esc := Osc, buf := "");
    assert t.buf + p == p;
    RunIntroducer(w, s, ']');
    RunOscText(w, t, p);
    RunConcat(w, s, [ESCAPE, ']'], p);
  }

  /** A whole command closed by BEL is the clipboard handler applied to its text. */
  lemma RunCommand(w: Width, s: Term, text: string)
    requires Inv(s) && s.esc == Idle && s.utf8.state == Utf8.Initial && Printable(text)
    ensures Run(w, s, [ESCAPE, ']'] + text + [BEL])
         == Some(s.(buf := text, scr := OscBell(s.scr, text)))
  {
    hide Run, OscBell, ScreenOk, Utf8.InRange;
    var u := s.(esc := Osc, buf := text);
    RunOpenOsc(w, s, text);
    assert Step(w, u, BEL) == Some(ToIdle(u, OscBell(u.scr, text)));
    RunOne(w, u, BEL);
    RunConcat(w, s, [ESCAPE, ']'] + text, [BEL]);
  }

  /** A clipboard payload that is neither the paste query nor contains the separator. */
  predicate Payload(b: string) { Printable(b) && ';' !in b && b != "?" }

  lemma CopyParts(b: string)
    requires ';' !in b
    ensures Split("52;c;" + b, ";") == ["52", "c", b]
  {
    assert "52;c;" + b == "52" + ";" + ("c" + ";" + b);
    SplitHead("52", ';', "c" + ";" + b);
    SplitHead("c", ';', b);
    SplitNone(b, ';');
  }

  /** ESC ] 52 ; c ; b BEL performs exactly one `Copy(b)` and changes nothing else on the screen. */
  lemma CopySequence(w: Width, s: Term, b: string)
    requires Inv(s) && s.esc == Idle && s.utf8.state == Utf8.Initial && Payload(b)
    ensures Run(w, s, [ESCAPE, ']'] + ("52;c;" + b) + [BEL])
         == Some(s.(buf := "52;c;" + b, scr := s.scr.(copies := s.scr.copies + [b])))
  {
    hide Run, Split, ScreenOk, Utf8.InRange;
    CopyParts(b);
    RunCommand(w, s, "52;c;" + b);
  }

  /** ESC ] text ESC \ for a command that reports a colour. */
  lemma RunQuery(w: Width, s: Term, text: string)
    requires Inv(s) && s.esc == Idle && s.utf8.state == Utf8.Initial && Printable(text)
    ensures Run(w, s, [ESCAPE, ']'] + text + [ESCAPE, '\\'])
         == Some(s.(buf := text + [ESCAPE], scr := OscTerminated(s.scr, text + [ESCAPE])))
  {
    hide Run, OscTerminated, ScreenOk, Utf8.InRange;
    var u := s.(esc := Osc, buf := text);
    var v := u.(buf := text + [ESCAPE]);
    RunOpenOsc(w, s, text);
    assert Step(w, u, ESCAPE) == Some(v);
    assert Step(w, v, '\\') == Some(ToIdle(v, OscTerminated(v.scr, v.buf)));
    RunCons(w, u, ESCAPE, ['\\']);
    RunOne(w, v, '\\');
    assert [ESCAPE, '\\'] == [ESCAPE] + ['\\'];
    RunConcat(w, s, [ESCAPE, ']'] + text, [ESCAPE, '\\']);
  }

  /** The query for the background colour, OSC 11, is answered as if the foreground, OSC 10, were reported. */
  lemma BackgroundAnswersForeground(w: Width, s: Term)
    requires Inv(s) && s.esc == Idle && s.utf8.state == Utf8.Initial && s.scr.online
    ensures var t := Run(w, s, [ESCAPE, ']'] + "11;?" + [ESCAPE, '\\']);
            t.Some? && t.value.scr == s.scr.(sent := s.scr.sent + ([ESCAPE] + "]10;rgb:f/f/f" + [ESCAPE] + "\\"))
  {
    hide Run, Split, ScreenOk, Utf8.InRange;
    SplitHead("11", ';', "?");
    SplitNone("?", ';');
    assert "11;?" == "11" + ";" + "?" == ("11;?" + [ESCAPE])[..4];
    RunQuery(w, s, "11;?");
  }

  /** The query for the foreground colour, OSC 10, is answered with black. */
  lemma ForegroundAnswers(w: Width, s: Term)
    requires Inv(s) && s.esc == Idle && s.utf8.state == Utf8.Initial && s.scr.online
    ensures var t := Run(w, s, [ESCAPE, ']'] + "10;?" + [ESCAPE, '\\']);
            t.Some? && t.value.scr == s.scr.(sent := s.scr.sent + ([ESCAPE] + "]10;rgb:0/0/0" + [ESCAPE] + "\\"))
  {
    hide Run, Split, ScreenOk, Utf8.InRange;
    SplitHead("10", ';', "?");
    SplitNone("?", ';');
    assert "10;?" == "10" + ";" + "?" == ("10;?" + [ESCAPE])[..4];
    RunQuery(w, s, "10;?");
  }
}
