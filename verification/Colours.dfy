/** Select Graphic Rendition, from its bytes to the style of the cells that are printed next. */
module Colours {
  import opened Sequences
  import opened Text
  import opened Cells
  import opened Display
  import opened Parser
  import opened Effects
  import opened Commands
  import opened Limits
  import Utf8
  import C = Csi
  import Sgr
  import Printing
  import Controls
  import Reports

  /** The foreground after one parameter: reset, swapped with the background, or an entry of the palette. */
  function Fore(n: int, st: Style): Color {
    if n == 0 || n == 10 || n == 39 then Ansi(0)
    else if n == 7 || n == 27 then st.back
    else if 30 <= n < 38 then Ansi(n - 30)
    else if 90 <= n < 98 then Ansi(n - 82)
    else st.fore
  }

  function Back(n: int, st: Style): Color {
    if n == 0 || n == 10 || n == 49 then Ansi(7)
    else if n == 7 || n == 27 then st.fore
    else if 40 <= n < 48 then Ansi(n - 40)
    else if 100 <= n < 108 then Ansi(n - 92)
    else st.back
  }

  function Font(n: int, st: Style): FontClass {
    if n == 0 || n == 10 || n == 22 then Regular else if n == 1 then Bold else st.font
  }

  function Blink(n: int, st: Style): bool {
    if n == 5 || n == 6 then true else if n == 0 || n == 10 || n == 25 then false else st.blink
  }

  lemma SimpleFields(n: int, st: Style)
    ensures Sgr.Simple(n, st) == Style(Fore(n, st), Back(n, st), Font(n, st), Blink(n, st))
  {
  }

  /** SGR sets the style and nothing else. */
  lemma SetsStyle(w: Width, s: Term, p: string)
    requires Accepted(w, s, p, 'm')
    ensures Shown(w, s, p, 'm') == s.scr.(style := Shown(w, s, p, 'm').style)
    ensures if p != "" && p[0] == '>' then Shown(w, s, p, 'm') == s.scr
            else Sgr.Apply(Split(p, ";"), s.scr.style) == Some(Shown(w, s, p, 'm').style)
  {
    hide Accepted, Shown, C.Setting, C.SettingSafe, ScreenOk, Sgr.Apply, Sgr.Numeric, Split;
    Set(w, s, p, 'm');
    SettingHandler(s.scr, p, 'm');
  }

  /**
   * One parameter, whatever its text, changes exactly these fields; text without a number counts as 0. A colour
   * group without a colour does nothing, and neither does a sequence that starts with '>'.
   */
  lemma OneParameter(w: Width, s: Term, p: string)
    requires Accepted(w, s, p, 'm') && ';' !in p
    ensures var n, st := Read(p, 0), s.scr.style;
            Shown(w, s, p, 'm') == s.scr.(style :=
              if (p != "" && p[0] == '>') || n == 38 || n == 48 then st
              else Style(Fore(n, st), Back(n, st), Font(n, st), Blink(n, st)))
  {
    hide Accepted, Shown, Scan, Split, Sgr.Simple, Fore, Back, Font, Blink;
    SetsStyle(w, s, p);
    SplitNone(p, ';');
    SimpleFields(Read(p, 0), s.scr.style);
    if !(p != "" && p[0] == '>') {
      ApplyOne(p, s.scr.style);
    }
  }

  lemma ApplyOne(p: string, st: Style)
    requires Sgr.Apply([p], st).Some?
    ensures Sgr.Apply([p], st) == Some(if Read(p, 0) == 38 || Read(p, 0) == 48 then st else Sgr.Simple(Read(p, 0), st))
  {
    hide Scan, Sgr.Simple;
    assert [p][0] == p && [p][1..] == [];
    assert Sgr.Apply([], st) == Some(st);
    assert Sgr.Apply([], Sgr.Simple(Read(p, 0), st)) == Some(Sgr.Simple(Read(p, 0), st));
    if Read(p, 0) == 38 || Read(p, 0) == 48 {
      assert Sgr.GroupSize([p]) == 1;
    }
  }

  // ------------------------------------------------------------------------ palette entries

  lemma NumberIsAccepted(w: Width, s: Term, n: nat)
    requires Ready(s) && n < 0x8000_0000
    ensures Accepted(w, s, Dec(n), 'm') && ';' !in Dec(n) && Dec(n)[0] != '>' && Read(Dec(n), 0) == n
  {
    hide Run, C.Final, Scan, Dec, Split, ScreenOk;
    Reports.DigitsAreParameters(n);
    ScanDec(n);
    SplitNone(Dec(n), ';');
    Reports.RunSequence(w, s, Dec(n), 'm');
    NumericOne(Dec(n));
  }

  lemma NumericOne(p: string)
    ensures Sgr.Numeric([p]) <==> Readable(p)
  {
    hide Scan;
    assert [p][0] == p && [p][1..] == [];
    assert Sgr.Numeric([]);
    if Sgr.Extended(Sgr.Param(p)) {
      assert Sgr.GroupSize([p]) == 1;
    }
  }

  /** `t` is `s` after a sequence that leaves this style. */
  predicate Styles(w: Width, s: Term, n: nat, style: Style)
    requires Ready(s)
  {
    Run(w, s, Sequence(Dec(n), 'm')) == Some(s.(buf := Dec(n), scr := s.scr.(style := style)))
  }

  lemma OneNumber(w: Width, s: Term, n: nat)
    requires Ready(s) && n < 0x8000_0000 && n != 38 && n != 48
    ensures var st := s.scr.style; Styles(w, s, n, Style(Fore(n, st), Back(n, st), Font(n, st), Blink(n, st)))
  {
    hide Run, Accepted, Shown, Dec, Scan, Read, Fore, Back, Font, Blink, ScreenOk;
    NumberIsAccepted(w, s, n);
    OneParameter(w, s, Dec(n));
    Handled(w, s, Dec(n), 'm');
  }

  /** The palette: 30 to 37 and 90 to 97 change the foreground only, 40 to 47 and 100 to 107 the background only. */
  lemma PaletteEntries(w: Width, s: Term, k: nat)
    requires Ready(s) && k < 8
    ensures Styles(w, s, 30 + k, s.scr.style.(fore := Ansi(k)))
    ensures Styles(w, s, 90 + k, s.scr.style.(fore := Ansi(8 + k)))
    ensures Styles(w, s, 40 + k, s.scr.style.(back := Ansi(k)))
    ensures Styles(w, s, 100 + k, s.scr.style.(back := Ansi(8 + k)))
  {
    hide Styles, ScreenOk;
    OneNumber(w, s, 30 + k);
    OneNumber(w, s, 90 + k);
    OneNumber(w, s, 40 + k);
    OneNumber(w, s, 100 + k);
  }

  /** 0 resets the style, and 7 twice leaves it as it was. */
  lemma ResetAndInvert(w: Width, s: Term)
    requires Ready(s)
    ensures Styles(w, s, 0, DEFAULT_STYLE)
    ensures Run(w, s, Sequence(Dec(7), 'm') + Sequence(Dec(7), 'm')) == Some(s.(buf := Dec(7)))
  {
    hide Run, Dec, Utf8.InRange;
    OneNumber(w, s, 0);
    OneNumber(w, s, 7);
    var u := Run(w, s, Sequence(Dec(7), 'm')).value;
    OneNumber(w, u, 7);
    RunConcat(w, s, Sequence(Dec(7), 'm'), Sequence(Dec(7), 'm'));
  }

  // ------------------------------------------------------------------------- colour groups

  /** The parameter that opens a colour group for the foreground or the background. */
  function Header(fore: bool): string { if fore then "38" else "48" }

  function Painted(st: Style, fore: bool, c: Color): Style { if fore then st.(fore := c) else st.(back := c) }

  predicate Small(d: string) { Value(d, 0) < 0x8000_0000 }

  lemma HeaderReads(fore: bool)
    ensures ';' !in Header(fore) && Header(fore)[0] != '>' && Reports.Parameters(Header(fore))
    ensures Scan(Header(fore)) == Some(if fore then 38 else 48)
    ensures Scan("2") == Some(2) && Scan("5") == Some(5)
  {
    hide Scan;
    ScanTwoDigits(38);
    ScanTwoDigits(48);
    assert [DigitOf(3), DigitOf(8)] == "38" && [DigitOf(4), DigitOf(8)] == "48";
    ScanDec(2);
    ScanDec(5);
    assert Dec(2) == "2" && Dec(5) == "5";
  }

  function TableText(fore: bool, d: string): string { Header(fore) + ";" + ("5" + ";" + d) }

  function DirectText(fore: bool, r: string, g: string, b: string): string {
    Header(fore) + ";" + ("2" + ";" + (r + ";" + (g + ";" + b)))
  }

  lemma TableParts(fore: bool, d: string)
    requires Digits(d)
    ensures Split(TableText(fore, d), ";") == [Header(fore), "5", d] && Reports.Parameters(TableText(fore, d))
    ensures TableText(fore, d) != "" && TableText(fore, d)[0] != '>'
  {
    hide Split, Scan;
    HeaderReads(fore);
    ScanDigits(d);
    SplitHead(Header(fore), ';', "5" + ";" + d);
    SplitHead("5", ';', d);
    SplitNone(d, ';');
  }

  lemma DirectParts(fore: bool, r: string, g: string, b: string)
    requires Digits(r) && Digits(g) && Digits(b)
    ensures Split(DirectText(fore, r, g, b), ";") == [Header(fore), "2", r, g, b]
    ensures Reports.Parameters(DirectText(fore, r, g, b))
    ensures DirectText(fore, r, g, b) != "" && DirectText(fore, r, g, b)[0] != '>'
  {
    hide Split, Scan;
    HeaderReads(fore);
    ScanDigits(r);
    ScanDigits(g);
    ScanDigits(b);
    SplitHead(Header(fore), ';', "2" + ";" + (r + ";" + (g + ";" + b)));
    SplitHead("2", ';', r + ";" + (g + ";" + b));
    SplitHead(r, ';', g + ";" + b);
    SplitHead(g, ';', b);
    SplitNone(b, ';');
  }

  lemma ApplyTable(fore: bool, d: string, st: Style)
    requires Digits(d)
    ensures var v := Value(d, 0);
            Sgr.Apply([Header(fore), "5", d], st)
            == if Small(d) then Some(Painted(st, fore, Table(v % 256))) else None
  {
    hide Scan;
    HeaderReads(fore);
    ScanDigits(d);
    var parts := [Header(fore), "5", d];
    assert Stoi(parts[1]) == Some(5) && Sgr.GroupSize(parts) == 3 && parts[3..] == [];
    var done := Painted(st, fore, Table(Value(d, 0) % 256));
    assert Sgr.Apply([], done) == Some(done);
  }

  lemma ApplyDirect(fore: bool, r: string, g: string, b: string, st: Style)
    requires Digits(r) && Digits(g) && Digits(b)
    ensures Sgr.Apply([Header(fore), "2", r, g, b], st)
            == if Small(r) && Small(g) && Small(b)
               then Some(Painted(st, fore, Rgb(Value(r, 0) % 256, Value(g, 0) % 256, Value(b, 0) % 256))) else None
  {
    hide Scan;
    HeaderReads(fore);
    ScanDigits(r);
    ScanDigits(g);
    ScanDigits(b);
    var parts := [Header(fore), "2", r, g, b];
    assert Stoi(parts[1]) == Some(2) && Sgr.GroupSize(parts) == 5 && parts[5..] == [];
    var done := Painted(st, fore, Rgb(Value(r, 0) % 256, Value(g, 0) % 256, Value(b, 0) % 256));
    assert Sgr.Apply([], done) == Some(done);
  }

  /** A sequence is accepted when its parameters have a style, and leaves that style. */
  lemma RunRendition(w: Width, s: Term, p: string)
    requires Ready(s) && Reports.Parameters(p) && p != "" && p[0] != '>'
    ensures var st := Sgr.Apply(Split(p, ";"), s.scr.style);
            Run(w, s, Sequence(p, 'm'))
            == if st.None? then None else Some(s.(buf := p, scr := s.scr.(style := st.value)))
  {
    hide Run, Accepted, Shown, Sgr.Apply, Sgr.Numeric, Split, ScreenOk;
    Sgr.DefinedIffNumeric(Split(p, ";"), s.scr.style);
    AcceptedIffNumeric(w, s, p);
    if Accepted(w, s, p, 'm') {
      SetsStyle(w, s, p);
      Handled(w, s, p, 'm');
    }
  }

  lemma AcceptedIffNumeric(w: Width, s: Term, p: string)
    requires Ready(s) && Reports.Parameters(p) && p != "" && p[0] != '>'
    ensures Accepted(w, s, p, 'm') <==> Sgr.Numeric(Split(p, ";"))
    ensures Accepted(w, s, p, 'm') <==> Run(w, s, Sequence(p, 'm')).Some?
  {
    hide Run, C.Final, Sgr.Numeric, Split, ScreenOk;
    Reports.RunSequence(w, s, p, 'm');
  }

  /**
   * CSI 38;5;n m takes entry n of the 256-colour table for the foreground, 48;5;n for the background. A number of
   * any length is accepted if it is an `int`, and its last eight bits count.
   */
  lemma TableColour(w: Width, s: Term, fore: bool, d: string)
    requires Ready(s) && Digits(d)
    ensures Run(w, s, Sequence(TableText(fore, d), 'm'))
         == if Small(d)
            then Some(s.(buf := TableText(fore, d),
                         scr := s.scr.(style := Painted(s.scr.style, fore, Table(Value(d, 0) % 256)))))
            else None
  {
    hide Run, TableText, Header, Painted, Small, Sgr.Apply, Split, Digits, ScreenOk;
    TableParts(fore, d);
    ApplyTable(fore, d, s.scr.style);
    RunRendition(w, s, TableText(fore, d));
  }

  /** CSI 38;2;r;g;b m takes these components, in this order, for the foreground, 48;2;r;g;b for the background. */
  lemma DirectColour(w: Width, s: Term, fore: bool, r: string, g: string, b: string)
    requires Ready(s) && Digits(r) && Digits(g) && Digits(b)
    ensures var c := Rgb(Value(r, 0) % 256, Value(g, 0) % 256, Value(b, 0) % 256);
            Run(w, s, Sequence(DirectText(fore, r, g, b), 'm'))
            == if Small(r) && Small(g) && Small(b)
               then Some(s.(buf := DirectText(fore, r, g, b), scr := s.scr.(style := Painted(s.scr.style, fore, c))))
               else None
  {
    hide Run, DirectText, Header, Painted, Small, Sgr.Apply, Split, Digits, ScreenOk;
    DirectParts(fore, r, g, b);
    ApplyDirect(fore, r, g, b, s.scr.style);
    RunRendition(w, s, DirectText(fore, r, g, b));
  }

  // ------------------------------------------------------------------------- coloured text

  /**
   * A character behind an accepted rendition lands where it would have landed without it, in the style the
   * rendition left, and the rest of the screen is as it was.
   */
  lemma RenditionShows(w: Width, s: Term, p: string, code: nat, text: string)
    requires Accepted(w, s, p, 'm') && !s.scr.insert
    requires Printing.Character(code) && Printing.Bytes(text) == Utf8.Encode(code) && w(code) > 0
    ensures var t := Run(w, s, Sequence(p, 'm') + text);
            && t.Some?
            && Shown(w, s, p, 'm') == s.scr.(style := Shown(w, s, p, 'm').style)
            && Lands(Shown(w, s, p, 'm'), t.value.scr, code, Min(w(code), 2))
  {
    hide Run, Shown, Lands, ScreenOk, Utf8.InRange, Utf8.Encode, Printing.Bytes, Printing.Character;
    SetsStyle(w, s, p);
    Handled(w, s, p, 'm');
    var u := Run(w, s, Sequence(p, 'm')).value;
    Controls.CharacterLands(w, u, code, text);
    RunConcat(w, s, Sequence(p, 'm'), text);
  }

  /** So from bytes to a cell: CSI 3k m and a character leave a cell with palette entry k and the old background. */
  lemma ColourShows(w: Width, s: Term, k: nat, code: nat, text: string)
    requires Ready(s) && !s.scr.insert && k < 8
    requires Printing.Character(code) && Printing.Bytes(text) == Utf8.Encode(code) && w(code) > 0
    requires s.scr.col + Min(w(code), 2) <= s.scr.cols
    ensures var t := Run(w, s, Sequence(Dec(30 + k), 'm') + text);
            && t.Some?
            && Stores(s.scr.grid, t.value.scr.grid, s.scr.row, s.scr.col, code, w(code) >= 2,
                      s.scr.style.(fore := Ansi(k)))
  {
    hide Run, Accepted, Shown, Stores, Dec, ScreenOk, Utf8.InRange, Utf8.Encode, Printing.Bytes, Printing.Character;
    NumberIsAccepted(w, s, 30 + k);
    PaletteEntries(w, s, k);
    Handled(w, s, Dec(30 + k), 'm');
    RenditionShows(w, s, Dec(30 + k), code, text);
  }
}
