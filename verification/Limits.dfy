/**
 * Inputs on which the source overflows, throws, or leaves the screen at once or later, each with its
 * exact condition.
 */
module Limits {
  import opened Sequences
  import opened Text
  import opened Cells
  import opened Display
  import opened Parser
  import opened Reports
  import Utf8
  import C = Csi
  import Sgr
  import Printing

  // ------------------------------------------------------------- margins and full rows

  /** A decimal number of any length. */
  predicate Digits(d: string) { d != "" && forall i :: 0 <= i < |d| ==> IsDigit(d[i]) }

  lemma ScanDigits(d: string)
    requires Digits(d)
    ensures Scan(d) == Some(Value(d, 0)) && ';' !in d && Parameters(d)
  {
  }

  /** Margins counted from 1: in range of the screen, or not a region and ignored. */
  predicate OnScreen(s: Screen, top: nat, bottom: nat) {
    bottom > top ==> 1 <= top && bottom <= s.rows
  }

  /** The rows that the copy loop of SU writes. */
  predicate Scrolled(s: Screen, i: int) { s.top <= i <= s.bottom }

  lemma MarginParts(s: Screen, a: string, b: string)
    requires Digits(a) && Digits(b)
    ensures C.Parts(a + ";" + b) == [a, b] && Parameters(a + ";" + b)
    ensures Scan(a) == Some(Value(a, 0)) && Scan(b) == Some(Value(b, 0))
    ensures C.WantedMargins(s, a + ";" + b) == Some((Value(a, 0) - 1, Value(b, 0) - 1))
  {
    ScanDigits(a);
    ScanDigits(b);
    hide Split, Scan;
    SplitHead(a, ';', b);
    SplitNone(b, ';');
  }

  /**
   * DECSTBM compares the margins with each other only. After `a;b` the copy loop of SU, run to its end,
   * writes rows of the screen only, if and only if the margins are on it or no region at all.
   */
  lemma MarginsReachOff(s: Screen, a: string, b: string)
    requires ScreenOk(s) && Digits(a) && Digits(b)
    ensures (forall i :: Scrolled(C.SetMargins(s, a + ";" + b), i) ==> 0 <= i < |s.grid|)
            <==> OnScreen(s, Value(a, 0), Value(b, 0))
  {
    hide C.WantedMargins, Value, RowOk;
    MarginParts(s, a, b);
    var t := C.SetMargins(s, a + ";" + b);
    assert Scrolled(t, t.top) && Scrolled(t, t.bottom);
  }

  /** So the bytes of DECSTBM `a;b`, numbers an `int` can hold, keep the invariant for such margins only. */
  lemma MarginsSafeIff(w: Width, s: Term, a: string, b: string)
    requires Inv(s) && s.esc == Idle && s.utf8.state == Utf8.Initial && Digits(a) && Digits(b)
    ensures Run(w, s, [ESCAPE, '['] + (a + ";" + b) + "r").Some?
            <==> Value(a, 0) < 0x8000_0000 && Value(b, 0) < 0x8000_0000 && OnScreen(s.scr, Value(a, 0), Value(b, 0))
  {
    hide Run, C.Final, C.WantedMargins, ScreenOk, Split, Scan;
    MarginParts(s.scr, a, b);
    RunSequence(w, s, a + ";" + b, 'r');
  }

  /** Two decimal digits as they are printed and read. */
  lemma ScanTwoDigits(n: nat)
    requires 10 <= n < 100
    ensures Scan([DigitOf(n / 10), DigitOf(n % 10)]) == Some(n)
  {
    assert Dec(n) == Dec(n / 10) + [DigitOf(n % 10)];
    ScanDec(n);
  }

  /** Erasing above and clearing a tab stop touch column `col`, which a full row does not have. */
  lemma FullRowFaults(w: Width, s: Term)
    requires Inv(s) && s.esc == Idle && s.utf8.state == Utf8.Initial
    ensures Run(w, s, [ESCAPE, '['] + "1" + "J").Some? <==> s.scr.col < s.scr.cols
    ensures Run(w, s, [ESCAPE, '['] + "" + "g").Some? <==> s.scr.col < s.scr.cols
  {
    hide Run, C.Final, Split;
    RunSequence(w, s, "1", 'J');
    RunSequence(w, s, "", 'g');
  }

  /** Printing to the end of the row reaches such a state. */
  lemma {:induction false} FullRowReached(w: Width, s: Screen, code: nat, n: nat)
    requires ScreenOk(s) && s.col + n == s.cols && code <= Utf8.MAX_POINT && w(code) == 1
    ensures var t := Printing.InsertAll(w, s, Rep(code, n)); t.col == t.cols
    decreases n
  {
    if n > 0 {
      assert Rep(code, n)[0] == code && Rep(code, n)[1..] == Rep(code, n - 1);
      var t := InsertPoint(w, s, code);
      assert t.col == s.col + 1 && t.cols == s.cols;
      FullRowReached(w, t, code, n - 1);
    } else {
      assert Rep(code, 0) == [];
    }
  }

  /** A colour group whose colour type is missing makes `std::stoi` throw. */
  lemma EmptyColourThrows(w: Width, s: Term)
    requires Inv(s) && s.esc == Idle && s.utf8.state == Utf8.Initial
    ensures Run(w, s, [ESCAPE, '['] + "38;" + "m") == None
  {
    hide Run, C.Final, Split;
    SplitHead("38", ';', "");
    SplitNone("", ';');
    assert "38;" == "38" + ";" + "";
    assert C.Parts("38;") == ["38", ""];
    ScanTwoDigits(38);
    assert [DigitOf(3), DigitOf(8)] == "38";
    assert !Sgr.Numeric(["38", ""]) by {
      assert Scan("") == None;
      assert Sgr.Extended(Sgr.Param("38"));
    }
    RunSequence(w, s, "38;", 'm');
  }

  // --------------------------------------------------------------------- large numbers

  /** `std::stoi` throws on a colour index that is no `int`: the sequence is safe exactly below 2^31. */
  lemma HugeColourThrows(w: Width, s: Term, d: string)
    requires Inv(s) && s.esc == Idle && s.utf8.state == Utf8.Initial && Digits(d)
    ensures Run(w, s, [ESCAPE, '['] + ("38;5;" + d) + "m").Some? <==> Value(d, 0) < 0x8000_0000
  {
    hide Run, C.Final, Split, Scan, ScreenOk;
    var p := "38;5;" + d;
    ScanDigits(d);
    ColourParts(d);
    NumericColour(d);
    assert p[0] == '3';
    RunSequence(w, s, p, 'm');
  }

  lemma NumericColour(d: string)
    requires Scan("38") == Some(38) && Scan("5") == Some(5)
    ensures Sgr.Numeric(["38", "5", d]) <==> Stoi(d).Some?
  {
    hide Scan;
    var parts := ["38", "5", d];
    assert Readable(parts[0]) && Sgr.Param(parts[0]) == 38 && Stoi(parts[1]) == Some(5);
    assert Sgr.GroupSize(parts) == 3 && parts[3..] == [];
    assert Sgr.Numeric([]);
    assert (forall i :: 1 <= i < 3 ==> Stoi(parts[i]).Some?) <==> Stoi(parts[2]).Some?;
  }

  lemma ColourParts(d: string)
    requires ';' !in d
    ensures C.Parts("38;5;" + d) == ["38", "5", d] && Scan("38") == Some(38) && Scan("5") == Some(5)
  {
    hide Split, Scan;
    assert "38;5;" + d == "38" + ";" + ("5" + ";" + d);
    SplitHead("38", ';', "5" + ";" + d);
    SplitHead("5", ';', d);
    SplitNone(d, ';');
    ScanTwoDigits(38);
    assert [DigitOf(3), DigitOf(8)] == "38";
    ScanDec(5);
    assert Dec(5) == "5";
  }

  /** DL adds its count to row numbers: inside the region it is safe exactly while the last sum is an `int`. */
  lemma HugeCountOverflows(w: Width, s: Term, d: string)
    requires Inv(s) && s.esc == Idle && s.utf8.state == Utf8.Initial && Digits(d)
    ensures Run(w, s, [ESCAPE, '['] + d + "M").Some?
            <==> Value(d, 0) + (if C.InRegion(s.scr) then s.scr.bottom else 0) < 0x8000_0000
  {
    hide Run, C.Final, Split, Scan;
    ScanDigits(d);
    RunSequence(w, s, d, 'M');
  }

  /** A negative count makes IL copy from below the region: safe exactly while those rows exist. */
  lemma NegativeCountReadsBelow(w: Width, s: Term, d: string)
    requires Inv(s) && s.esc == Idle && s.utf8.state == Utf8.Initial && Digits(d)
    requires 0 < Value(d, 0) <= 0x8000_0000
    ensures Run(w, s, [ESCAPE, '['] + ("-" + d) + "L").Some?
            <==> !C.InRegion(s.scr) || s.scr.bottom + Value(d, 0) < s.scr.rows
  {
    hide Run, C.Final, Split;
    ScanDigits(d);
    var p := "-" + d;
    assert p[1..] == d && p[0] == '-';
    assert Scan(p).Some? && Scan(p).value == 0 - Value(d, 0);
    RunSequence(w, s, p, 'L');
  }

  // ------------------------------------------------------------ broken wide characters

  /** The search for the start of a wide character runs off the row exactly when it meets tails only. */
  lemma BackOffFailsIff(r: Row, c: int)
    requires 0 <= c < |r|
    ensures BackOff(r, c) == -1 <==> forall j :: 0 <= j <= c ==> IsTail(r[j])
  {
  }

  /** In every reachable state the search ends on the row, wherever it starts. */
  lemma SearchStaysOnRow(w: Width, s: Term, bytes: string, i: nat, c: nat)
    requires Inv(s) && Run(w, s, bytes).Some?
    ensures var t := Run(w, s, bytes).value.scr;
            i < t.rows && c < t.cols ==>
              i < |t.grid| && c < |t.grid[i]|
              && 0 <= BackOff(t.grid[i], c) <= c && !IsTail(t.grid[i][BackOff(t.grid[i], c)])
  {
    hide Run;
    var t := Run(w, s, bytes).value.scr;
    if i >= t.rows || c >= t.cols {
      return;
    }
    assert RowOk(t.grid[i], t.cols);
    BackOffFailsIff(t.grid[i], c);
  }

  /** A row that starts with a wide character, as printing one in column 0 leaves it. */
  predicate StartsWide(r: Row) {
    |r| >= 2 && !IsTail(r[0]) && IsTail(r[1])
  }

  /** Right halves only, from column `c` on. */
  predicate TailsFrom(r: Row, c: nat) {
    forall j :: c <= j < |r| ==> IsTail(r[j])
  }

  /**
   * DCH at the head of such a row brings the tail into column 0. The search that the next wide
   * character makes without autowrap, from the last column but one, then runs off the row if and only
   * if nothing but tails stood behind the first cell.
   */
  lemma DeleteStrandsTail(w: Width, s: Term)
    requires Inv(s) && s.esc == Idle && s.utf8.state == Utf8.Initial
    requires s.scr.col == 0 && StartsWide(s.scr.grid[s.scr.row])
    ensures Run(w, s, [ESCAPE, '['] + "" + "P") == None
    ensures var r := s.scr.grid[s.scr.row];
            var t := C.DeleteCells(r, 0, 1);
            && IsTail(t[0])
            && (BackOff(t, |r| - 2) == -1 <==> TailsFrom(r, 1))
  {
    hide Run, C.Final, CopyUp;
    var r := s.scr.grid[s.scr.row];
    assert RowOk(r, s.scr.cols);
    RunSequence(w, s, "", 'P');
    var t := C.DeleteCells(r, 0, 1);
    DeletedOne(r);
    BackOffFailsIff(t, |r| - 2);
    assert forall j :: 1 <= j < |r| ==> t[j - 1] == r[j];
  }

  lemma DeletedOne(r: Row)
    requires |r| >= 2
    ensures var t := C.DeleteCells(r, 0, 1);
            |t| == |r| && forall j :: 0 <= j < |r| - 1 ==> t[j] == r[j + 1]
  {
  }

  /** A wide character printed at the start of a row leaves the row that way. */
  lemma WidePrintsTail(w: Width, s: Screen, code: nat)
    requires ScreenOk(s) && s.col == 0 && code <= Utf8.MAX_POINT && w(code) == 2
    ensures var t := InsertPoint(w, s, code);
            t.row == s.row && t.col == 2 && StartsWide(t.grid[t.row])
  {
    assert RowOk(s.grid[s.row], s.cols);
  }

  /** A wide character printed in front of tails leaves tails right behind its first cell. */
  lemma WideExtendsTails(w: Width, s: Screen, code: nat)
    requires ScreenOk(s) && s.col + 2 <= s.cols && code <= Utf8.MAX_POINT && w(code) == 2
    requires TailsFrom(s.grid[s.row], s.col + 2)
    ensures var t := InsertPoint(w, s, code);
            && t == s.(grid := t.grid, col := s.col + 2)
            && TailsFrom(t.grid[t.row], s.col + 1)
  {
    assert RowOk(s.grid[s.row], s.cols);
  }

  /** The bytes that print a wide character in columns c, c - 1, ..., 0, one over the other. */
  function Strokes(text: string, c: nat): string {
    [ESCAPE, '['] + Dec(c + 1) + "G" + text + (if c == 0 then "" else Strokes(text, c - 1))
  }

  lemma RunColumn(w: Width, s: Term, c: nat)
    requires Inv(s) && s.esc == Idle && s.utf8.state == Utf8.Initial && !s.scr.origin && c < s.scr.cols
    ensures Run(w, s, [ESCAPE, '['] + Dec(c + 1) + "G")
         == Some(s.(buf := Dec(c + 1), scr := s.scr.(col := c)))
  {
    hide Run, C.Final, C.Admissible, Scan, Dec, Split;
    DigitsAreParameters(c + 1);
    ScanDec(c + 1);
    FinalColumn(s.scr, c);
    RunSequence(w, s, Dec(c + 1), 'G');
  }

  lemma FinalColumn(s: Screen, c: nat)
    requires ScreenOk(s) && !s.origin && c < s.cols && Scan(Dec(c + 1)) == Some(c + 1)
    ensures C.Admissible(s, Dec(c + 1), 'G') && C.Final(s, Dec(c + 1), 'G') == Some(s.(col := c))
  {
    hide Scan, Dec, Split, GridOk;
  }

  /** Printed from right to left, wide characters leave a row of tails behind the first cell. */
  lemma {:induction false} StrokesLeaveTails(w: Width, s: Term, code: nat, text: string, c: nat)
    requires Inv(s) && s.esc == Idle && s.utf8.state == Utf8.Initial && !s.scr.origin && !s.scr.insert
    requires Printing.Character(code) && w(code) == 2 && Printing.Bytes(text) == Utf8.Encode(code)
    requires c + 2 <= s.scr.cols && TailsFrom(s.scr.grid[s.scr.row], c + 2)
    ensures var t := Run(w, s, Strokes(text, c));
            && t.Some? && t.value.esc == Idle && t.value.utf8.state == Utf8.Initial
            && t.value.scr == s.scr.(grid := t.value.scr.grid, col := 2)
            && TailsFrom(t.value.scr.grid[s.scr.row], 1)
    decreases c
  {
    hide Run, InsertPoint, TailsFrom, Strokes, Dec;
    var move := [ESCAPE, '['] + Dec(c + 1) + "G";
    RunColumn(w, s, c);
    var u := Run(w, s, move).value;
    Printing.RunInsertsOne(w, u, code, text);
    WideExtendsTails(w, u.scr, code);
    RunConcat(w, s, move, text);
    var v := Run(w, s, move + text).value;
    StrokesUnfold(text, c);
    if c > 0 {
      StrokesLeaveTails(w, v, code, text, c - 1);
      RunConcat(w, s, move + text, Strokes(text, c - 1));
    }
  }

  lemma StrokesUnfold(text: string, c: nat)
    ensures var first := [ESCAPE, '['] + Dec(c + 1) + "G" + text;
            Strokes(text, c) == if c == 0 then first else first + Strokes(text, c - 1)
  {
    var first := [ESCAPE, '['] + Dec(c + 1) + "G" + text;
    assert first + "" == first;
  }

  function CursorRow(s: Screen): (r: Row)
    requires ScreenOk(s)
    ensures RowOk(r, s.cols)
  {
    s.grid[s.row]
  }

  /**
   * At every width, from every idle state outside of origin and insert mode: wide characters printed
   * from right to left, then the cursor in column 0, leave a row on which DCH strands a tail, and on
   * which the search for a broken wide character afterwards runs off the row.
   */
  lemma SearchRunsOff(w: Width, s: Term, code: nat, text: string)
    requires Inv(s) && s.esc == Idle && s.utf8.state == Utf8.Initial && !s.scr.origin && !s.scr.insert
    requires Printing.Character(code) && w(code) == 2 && Printing.Bytes(text) == Utf8.Encode(code)
    ensures var bytes := Strokes(text, s.scr.cols - 2) + ([ESCAPE, '['] + Dec(1) + "G");
            var t := Run(w, s, bytes);
            && t.Some?
            && Run(w, t.value, [ESCAPE, '['] + "" + "P") == None
            && var r := CursorRow(t.value.scr);
               |r| == s.scr.cols && BackOff(C.DeleteCells(r, 0, 1), |r| - 2) == -1
  {
    hide Run, Strokes, Dec;
    var strokes := Strokes(text, s.scr.cols - 2);
    assert RowOk(s.scr.grid[s.scr.row], s.scr.cols);
    StrokesLeaveTails(w, s, code, text, s.scr.cols - 2);
    var u := Run(w, s, strokes).value;
    RunColumn(w, u, 0);
    RunConcat(w, s, strokes, [ESCAPE, '['] + Dec(1) + "G");
    var t := Run(w, u, [ESCAPE, '['] + Dec(1) + "G").value;
    assert RowOk(t.scr.grid[t.scr.row], t.scr.cols);
    DeleteStrandsTail(w, t);
  }
}
