/** Where an SGR parameter list may be cut in two, exactly. */
module SgrSeams {
  import opened Sequences
  import opened Text
  import opened Cells
  import opened Sgr
  import opened Display
  import C = Csi

  /** Two parameters no SGR knows; as colour components they differ. */
  const FIRST := "200"
  const SECOND := "201"

  predicate Unknown(c: string) { c == FIRST || c == SECOND }

  function Number(c: string): int { if c == FIRST then 200 else 201 }

  lemma ScanUnknown(c: string)
    requires Unknown(c)
    ensures Scan(c) == Stoi(c) == Some(Number(c)) && Readable(c)
  {
    var n := Number(c);
    assert Dec(2) == "2";
    assert Dec(20) == Dec(2) + [DigitOf(0)] == "20";
    assert Dec(n) == Dec(20) + [DigitOf(n % 10)];
    assert Dec(n) == c;
    ScanDec(n);
  }

  /** Unknown parameters leave every style as it is. */
  lemma {:induction false} ApplyUnknown(c: string, k: nat, st: Style)
    requires Unknown(c)
    ensures Apply(Rep(c, k), st) == Some(st)
    decreases k
  {
    ScanUnknown(c);
    if k > 0 {
      hide Scan, Stoi, Readable;
      assert Rep(c, k)[0] == c && Rep(c, k)[1..] == Rep(c, k - 1);
      ApplyUnknown(c, k - 1, st);
    } else {
      assert Rep(c, 0) == [];
    }
  }

  function Target(p: int, st: Style): Color { if p == 38 then st.fore else st.back }

  /** The last component of a colour, as a colour group would write it. */
  predicate EndsIn(c: Color, n: int) {
    c == Table(n % 0x100) || (c.Rgb? && c.blue == n % 0x100)
  }

  /** One of the two unknown parameters is not what colour `k` ends in. */
  function Other(k: Color): (c: string)
    ensures Unknown(c) && !EndsIn(k, Number(c))
  {
    if EndsIn(k, 200) then SECOND else FIRST
  }

  /** The colour group at the head is cut off by the end of the list. */
  predicate CutHead(p: seq<string>) {
    && p != [] && Extended(Param(p[0]))
    && (|p| > 1 ==> Stoi(p[1]).Some?)
    && (|p| > 1 ==> (Stoi(p[1]).value == 5 && |p| == 2) || (Stoi(p[1]).value == 2 && |p| <= 4))
  }

  lemma CutAfterHeader(p: seq<string>, st: Style) returns (q: seq<string>)
    requires CutHead(p) && |p| == 1
    ensures Apply(p + q, st) != Then(Apply(p, st), q)
  {
    var k := Param(p[0]);
    var c := Other(Target(k, st));
    q := ["5", c];
    ScanUnknown(c);
    ScanDec(5);
    assert Dec(5) == "5";
    hide Scan, Stoi, Readable;
    var all := p + q;
    assert all == [p[0], "5", c] && all[3..] == [];
    assert Apply(all, st) == Some(Paint(k, Table(Octet(Number(c))), st));
    assert p[1..] == [] && Apply(p, st) == Some(st);
    var s1 := st.(blink := true);
    assert q[1..] == [c] && [c][1..] == [];
    assert Apply([c], s1) == Some(s1);
    assert Apply(q, st) == Some(s1);
    assert Target(k, s1) == Target(k, st);
  }

  lemma CutAfterFive(p: seq<string>, st: Style) returns (q: seq<string>)
    requires CutHead(p) && |p| == 2 && Stoi(p[1]).value == 5
    ensures Apply(p + q, st) != Then(Apply(p, st), q)
  {
    var k := Param(p[0]);
    var c := Other(Target(k, st));
    q := [c];
    ScanUnknown(c);
    hide Scan, Stoi, Readable;
    var all := p + q;
    assert all == [p[0], p[1], c] && all[3..] == [];
    assert Apply(all, st) == Some(Paint(k, Table(Octet(Number(c))), st));
    assert p[2..] == [] && Apply(p, st) == Some(st);
    assert q[1..] == [] && Apply(q, st) == Some(st);
  }

  lemma CutInRgb(p: seq<string>, st: Style) returns (q: seq<string>)
    requires CutHead(p) && 2 <= |p| <= 4 && Stoi(p[1]).value == 2 && Numeric(p)
    ensures Apply(p + q, st) != Then(Apply(p, st), q)
  {
    hide Scan, Stoi, Readable;
    var k := Param(p[0]);
    DefinedIffNumeric(p[2..], st);
    var s1 := Apply(p[2..], st).value;
    assert Apply(p, st) == Some(s1);
    var c := Other(Target(k, s1));
    q := Rep(c, 5 - |p|);
    ScanUnknown(c);
    ApplyUnknown(c, 5 - |p|, s1);
    var all := p + q;
    assert |all| == 5 && all[0] == p[0] && all[1] == p[1] && all[4] == c && all[5..] == [];
    assert GroupSize(all) == 5;
    var g := Group(all, st);
    if g.Some? {
      assert Apply(all, st) == g;
      assert Target(k, g.value).Rgb? && Target(k, g.value).blue == Octet(Number(c));
    }
  }

  /** A list with a colour group cut off at its end has a continuation that tells the difference. */
  lemma {:induction false} CutSeamShows(p: seq<string>, st: Style) returns (q: seq<string>)
    requires Numeric(p) && !Whole(p)
    ensures Apply(p + q, st) != Then(Apply(p, st), q)
    decreases |p|
  {
    if CutHead(p) {
      if |p| == 1 {
        q := CutAfterHeader(p, st);
      } else if Stoi(p[1]).value == 5 {
        q := CutAfterFive(p, st);
      } else {
        q := CutInRgb(p, st);
      }
    } else if !Extended(Param(p[0])) {
      q := CutSeamShows(p[1..], Simple(Param(p[0]), st));
      assert (p + q)[0] == p[0] && (p + q)[1..] == p[1..] + q;
    } else {
      hide Scan, Stoi, Readable;
      var n := GroupSize(p);
      DefinedIffNumeric(p, st);
      var g := Group(p, st).value;
      q := CutSeamShows(p[n..], g);
      assert (p + q)[0] == p[0] && (p + q)[n..] == p[n..] + q;
      assert Group(p + q, st) == Group(p, st) && GroupSize(p + q) == n;
    }
  }

  /**
   * For every list the parser accepts: cutting after it never changes the outcome, whatever
   * follows and whatever the style, if and only if its last colour group is complete.
   */
  lemma SeamIsHarmlessIffWhole(p: seq<string>)
    requires Numeric(p)
    ensures Whole(p) <==> forall q: seq<string>, st: Style :: Apply(p + q, st) == Then(Apply(p, st), q)
  {
    if Whole(p) {
      forall q: seq<string>, st: Style ensures Apply(p + q, st) == Then(Apply(p, st), q) {
        ApplyConcat(p, q, st);
      }
    } else {
      var q := CutSeamShows(p, DEFAULT_STYLE);
    }
  }

  function AndThen(t: Option<Screen>, buf: string): Option<Screen>
    requires t.Some? ==> ScreenOk(t.value)
  {
    if t.None? then None else C.Rendition(t.value, buf)
  }

  /** On the wire: CSI a;b m does what CSI a m and then CSI b m do, unless `a` ends inside a colour group. */
  lemma RenditionSplits(s: Screen, a: string, b: string)
    requires ScreenOk(s) && Whole(C.Parts(a))
    requires (a != "" ==> a[0] != '>') && (b != "" ==> b[0] != '>')
    ensures C.Rendition(s, a + ";" + b) == AndThen(C.Rendition(s, a), b)
  {
    hide Split, Apply, ScreenOk, Numeric;
    SplitConcat(a, ';', b);
    ApplyConcat(C.Parts(a), C.Parts(b), s.style);
    assert (a + ";" + b)[0] != '>';
  }
}
