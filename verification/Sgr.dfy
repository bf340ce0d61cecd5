/** Select Graphic Rendition (CSI Pm m): the style as a function of the parameter list. */
module Sgr {
  import opened Text
  import opened Cells

  /** A parameter that stands alone. Unknown parameters leave the style as it is. */
  function Simple(p: int, st: Style): Style {
    if p == 0 || p == 10 then DEFAULT_STYLE
    else if p == 1 then st.(font := Bold)
    else if p == 5 || p == 6 then st.(blink := true)
    else if p == 7 || p == 27 then st.(fore := st.back, back := st.fore)
    else if p == 22 then st.(font := Regular)
    else if p == 25 then st.(blink := false)
    else if 30 <= p <= 37 then st.(fore := Ansi(p - 30))
    else if p == 39 then st.(fore := BLACK)
    else if 40 <= p <= 47 then st.(back := Ansi(p - 40))
    else if p == 49 then st.(back := WHITE)
    else if 90 <= p <= 97 then st.(fore := Ansi(8 + p - 90))
    else if 100 <= p <= 107 then st.(back := Ansi(8 + p - 100))
    else st
  }

  /** The number `sscanf` leaves in a variable that was 0. */
  function Param(part: string): int { Scan(part).GetOr(0) }

  /** 38 and 48 open a colour group. */
  predicate Extended(p: int) { p == 38 || p == 48 }

  function Paint(p: int, c: Color, st: Style): Style {
    if p == 38 then st.(fore := c) else st.(back := c)
  }

  /** `uint8_t` conversion of an `int`. */
  function Octet(n: int): nat { n % 0x100 }

  /**
   * How many parts the group at the head of `parts` uses. A group whose colour is cut off
   * by the end of the list uses only the header and the colour type.
   */
  function GroupSize(parts: seq<string>): (n: nat)
    requires parts != [] && Extended(Param(parts[0]))
    requires |parts| > 1 ==> Stoi(parts[1]).Some?
    ensures 1 <= n <= |parts|
  {
    if |parts| == 1 then 1
    else if Stoi(parts[1]).value == 5 && |parts| > 2 then 3
    else if Stoi(parts[1]).value == 2 && |parts| > 4 then 5
    else 2
  }

  /** The colour group at the head; `None` when `std::stoi` throws. */
  function Group(parts: seq<string>, st: Style): Option<Style>
    requires parts != [] && Extended(Param(parts[0]))
  {
    if |parts| > 1 && Stoi(parts[1]).None? then None
    else
      var n := GroupSize(parts);
      if n == 3 then
        if Stoi(parts[2]).None? then None
        else Some(Paint(Param(parts[0]), Table(Octet(Stoi(parts[2]).value)), st))
      else if n == 5 then
        var r, g, b := Stoi(parts[2]), Stoi(parts[3]), Stoi(parts[4]);
        if r.None? || g.None? || b.None? then None
        else Some(Paint(Param(parts[0]), Rgb(Octet(r.value), Octet(g.value), Octet(b.value)), st))
      else Some(st)
  }

  /** The style after a whole parameter list; `None` where a number is no `int` or `std::stoi` throws. */
  function Apply(parts: seq<string>, st: Style): Option<Style>
    decreases |parts|
  {
    if parts == [] then Some(st)
    else if !Readable(parts[0]) then None
    else if Extended(Param(parts[0])) then
      var g := Group(parts, st);
      if g.None? then None else Apply(parts[GroupSize(parts)..], g.value)
    else Apply(parts[1..], Simple(Param(parts[0]), st))
  }

  /** Every part that `sscanf` reads is no number or an `int`; every part `std::stoi` reads is an `int`. */
  predicate Numeric(parts: seq<string>)
    decreases |parts|
  {
    if parts == [] then true
    else if !Readable(parts[0]) then false
    else if !Extended(Param(parts[0])) then Numeric(parts[1..])
    else
      && (|parts| > 1 ==> Stoi(parts[1]).Some?)
      && var n := GroupSize(parts);
         && (forall i :: 1 <= i < n ==> Stoi(parts[i]).Some?)
         && Numeric(parts[n..])
  }

  /** The parameter loop has an outcome exactly on the numeric lists, whatever the style. */
  lemma {:induction false} DefinedIffNumeric(parts: seq<string>, st: Style)
    ensures Apply(parts, st).Some? <==> Numeric(parts)
    decreases |parts|
  {
    if parts != [] && Readable(parts[0]) {
      if !Extended(Param(parts[0])) {
        DefinedIffNumeric(parts[1..], Simple(Param(parts[0]), st));
      } else if |parts| == 1 || Stoi(parts[1]).Some? {
        var n := GroupSize(parts);
        var g := Group(parts, st);
        if g.Some? {
          DefinedIffNumeric(parts[n..], g.value);
        }
      }
    }
  }

  /** Only the regular and the bold font class are ever selected. */
  lemma {:induction false} KeepsWeight(parts: seq<string>, st: Style)
    requires st.font.Regular? || st.font.Bold?
    ensures var r := Apply(parts, st);
            r.Some? ==> r.value.font.Regular? || r.value.font.Bold?
    decreases |parts|
  {
    if parts != [] {
      if !Extended(Param(parts[0])) {
        KeepsWeight(parts[1..], Simple(Param(parts[0]), st));
      } else {
        var g := Group(parts, st);
        if g.Some? {
          KeepsWeight(parts[GroupSize(parts)..], g.value);
        }
      }
    }
  }

  /** No colour group of `parts` is cut off by the end of the list. */
  predicate Whole(parts: seq<string>)
    decreases |parts|
  {
    if parts == [] then true
    else if !Extended(Param(parts[0])) then Whole(parts[1..])
    else
      && |parts| > 1
      && Stoi(parts[1]).Some?
      && (Stoi(parts[1]).value == 5 ==> |parts| > 2)
      && (Stoi(parts[1]).value == 2 ==> |parts| > 4)
      && Whole(parts[GroupSize(parts)..])
  }

  function Then(a: Option<Style>, q: seq<string>): Option<Style> {
    if a.None? then None else Apply(q, a.value)
  }

  /** Parameters may be given in one list or in two, as long as no colour group is cut at the seam. */
  lemma {:induction false} ApplyConcat(p: seq<string>, q: seq<string>, st: Style)
    requires Whole(p)
    ensures Apply(p + q, st) == Then(Apply(p, st), q)
    decreases |p|
  {
    if p == [] {
      assert p + q == q;
    } else {
      assert (p + q)[0] == p[0];
      if !Extended(Param(p[0])) {
        assert (p + q)[1..] == p[1..] + q;
        ApplyConcat(p[1..], q, Simple(Param(p[0]), st));
      } else {
        var n := GroupSize(p);
        assert n == GroupSize(p + q);
        assert (p + q)[n..] == p[n..] + q;
        assert Group(p + q, st) == Group(p, st);
        var g := Group(p, st);
        if g.Some? {
          ApplyConcat(p[n..], q, g.value);
        }
      }
    }
  }

  /**
   * The parameter loop, index and look-ahead as in the source; `ok` is false where `stoi` throws or
   * `sscanf` has no defined result.
   */
  method ApplyParts(parts: seq<string>, style: Style) returns (ok: bool, result: Style)
    ensures ok == Apply(parts, style).Some?
    ensures ok ==> result == Apply(parts, style).value
  {
    hide Scan, Stoi, Readable, Simple, Paint, Octet;
    result := style;
    var i := 0;
    assert parts[0..] == parts;
    while i < |parts|
      invariant 0 <= i <= |parts|
      invariant Apply(parts[i..], result) == Apply(parts, style)
      decreases |parts| - i
    {
      ghost var rest := parts[i..];
      if !Readable(parts[i]) { return false, style; }
      var param := Scan(parts[i]).GetOr(0);
      if param == 38 || param == 48 {
        if i + 1 < |parts| {
          assert rest[1] == parts[i + 1];
          i := i + 1;
          var kind := Stoi(parts[i]);
          if kind.None? { return false, style; }
          if kind.value == 5 && i + 1 < |parts| {
            assert GroupSize(rest) == 3 && rest[2] == parts[i + 1];
            i := i + 1;
            var index := Stoi(parts[i]);
            if index.None? { return false, style; }
            result := Paint(param, Table(Octet(index.value)), result);
          } else if kind.value == 2 && i + 3 < |parts| {
            assert GroupSize(rest) == 5;
            assert rest[2] == parts[i + 1] && rest[3] == parts[i + 2] && rest[4] == parts[i + 3];
            i := i + 1;
            var r := Stoi(parts[i]);
            if r.None? { return false, style; }
            i := i + 1;
            var g := Stoi(parts[i]);
            if g.None? { return false, style; }
            i := i + 1;
            var b := Stoi(parts[i]);
            if b.None? { return false, style; }
            result := Paint(param, Rgb(Octet(r.value), Octet(g.value), Octet(b.value)), result);
          } else {
            assert GroupSize(rest) == 2;
          }
        } else {
          assert GroupSize(rest) == 1;
        }
        assert rest[GroupSize(rest)..] == parts[i + 1..];
      } else {
        assert rest[1..] == parts[i + 1..];
        result := Simple(param, result);
      }
      i := i + 1;
    }
    ok := true;
  }
}
