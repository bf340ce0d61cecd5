/** What a build leaves, refusals or not: when its glyphs stay apart, and what its entries stand for. */
module AtlasApart {
  import opened Text
  import opened Cells
  import opened AtlasPacking
  import opened AtlasRoom
  import opened AtlasBuild

  // ------------------------------------------------------------------ glyphs to store

  /** The glyphs a font has to store for a list of code points. */
  function Glyphs(f: Font, codes: seq<nat>, known: set<Key>): seq<Glyph> {
    if codes == [] then []
    else
      (if (codes[0], f.fontClass) !in known && Load(f, codes[0]).Some? then [Load(f, codes[0]).value] else [])
      + Glyphs(f, codes[1..], known)
  }

  lemma {:induction false} GlyphsSame(f: Font, codes: seq<nat>, known: set<Key>, more: set<Key>)
    requires forall i :: 0 <= i < |codes| ==> ((codes[i], f.fontClass) in known <==> (codes[i], f.fontClass) in more)
    ensures Glyphs(f, codes, known) == Glyphs(f, codes, more)
  {
    if codes != [] {
      GlyphsSame(f, codes[1..], known, more);
    }
  }

  /** No shelf can be added. */
  predicate Full(width: nat, h: Head) { BOUND * (h.shelves + 1) > width }

  /**
   * Glyphs put one after the other on the current shelf, from the pen to the first that does not fit,
   * spare everything stored before.
   */
  predicate StripSpares(placed: seq<Placed>, shelves: nat, pen: nat, width: nat, gs: seq<Glyph>)
    requires shelves >= 1
    decreases |gs|
  {
    gs == [] || pen + gs[0].width >= width ||
    (&& (forall i :: 0 <= i < |placed| ==> Spared(placed[i], shelves, pen, gs[0]))
     && StripSpares(placed, shelves, pen + gs[0].width, width, gs[1..]))
  }

  // ------------------------------------------------------------------- one font's loop

  predicate AllSettled(placed: seq<Placed>, shelves: nat, pen: nat) {
    forall i :: 0 <= i < |placed| ==> Settled(placed[i], shelves, pen)
  }

  lemma ApartSnoc(placed: seq<Placed>, q: Placed)
    ensures Apart(placed + [q]) <==> Apart(placed) && ClearOf(placed, q)
  {
    hide Clash;
    var all := placed + [q];
    if Apart(all) {
      assert forall i, j :: 0 <= i < j < |placed| ==> placed[i] == all[i] && placed[j] == all[j];
      forall i | 0 <= i < |placed| ensures !Clash(placed[i], q) {
        assert !Clash(all[i], all[|placed|]);
      }
    }
  }

  /** Every glyph of the font is no wider than the atlas. */
  ghost predicate FontFits(f: Font, width: nat) {
    forall code: nat :: Load(f, code).Some? ==> Load(f, code).value.width <= width
  }

  lemma SettledStep(width: nat, b: Build, g: Glyph)
    requires b.head.shelves >= 1 && b.head.pen <= width && g.width <= width
    requires AllSettled(b.placed, b.head.shelves, b.head.pen) && Apart(b.placed)
    requires NextSlot(width, b.head.shelves, b.head.pen, g.width).place.At?
    ensures var s := NextSlot(width, b.head.shelves, b.head.pen, g.width);
            var all := b.placed + [Placed(g, s.place.left, s.place.top)];
            AllSettled(all, s.shelves, s.pen) && Apart(all) && s.pen <= width
  {
    hide Settled, Clash, Disjoint, Inside;
    var s := NextSlot(width, b.head.shelves, b.head.pen, g.width);
    var q := Placed(g, s.place.left, s.place.top);
    SlotInside(width, b.head.shelves, b.head.pen, g);
    forall i | 0 <= i < |b.placed| ensures Settled(b.placed[i], s.shelves, s.pen) && !Clash(b.placed[i], q) {
      SlotIsFree(width, b.head.shelves, b.head.pen, g, b.placed[i]);
      ClashIff(b.placed[i], q);
    }
    ApartSnoc(b.placed, q);
  }

  lemma SettledWider(placed: seq<Placed>, shelves: nat, pen: nat, width: nat)
    requires AllSettled(placed, shelves, pen) && pen <= width
    ensures AllSettled(placed, shelves, width)
  {
  }

  /** With everything left of the pen, a font's loop stores no glyph over another. */
  lemma {:induction false} SettledLoop(f: Font, last: bool, width: nat, codes: seq<nat>, b: Build)
    requires b.head.shelves >= 1 && b.head.pen <= width && FontFits(f, width)
    requires AllSettled(b.placed, b.head.shelves, b.head.pen) && Apart(b.placed)
    ensures var r := LoadCodes(f, last, width, codes, b);
            && Apart(r.0.placed) && r.0.head.pen <= width
            && AllSettled(r.0.placed, r.0.head.shelves, width)
            && (if r.1 then Full(width, r.0.head) else AllSettled(r.0.placed, r.0.head.shelves, r.0.head.pen))
    decreases |codes|
  {
    hide AllSettled, Apart;
    if codes == [] {
      SettledWider(b.placed, b.head.shelves, b.head.pen, width);
    } else {
      var r := LoadCode(f, last, width, codes[0], b);
      if (codes[0], f.fontClass) !in b.chars && Load(f, codes[0]).Some? {
        var g := Load(f, codes[0]).value;
        if r.1 {
          SettledWider(b.placed, b.head.shelves, b.head.pen, width);
        } else {
          SettledStep(width, b, g);
        }
      }
      if !r.1 {
        SettledLoop(f, last, width, codes[1..], r.0);
      }
    }
  }

  /** Glyphs on the current shelf, left of the pen. */
  predicate OnStrip(strip: seq<Placed>, h: Head) {
    forall i :: 0 <= i < |strip| ==>
      strip[i].top == BOUND * (h.shelves - 1) && strip[i].left + strip[i].glyph.width <= h.pen
  }

  lemma StripStep(early: seq<Placed>, strip: seq<Placed>, h: Head, width: nat, g: Glyph)
    requires h.shelves >= 1 && AllSettled(early, h.shelves, width) && OnStrip(strip, h)
    ensures var q := Placed(g, h.pen, BOUND * (h.shelves - 1));
            && (Apart(early + strip + [q])
                <==> Apart(early + strip) && forall i :: 0 <= i < |early| ==> Spared(early[i], h.shelves, h.pen, g))
            && OnStrip(strip + [q], Head(h.shelves, h.pen + g.width))
  {
    hide Settled, Spared, Apart;
    var q := Placed(g, h.pen, BOUND * (h.shelves - 1));
    var all := early + strip;
    ApartSnoc(all, q);
    forall i | 0 <= i < |early| ensures Clash(early[i], q) <==> !Spared(early[i], h.shelves, h.pen, g) {
      ClashIffNotSpared(early[i], h.shelves, width, h.pen, g);
    }
    assert forall i :: 0 <= i < |strip| ==> !Clash(strip[i], q);
    assert forall i :: 0 <= i < |all| ==> all[i] == if i < |early| then early[i] else strip[i - |early|];
    assert ClearOf(all, q) <==> forall i :: 0 <= i < |early| ==> !Clash(early[i], q) by {
      hide Clash;
      assert forall i :: 0 <= i < |early| ==> all[i] == early[i];
    }
  }

  lemma StripSettled(early: seq<Placed>, strip: seq<Placed>, h: Head, width: nat)
    requires h.shelves >= 1 && AllSettled(early, h.shelves, width) && OnStrip(strip, h) && h.pen <= width
    ensures AllSettled(early + strip, h.shelves, width)
  {
  }

  /**
   * On a full shelf a font's loop keeps the glyphs apart if and only if they were, and the glyphs it
   * has to store, put one after the other from the pen, spare what was stored before the loop.
   */
  lemma {:induction false} FullLoop(f: Font, last: bool, width: nat, codes: seq<nat>, b: Build,
                                    early: seq<Placed>, strip: seq<Placed>)
    requires b.head.shelves >= 1 && b.head.pen <= width && FontFits(f, width) && Ascending(codes)
    requires Full(width, b.head) && b.placed == early + strip
    requires AllSettled(early, b.head.shelves, width) && OnStrip(strip, b.head)
    ensures var r := LoadCodes(f, last, width, codes, b);
            && r.0.head.shelves == b.head.shelves && r.0.head.pen <= width
            && AllSettled(r.0.placed, r.0.head.shelves, width)
            && (Apart(r.0.placed)
                <==> Apart(b.placed)
                     && StripSpares(early, b.head.shelves, b.head.pen, width, Glyphs(f, codes, b.chars.Keys)))
    decreases |codes|
  {
    hide AllSettled, Apart, OnStrip, Spared, Ascending;
    StripSettled(early, strip, b.head, width);
    if codes != [] {
      AscendingTail(codes);
      var r := LoadCode(f, last, width, codes[0], b);
      var rest := codes[1..];
      forall i | 0 <= i < |rest|
        ensures (rest[i], f.fontClass) in b.chars.Keys <==> (rest[i], f.fontClass) in r.0.chars.Keys
      {
        LaterKeys(f, last, width, codes, b, i + 1, f.fontClass);
      }
      GlyphsSame(f, rest, b.chars.Keys, r.0.chars.Keys);
      var gs := Glyphs(f, rest, b.chars.Keys);
      if (codes[0], f.fontClass) in b.chars || Load(f, codes[0]).None? {
        assert Glyphs(f, codes, b.chars.Keys) == gs;
        FullLoop(f, last, width, rest, r.0, early, strip);
      } else {
        var g := Load(f, codes[0]).value;
        assert Glyphs(f, codes, b.chars.Keys) == [g] + gs;
        assert ([g] + gs)[1..] == gs;
        if !r.1 {
          StripStep(early, strip, b.head, width, g);
          var q := Placed(g, b.head.pen, BOUND * (b.head.shelves - 1));
          assert r.0.placed == early + (strip + [q]) == early + strip + [q];
          FullLoop(f, last, width, rest, r.0, early, strip + [q]);
        }
      }
    }
  }

  // ------------------------------------------------------------------------- all fonts

  /** What holds between the loops: the shelf is full, or everything is left of the pen and apart. */
  predicate Between(width: nat, b: Build) {
    && b.head.shelves >= 1 && b.head.pen <= width && AllSettled(b.placed, b.head.shelves, width)
    && (Full(width, b.head) || (AllSettled(b.placed, b.head.shelves, b.head.pen) && Apart(b.placed)))
  }

  /** The loop of a font stores nothing over what was stored before it. */
  predicate LoopSpares(f: Font, width: nat, codes: seq<nat>, b: Build)
    requires b.head.shelves >= 1
  {
    Full(width, b.head) ==>
      StripSpares(b.placed, b.head.shelves, b.head.pen, width, Glyphs(f, codes, b.chars.Keys))
  }

  lemma LoopApartIff(f: Font, last: bool, width: nat, codes: seq<nat>, b: Build)
    requires Between(width, b) && FontFits(f, width) && Ascending(codes)
    ensures var r := LoadCodes(f, last, width, codes, b).0;
            Between(width, r) && (Apart(r.placed) <==> Apart(b.placed) && LoopSpares(f, width, codes, b))
  {
    hide AllSettled, Apart, LoadCodes, StripSpares, Glyphs;
    if Full(width, b.head) {
      assert b.placed == b.placed + [];
      assert OnStrip([], b.head);
      FullLoop(f, last, width, codes, b, b.placed, []);
    } else {
      SettledLoop(f, last, width, codes, b);
    }
  }

  /** Every font's loop, at the head and with the glyphs it starts from, spares what is there. */
  predicate AllLoopsSpare(fonts: seq<Font>, n: nat, width: nat, codes: seq<nat>)
    requires n <= |fonts|
  {
    forall k :: 0 <= k < n ==> LoopSpares(fonts[k], width, codes, LoadFonts(fonts[..k], width, codes))
  }

  lemma {:induction false} BeforeApart(fonts: seq<Font>, n: nat, width: nat, codes: seq<nat>)
    requires n <= |fonts| && Ascending(codes) && forall k :: 0 <= k < |fonts| ==> FontFits(fonts[k], width)
    ensures var b := LoadFonts(fonts[..n], width, codes);
            Between(width, b) && (Apart(b.placed) <==> AllLoopsSpare(fonts, n, width, codes))
    decreases n
  {
    hide LoadCodes, Between, Apart, LoopSpares, FontFits;
    if n == 0 {
      assert fonts[..0] == [];
      NothingBetween(width);
    } else {
      assert fonts[..n][..n - 1] == fonts[..n - 1];
      BeforeApart(fonts, n - 1, width, codes);
      LoopApartIff(fonts[n - 1], false, width, codes, LoadFonts(fonts[..n - 1], width, codes));
    }
  }

  lemma NothingBetween(width: nat)
    ensures Between(width, NOTHING) && Apart(NOTHING.placed)
  {
  }

  /**
   * The glyphs of a build stay apart, and with them the packing of `BuildFontAtlas`, if and only if each
   * font that starts on a full shelf, after a refusal with the pen at the refused width, has only glyphs
   * to store there that spare what is stored.
   */
  lemma ApartIff(fonts: seq<Font>, width: nat, codes: seq<nat>)
    requires Ascending(codes) && forall k :: 0 <= k < |fonts| ==> FontFits(fonts[k], width)
    ensures Apart(PlacedOf(fonts, width, codes)) <==> AllLoopsSpare(fonts, |fonts|, width, codes)
  {
    hide LoadCodes, Between, Apart, LoopSpares, FontFits;
    if fonts == [] {
      NothingBetween(width);
    } else {
      var n := |fonts| - 1;
      BeforeApart(fonts, n, width, codes);
      LoopApartIff(fonts[n], true, width, codes, LoadFonts(fonts[..n], width, codes));
    }
  }

  // --------------------------------------------------------------------------- entries

  /** The entry points at a stored glyph which font `k` has for the key, or as its regular missing character. */
  predicate Rectangle(c: Character, key: Key, fonts: seq<Font>, k: nat, p: Placed)
    requires k < |fonts|
  {
    && PointsAt(c, p)
    && ((fonts[k].fontClass == key.1 && Load(fonts[k], key.0) == Some(p.glyph))
        || (fonts[k].fontClass == Regular && p.glyph == fonts[k].notdef))
  }

  /** An entry made for want of a glyph, or the rectangle of a stored one that fits the key. */
  predicate Rightful(c: Character, key: Key, fonts: seq<Font>, placed: seq<Placed>) {
    || c == NO_CHARACTER
    || exists k, i :: 0 <= k < |fonts| && 0 <= i < |placed| && Rectangle(c, key, fonts, k, placed[i])
  }

  predicate AllRightful(b: Build, fonts: seq<Font>) {
    forall key :: key in b.chars ==> Rightful(b.chars[key], key, fonts, b.placed)
  }

  lemma RightfulMore(c: Character, key: Key, fonts: seq<Font>, placed: seq<Placed>, q: Placed)
    requires Rightful(c, key, fonts, placed)
    ensures Rightful(c, key, fonts, placed + [q])
  {
    if c != NO_CHARACTER {
      var k, i :| 0 <= k < |fonts| && 0 <= i < |placed| && Rectangle(c, key, fonts, k, placed[i]);
      assert (placed + [q])[i] == placed[i];
    }
  }

  /** The regular missing character is rightful for any key. */
  lemma AliasRightful(c: Character, key: Key, fonts: seq<Font>, placed: seq<Placed>)
    requires Rightful(c, (0, Regular), fonts, placed)
    ensures Rightful(c, key, fonts, placed)
  {
    if c != NO_CHARACTER {
      var k, i :| 0 <= k < |fonts| && 0 <= i < |placed| && Rectangle(c, (0, Regular), fonts, k, placed[i]);
      assert Rectangle(c, key, fonts, k, placed[i]);
    }
  }

  lemma CodeRightful(fonts: seq<Font>, k: nat, last: bool, width: nat, code: nat, b: Build)
    requires b.head.shelves >= 1 && k < |fonts| && AllRightful(b, fonts)
    ensures AllRightful(LoadCode(fonts[k], last, width, code, b).0, fonts)
  {
    hide Rightful;
    var f := fonts[k];
    var key := (code, f.fontClass);
    var r := LoadCode(f, last, width, code, b);
    if key in b.chars || r.1 {
    } else if Load(f, code).None? {
      EmptyRightful(key, fonts, b.placed);
      EmptyRightful((0, Regular), fonts, b.placed);
      if (0, Regular) in b.chars {
        AliasRightful(b.chars[(0, Regular)], key, fonts, b.placed);
      }
    } else {
      var q := r.0.placed[|b.placed|];
      forall other | other in r.0.chars ensures Rightful(r.0.chars[other], other, fonts, r.0.placed) {
        if other == key {
          StoredRightful(fonts, k, key, b.placed, q);
        } else {
          RightfulMore(b.chars[other], other, fonts, b.placed, q);
        }
      }
    }
  }

  lemma EmptyRightful(key: Key, fonts: seq<Font>, placed: seq<Placed>)
    ensures Rightful(NO_CHARACTER, key, fonts, placed)
  {
  }

  lemma StoredRightful(fonts: seq<Font>, k: nat, key: Key, placed: seq<Placed>, q: Placed)
    requires k < |fonts| && fonts[k].fontClass == key.1 && Load(fonts[k], key.0) == Some(q.glyph)
    ensures Rightful(CharacterOf(q), key, fonts, placed + [q])
  {
    assert (placed + [q])[|placed|] == q;
    assert Rectangle(CharacterOf(q), key, fonts, k, q);
  }

  lemma {:induction false} CodesRightful(fonts: seq<Font>, k: nat, last: bool, width: nat, codes: seq<nat>, b: Build)
    requires b.head.shelves >= 1 && k < |fonts| && AllRightful(b, fonts)
    ensures AllRightful(LoadCodes(fonts[k], last, width, codes, b).0, fonts)
    decreases |codes|
  {
    hide AllRightful;
    if codes != [] {
      CodeRightful(fonts, k, last, width, codes[0], b);
      var r := LoadCode(fonts[k], last, width, codes[0], b);
      if !r.1 {
        CodesRightful(fonts, k, last, width, codes[1..], r.0);
      }
    }
  }

  lemma {:induction false} FontsRightful(fonts: seq<Font>, n: nat, width: nat, codes: seq<nat>)
    requires n <= |fonts|
    ensures AllRightful(LoadFonts(fonts[..n], width, codes), fonts)
    decreases n
  {
    hide LoadCodes;
    if n > 0 {
      assert fonts[..n][..n - 1] == fonts[..n - 1];
      FontsRightful(fonts, n - 1, width, codes);
      CodesRightful(fonts, n - 1, false, width, codes, LoadFonts(fonts[..n - 1], width, codes));
    }
  }

  /**
   * Refusals or not: every entry of a build is empty, made for want of a glyph, or the rectangle of a
   * stored glyph that a font of the key's class has for its code point, or of a regular missing
   * character; and the right half of a wide character has the entry of the blank.
   */
  lemma EntriesRightful(fonts: seq<Font>, width: nat, codes: seq<nat>)
    ensures var chars := AtlasOf(fonts, width, codes);
            && (forall key :: key in chars && key != (WIDE_TAIL, Regular) ==>
                  Rightful(chars[key], key, fonts, PlacedOf(fonts, width, codes)))
            && (0x20, Regular) in chars && chars[(WIDE_TAIL, Regular)] == chars[(0x20, Regular)]
  {
    hide LoadCodes, Rightful;
    EmptyRightful((0x20, Regular), fonts, PlacedOf(fonts, width, codes));
    if fonts != [] {
      var n := |fonts| - 1;
      FontsRightful(fonts, n, width, codes);
      CodesRightful(fonts, n, true, width, codes, LoadFonts(fonts[..n], width, codes));
    }
  }
}
