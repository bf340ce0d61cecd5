/** The glyph cache: the loops of `BuildFontAtlas` over fonts and characters, and what its entries show. */
module AtlasCache {
  import opened Text
  import opened Cells
  import opened AtlasPacking
  import opened AtlasRoom
  import opened AtlasBuild
  import AtlasApart

  /** The glyph a key stands for: the first font of its class that has the code point. */
  function GlyphOf(fonts: seq<Font>, key: Key): Option<Glyph> {
    if fonts == [] then None
    else
      var rest := fonts[..|fonts| - 1];
      var f := fonts[|fonts| - 1];
      if GlyphOf(rest, key).Some? then GlyphOf(rest, key)
      else if f.fontClass == key.1 then Load(f, key.0)
      else None
  }

  /** The cached rectangle belongs to a stored copy of the key's glyph. */
  ghost predicate Shows(c: Character, g: Glyph, placed: seq<Placed>) {
    exists p :: p in placed && p.glyph == g && PointsAt(c, p)
  }

  /** It is the first one: a font of the class has the code point, and none before it. */
  lemma {:induction false} GlyphOfFirst(fonts: seq<Font>, key: Key, g: Glyph)
    ensures GlyphOf(fonts, key) == Some(g)
            <==> exists k :: 0 <= k < |fonts| && FirstWith(fonts, key, k) && Load(fonts[k], key.0) == Some(g)
    ensures GlyphOf(fonts, key).None? <==> forall k :: 0 <= k < |fonts| ==> !Has(fonts[k], key)
    decreases |fonts|
  {
    if fonts != [] {
      var rest, f := fonts[..|fonts| - 1], fonts[|fonts| - 1];
      GlyphOfFirst(rest, key, g);
      forall k | 0 <= k < |rest| ensures FirstWith(fonts, key, k) <==> FirstWith(rest, key, k) {
      }
      assert Has(f, key) && GlyphOf(rest, key).None? ==> FirstWith(fonts, key, |rest|);
      if GlyphOf(rest, key).Some? {
        var k :| 0 <= k < |rest| && Has(rest[k], key);
        assert !FirstWith(fonts, key, |rest|);
      }
    }
  }

  /** A font of the class has a glyph for the code point. */
  predicate Has(f: Font, key: Key) { f.fontClass == key.1 && Load(f, key.0).Some? }

  predicate FirstWith(fonts: seq<Font>, key: Key, k: nat)
    requires k < |fonts|
  {
    Has(fonts[k], key) && forall j :: 0 <= j < k ==> !Has(fonts[j], key)
  }

  /** Pixel (x, y) of a glyph. */
  function PixelOf(g: Glyph, x: nat, y: nat): nat
    requires GlyphOk(g) && x < g.width && y < g.rows
  {
    SourceInside(g, x, y);
    g.pixels[g.width * y + x]
  }

  /**
   * The entry is the rectangle of the glyph in the bitmap: it has the glyph's size, it lies in the bitmap
   * and holds the kept lines of the glyph pixel by pixel, and its other corner is the last column and row.
   */
  ghost predicate ReadsAs(c: Character, g: Glyph, bitmap: seq<nat>, width: nat) {
    && GlyphOk(g) && c.width == g.width && c.height == g.rows
    && c.left + g.width <= width && width * (c.top + (if g.rows < BOUND then g.rows else BOUND)) <= |bitmap|
    && (forall x: nat, y: nat :: x < g.width && y < g.rows && y < BOUND ==>
          Pixel(bitmap, width, c.left + x, c.top + y) == PixelOf(g, x, y))
    && (0 < c.left + g.width <= 0x1_0000_0000 ==> c.right == c.left + g.width - 1)
    && (0 < c.top + g.rows <= 0x1_0000_0000 ==> c.bottom == c.top + g.rows - 1)
  }

  /** In a packing that stands, an entry that shows a stored glyph reads as that glyph. */
  lemma ShownReadsAs(c: Character, g: Glyph, bm: Bitmap)
    requires bm.Packed() && Shows(c, g, bm.placed)
    ensures ReadsAs(c, g, bm.bitmap, bm.width)
  {
    hide Source, Pixel;
    var p :| p in bm.placed && p.glyph == g && PointsAt(c, p);
    var i :| 0 <= i < |bm.placed| && bm.placed[i] == p;
    Monotone(bm.width, c.top + Kept(g), BOUND * bm.numRows);
    forall x: nat, y: nat | x < g.width && y < Kept(g)
      ensures Pixel(bm.bitmap, bm.width, c.left + x, c.top + y) == PixelOf(g, x, y)
    {
      assert Covers(p, c.left + x, c.top + y);
      SourceAt(p, x, y);
    }
  }

  lemma SourceAt(p: Placed, x: nat, y: nat)
    requires GlyphOk(p.glyph) && x < p.glyph.width && y < Kept(p.glyph)
    ensures Source(p, p.left + x, p.top + y) == PixelOf(p.glyph, x, y)
  {
  }

  lemma GlyphOfSnoc(fonts: seq<Font>, f: Font, key: Key)
    ensures GlyphOf(fonts + [f], key) == if GlyphOf(fonts, key).Some? then GlyphOf(fonts, key)
                                         else if f.fontClass == key.1 then Load(f, key.0) else None
  {
    assert (fonts + [f])[..|fonts|] == fonts;
  }

  /** The entry of a key is right for a list of fonts. */
  ghost predicate Served(chars: map<Key, Character>, fonts: seq<Font>, key: Key, placed: seq<Placed>) {
    GlyphOf(fonts, key).Some? ==> key in chars && Shows(chars[key], GlyphOf(fonts, key).value, placed)
  }

  lemma ShowsMore(c: Character, g: Glyph, placed: seq<Placed>, p: Placed)
    requires Shows(c, g, placed)
    ensures Shows(c, g, placed + [p])
  {
    var q :| q in placed && q.glyph == g && PointsAt(c, q);
    assert q in placed + [p];
  }

  /** What one turn of the character loop may do to cache and store. */
  ghost predicate Outcome(f: Font, last: bool, code: nat, known: map<Key, Character>, chars: map<Key, Character>,
                          before: seq<Placed>, after: seq<Placed>, p: Placed)
  {
    var key := (code, f.fontClass);
    if key in known then chars == known && after == before
    else if Load(f, code).Some? then
      && p.glyph == Load(f, code).value && after == before + [p]
      && key in chars && PointsAt(chars[key], p) && chars == known[key := chars[key]]
    else
      && after == before
      && chars == if last then Alias(known, key) else known
  }

  /** The build that a cache and a bitmap stand for. */
  ghost function Built(chars: map<Key, Character>, bm: Bitmap): Build
    reads bm
  {
    Build(chars, Head(bm.numRows, bm.rowPointer), bm.placed)
  }

  /**
   * The body of the character loop: one code point of one font. `refused` when the atlas has
   * no room left for its glyph.
   */
  method LoadCharacter(f: Font, last: bool, code: nat, known: map<Key, Character>, bm: Bitmap)
    returns (refused: bool, chars: map<Key, Character>, ghost p: Placed)
    requires bm.Safe()
    requires Load(f, code).Some? ==> GlyphOk(Load(f, code).value) && Load(f, code).value.width <= bm.width
    modifies bm
    ensures bm.Safe() && (old(bm.Valid()) && !refused ==> bm.Valid())
    ensures old(bm.Exact()) ==> bm.Exact()
    ensures !refused ==> Outcome(f, last, code, known, chars, old(bm.placed), bm.placed, p)
    ensures (Built(chars, bm), refused)
         == LoadCode(f, last, bm.width, code, old(Built(known, bm)))
  {
    refused, chars, p := false, known, Placed(f.notdef, 0, 0);
    if (code, f.fontClass) in chars {
      return;
    }
    var loaded := Load(f, code);
    if loaded.None? {
      if last {
        var r := ReadOrCreate(chars, (0, Regular));
        chars := r.0[(code, f.fontClass) := r.1];
      }
      return;
    }
    var g := loaded.value;
    var ok, left, top := bm.Place(g);
    if !ok {
      refused := true;
      return;
    }
    p := Placed(g, left, top);
    chars := chars[(code, f.fontClass) :=
      Character(left, Unsigned(left + g.width - 1), top, Unsigned(top + g.rows - 1), g.width, g.rows)];
  }

  /**
   * The state of the character loop of font `f` before code point number `j`: code points done
   * are served by the fonts up to `f`, those to come by the fonts before it.
   */
  ghost predicate Midway(chars: map<Key, Character>, fonts: seq<Font>, f: Font, last: bool, codes: seq<nat>,
                         j: nat, placed: seq<Placed>)
  {
    && (forall i, c {:trigger KeyAt(codes, i, c)} :: 0 <= i < |codes| ==>
          Served(chars, if i < j then fonts + [f] else fonts, KeyAt(codes, i, c), placed))
    && (forall i, c {:trigger KeyAt(codes, i, c)} :: 0 <= i < |codes| && KeyAt(codes, i, c) in chars ==>
          if i >= j then GlyphOf(fonts, KeyAt(codes, i, c)).Some?
          else !last || (c != f.fontClass && c != Regular) ==> GlyphOf(fonts + [f], KeyAt(codes, i, c)).Some?)
    && (last && f.fontClass == Regular ==> forall i {:trigger codes[i]} :: 0 <= i < |codes| && i < j ==>
          Substituted(chars, fonts + [f], codes, codes[i]))
  }

  /** With code point 0 loaded, a code point that no regular font has gets the regular missing character. */
  ghost predicate Substituted(chars: map<Key, Character>, fonts: seq<Font>, codes: seq<nat>, code: nat) {
    codes != [] && codes[0] == 0 && GlyphOf(fonts, (code, Regular)).None? ==>
      (code, Regular) in chars && (0, Regular) in chars && chars[(code, Regular)] == chars[(0, Regular)]
  }

  /** A regular font has the missing character. */
  lemma MissingGlyph(fonts: seq<Font>, f: Font)
    requires f.fontClass == Regular
    ensures GlyphOf(fonts + [f], (0, Regular)).Some?
  {
    GlyphOfSnoc(fonts, f, (0, Regular));
  }

  /** One turn of the character loop of a regular last font keeps the substitutes and makes the next. */
  lemma SubstitutesKept(fonts: seq<Font>, f: Font, codes: seq<nat>, j: nat, i: nat,
                        known: map<Key, Character>, chars: map<Key, Character>,
                        before: seq<Placed>, after: seq<Placed>, p: Placed)
    requires Ascending(codes) && j < |codes| && i <= j && f.fontClass == Regular
    requires i < j ==> Substituted(known, fonts + [f], codes, codes[i])
    requires j > 0 ==> Served(known, fonts + [f], (codes[0], Regular), before)
    requires (codes[j], Regular) in known ==> GlyphOf(fonts, (codes[j], Regular)).Some?
    requires Outcome(f, true, codes[j], known, chars, before, after, p)
    ensures Substituted(chars, fonts + [f], codes, codes[i])
  {
    hide GlyphOf, Shows;
    MissingGlyph(fonts, f);
    GlyphOfSnoc(fonts, f, (codes[j], Regular));
    assert j > 0 ==> codes[0] < codes[j];
  }

  function KeyAt(codes: seq<nat>, i: nat, c: FontClass): Key
    requires i < |codes|
  {
    (codes[i], c)
  }

  /** Keys of other code points keep their entries in one turn; only (0, Regular) may be created. */
  lemma OtherKeyKept(f: Font, last: bool, code: nat, known: map<Key, Character>, chars: map<Key, Character>,
                     before: seq<Placed>, after: seq<Placed>, p: Placed, fonts: seq<Font>, key: Key)
    requires Outcome(f, last, code, known, chars, before, after, p)
    requires key != (code, f.fontClass)
    ensures Served(known, fonts, key, before) ==> Served(chars, fonts, key, after)
    ensures key in known ==> key in chars
    ensures key in chars && key !in known ==> last && key == (0, Regular)
  {
    if Served(known, fonts, key, before) && GlyphOf(fonts, key).Some? {
      ShowsMore(known[key], GlyphOf(fonts, key).value, before, p);
    }
  }

  /** The entry of the code point just loaded serves the extended list of fonts. */
  lemma LoadedKeyServed(f: Font, last: bool, code: nat, known: map<Key, Character>, chars: map<Key, Character>,
                        before: seq<Placed>, after: seq<Placed>, p: Placed, fonts: seq<Font>)
    requires Outcome(f, last, code, known, chars, before, after, p)
    requires Served(known, fonts, (code, f.fontClass), before)
    requires (code, f.fontClass) in known ==> GlyphOf(fonts, (code, f.fontClass)).Some?
    ensures Served(chars, fonts + [f], (code, f.fontClass), after)
    ensures (code, f.fontClass) in chars && !last ==> GlyphOf(fonts + [f], (code, f.fontClass)).Some?
    ensures last ==> (code, f.fontClass) in chars
  {
    var key := (code, f.fontClass);
    GlyphOfSnoc(fonts, f, key);
    if key !in known && Load(f, code).Some? {
      assert p in after;
    }
  }

  /** One turn of the character loop. */
  lemma Advance(fonts: seq<Font>, f: Font, last: bool, codes: seq<nat>, j: nat,
                known: map<Key, Character>, chars: map<Key, Character>,
                before: seq<Placed>, after: seq<Placed>, p: Placed)
    requires Ascending(codes) && j < |codes|
    requires Midway(known, fonts, f, last, codes, j, before)
    requires Outcome(f, last, codes[j], known, chars, before, after, p)
    ensures Midway(chars, fonts, f, last, codes, j + 1, after)
  {
    hide Served, Outcome, GlyphOf;
    forall i, c | 0 <= i < |codes|
      ensures Served(chars, if i < j + 1 then fonts + [f] else fonts, KeyAt(codes, i, c), after)
      ensures KeyAt(codes, i, c) in chars ==>
                if i >= j + 1 then GlyphOf(fonts, KeyAt(codes, i, c)).Some?
                else !last || (c != f.fontClass && c != Regular) ==>
                       GlyphOf(fonts + [f], KeyAt(codes, i, c)).Some?
    {
      var key := KeyAt(codes, i, c);
      var now := if i < j then fonts + [f] else fonts;
      assert Served(known, now, key, before);
      GlyphOfSnoc(fonts, f, key);
      if i == j && c == f.fontClass {
        LoadedKeyServed(f, last, codes[j], known, chars, before, after, p, fonts);
      } else {
        assert key != (codes[j], f.fontClass);
        OtherKeyKept(f, last, codes[j], known, chars, before, after, p, now, key);
        if i == j {
          SameGlyphServed(chars, fonts, fonts + [f], key, after);
        }
      }
    }
    if last && f.fontClass == Regular {
      assert j > 0 ==> Served(known, fonts + [f], KeyAt(codes, 0, Regular), before);
      assert KeyAt(codes, j, Regular) in known ==> GlyphOf(fonts, KeyAt(codes, j, Regular)).Some?;
      forall i | 0 <= i < |codes| && i < j + 1 ensures Substituted(chars, fonts + [f], codes, codes[i]) {
        SubstitutesKept(fonts, f, codes, j, i, known, chars, before, after, p);
      }
    }
  }

  lemma SameGlyphServed(chars: map<Key, Character>, a: seq<Font>, b: seq<Font>, key: Key, placed: seq<Placed>)
    requires Served(chars, a, key, placed) && GlyphOf(b, key) == GlyphOf(a, key)
    ensures Served(chars, b, key, placed)
  {
  }

  /** The character loop of one font; a refused glyph ends it early. */
  method LoadFont(ghost fonts: seq<Font>, f: Font, last: bool, codes: seq<nat>, known: map<Key, Character>, bm: Bitmap)
    returns (refused: bool, chars: map<Key, Character>)
    requires bm.Safe() && Ascending(codes)
    requires forall code: nat :: Load(f, code).Some? ==>
               GlyphOk(Load(f, code).value) && Load(f, code).value.width <= bm.width
    modifies bm
    ensures bm.Safe() && (old(bm.Valid()) && !refused ==> bm.Valid())
    ensures old(bm.Exact()) ==> bm.Exact()
    ensures !refused && Midway(known, fonts, f, last, codes, 0, old(bm.placed)) ==>
              Midway(chars, fonts, f, last, codes, |codes|, bm.placed)
    ensures (Built(chars, bm), refused)
         == LoadCodes(f, last, bm.width, codes, old(Built(known, bm)))
  {
    hide LoadCode, Midway, Outcome;
    refused, chars := false, known;
    ghost var start := Built(known, bm);
    ghost var valid, exact := bm.Valid(), bm.Exact();
    ghost var ready := Midway(known, fonts, f, last, codes, 0, bm.placed);
    assert codes[0..] == codes;
    var j := 0;
    while j < |codes|
      invariant 0 <= j <= |codes| && bm.Safe() && !refused
      invariant (valid ==> bm.Valid()) && (exact ==> bm.Exact())
      invariant ready ==> Midway(chars, fonts, f, last, codes, j, bm.placed)
      invariant LoadCodes(f, last, bm.width, codes[j..], Built(chars, bm))
             == LoadCodes(f, last, bm.width, codes, start)
    {
      assert codes[j..][0] == codes[j] && codes[j..][1..] == codes[j + 1..];
      ghost var before, was := bm.placed, chars;
      ghost var p: Placed;
      refused, chars, p := LoadCharacter(f, last, codes[j], chars, bm);
      if refused {
        return;
      }
      if ready {
        Advance(fonts, f, last, codes, j, was, chars, before, bm.placed, p);
      }
      j := j + 1;
    }
  }

  /** The loop over the fonts. A refused glyph ends the loop of its font only. */
  method LoadAllFonts(fonts: seq<Font>, codes: seq<nat>, width: nat)
    returns (chars: map<Key, Character>, bm: Bitmap, refused: bool)
    requires Ascending(codes) && Fits(fonts, width)
    ensures fresh(bm) && bm.Safe() && bm.Exact() && bm.width == width
    ensures Built(chars, bm) == if fonts == [] then NOTHING else LoopOf(fonts, |fonts| - 1, width, codes).0
    ensures refused <==> exists m :: 0 <= m < |fonts| && LoopOf(fonts, m, width, codes).1
    ensures !refused ==> bm.Valid()
    ensures !refused && fonts != [] ==>
              Midway(chars, fonts[..|fonts| - 1], fonts[|fonts| - 1], true, codes, |codes|, bm.placed)
  {
    hide LoadCodes, Midway;
    bm := new Bitmap(width);
    chars, refused := map[], false;
    ghost var n := |fonts|;
    if n > 0 {
      FirstFont(fonts, n == 1, codes);
      assert fonts[..0] == [];
    }
    var k := 0;
    while k < |fonts|
      invariant 0 <= k <= n && bm.Safe() && bm.Exact() && fresh(bm) && bm.width == width
      invariant k < n ==> Built(chars, bm) == LoadFonts(fonts[..k], width, codes)
      invariant k == n > 0 ==> Built(chars, bm) == LoopOf(fonts, n - 1, width, codes).0
      invariant refused <==> exists m :: 0 <= m < k && LoopOf(fonts, m, width, codes).1
      invariant !refused ==> bm.Valid()
      invariant !refused && k < n ==> Midway(chars, fonts[..k], fonts[k], k == n - 1, codes, 0, bm.placed)
      invariant !refused && k == n > 0 ==> Midway(chars, fonts[..k - 1], fonts[k - 1], true, codes, |codes|, bm.placed)
      invariant k == n == 0 ==> Built(chars, bm) == NOTHING
    {
      var r: bool;
      assert forall code: nat :: Load(fonts[k], code).Some? ==>
               GlyphOk(Load(fonts[k], code).value) && Load(fonts[k], code).value.width <= width;
      r, chars := LoadFont(fonts[..k], fonts[k], k == |fonts| - 1, codes, chars, bm);
      assert r == LoopOf(fonts, k, width, codes).1;
      refused := refused || r;
      assert fonts[..k] + [fonts[k]] == fonts[..k + 1];
      assert fonts[..k + 1][..k] == fonts[..k];
      if !refused && k + 1 < |fonts| {
        NextFont(chars, fonts, k, codes, bm.placed);
      }
      k := k + 1;
    }
  }

  /**
   * `BuildFontAtlas`: all fonts over all code points, then the entry for right halves of wide
   * characters. The cache is the one of `AtlasOf`. The packing stands exactly if the glyphs of
   * `PlacedOf` do not clash, that is, if after a refusal every font's glyphs spare what is stored; it
   * does without a refusal, and then the entries show the stored glyphs of the first font that has them.
   */
  method BuildFontAtlas(fonts: seq<Font>, codes: seq<nat>, width: nat)
    returns (chars: map<Key, Character>, bm: Bitmap, refused: bool)
    requires Ascending(codes) && Fits(fonts, width)
    ensures fresh(bm) && bm.Safe() && bm.width == width
    ensures chars == AtlasOf(fonts, width, codes)
    ensures bm.placed == PlacedOf(fonts, width, codes)
    ensures refused <==> !Unrefused(fonts, width, codes)
    ensures bm.Packed() <==> Apart(PlacedOf(fonts, width, codes))
    ensures bm.Packed() <==> AtlasApart.AllLoopsSpare(fonts, |fonts|, width, codes)
    ensures !refused ==> bm.Valid()
    ensures !refused ==> forall i, c {:trigger KeyAt(codes, i, c)} ::
              0 <= i < |codes| && KeyAt(codes, i, c) != (WIDE_TAIL, Regular) ==>
                Entered(chars, fonts, KeyAt(codes, i, c), bm.bitmap, width)
    ensures !refused && fonts != [] && fonts[|fonts| - 1].fontClass == Regular ==> forall i {:trigger codes[i]} ::
              0 <= i < |codes| && codes[i] != WIDE_TAIL ==>
                Substituted(chars, fonts, codes, codes[i]) && OwnGlyphsOnly(chars, fonts, codes[i])
    ensures (0x20, Regular) in chars && (WIDE_TAIL, Regular) in chars
         && chars[(WIDE_TAIL, Regular)] == chars[(0x20, Regular)]
  {
    hide LoadCodes, LoadFonts, Midway, Apart, Fits, AtlasApart.AllLoopsSpare, ReadsAs;
    chars, bm, refused := LoadAllFonts(fonts, codes, width);
    FontsFit(fonts, width);
    AtlasApart.ApartIff(fonts, width, codes);
    ghost var done := chars;
    var r := ReadOrCreate(chars, (0x20, Regular));
    chars := r.0[(WIDE_TAIL, Regular) := r.1];
    if !refused {
      FinishBuild(done, chars, fonts, codes, bm);
    }
  }

  lemma FontsFit(fonts: seq<Font>, width: nat)
    requires Fits(fonts, width)
    ensures forall k :: 0 <= k < |fonts| ==> AtlasApart.FontFits(fonts[k], width)
  {
  }

  /** Before the first font nothing is cached and nothing is served. */
  lemma FirstFont(fonts: seq<Font>, last: bool, codes: seq<nat>)
    requires fonts != []
    ensures Midway(map[], [], fonts[0], last, codes, 0, [])
  {
  }

  lemma NextFont(chars: map<Key, Character>, fonts: seq<Font>, k: nat, codes: seq<nat>, placed: seq<Placed>)
    requires k + 1 < |fonts| && fonts[..k] + [fonts[k]] == fonts[..k + 1]
    requires Midway(chars, fonts[..k], fonts[k], false, codes, |codes|, placed)
    ensures Midway(chars, fonts[..k + 1], fonts[k + 1], k + 1 == |fonts| - 1, codes, 0, placed)
  {
  }

  /** A key whose glyph a font of its class has is cached and reads as the glyph of the first such font. */
  ghost predicate Entered(chars: map<Key, Character>, fonts: seq<Font>, key: Key, bitmap: seq<nat>, width: nat) {
    GlyphOf(fonts, key).Some? ==> key in chars && ReadsAs(chars[key], GlyphOf(fonts, key).value, bitmap, width)
  }

  /** Classes other than the regular one have entries for glyphs of their own fonts only. */
  ghost predicate OwnGlyphsOnly(chars: map<Key, Character>, fonts: seq<Font>, code: nat) {
    forall c: FontClass :: c != Regular && (code, c) in chars ==> GlyphOf(fonts, (code, c)).Some?
  }

  lemma FinishBuild(done: map<Key, Character>, chars: map<Key, Character>, fonts: seq<Font>, codes: seq<nat>,
                    bm: Bitmap)
    requires bm.Packed()
    requires fonts != [] ==>
               Midway(done, fonts[..|fonts| - 1], fonts[|fonts| - 1], true, codes, |codes|, bm.placed)
    requires chars == Finish(done)
    ensures forall i, c {:trigger KeyAt(codes, i, c)} ::
              0 <= i < |codes| && KeyAt(codes, i, c) != (WIDE_TAIL, Regular) ==>
                Entered(chars, fonts, KeyAt(codes, i, c), bm.bitmap, bm.width)
    ensures fonts != [] && fonts[|fonts| - 1].fontClass == Regular ==> forall i {:trigger codes[i]} ::
              0 <= i < |codes| && codes[i] != WIDE_TAIL ==>
                Substituted(chars, fonts, codes, codes[i]) && OwnGlyphsOnly(chars, fonts, codes[i])
  {
    hide ReadsAs, Shows;
    if fonts == [] {
      return;
    }
    var f := fonts[|fonts| - 1];
    assert fonts[..|fonts| - 1] + [f] == fonts;
    forall i, c | 0 <= i < |codes| && KeyAt(codes, i, c) != (WIDE_TAIL, Regular)
      ensures Entered(chars, fonts, KeyAt(codes, i, c), bm.bitmap, bm.width)
    {
      var key := KeyAt(codes, i, c);
      assert Served(done, fonts, key, bm.placed);
      if GlyphOf(fonts, key).Some? {
        ShownReadsAs(chars[key], GlyphOf(fonts, key).value, bm);
      }
    }
    if f.fontClass == Regular {
      forall i | 0 <= i < |codes| && codes[i] != WIDE_TAIL
        ensures Substituted(chars, fonts, codes, codes[i]) && OwnGlyphsOnly(chars, fonts, codes[i])
      {
        assert Substituted(done, fonts, codes, codes[i]);
        forall c: FontClass | c != Regular && (codes[i], c) in chars ensures GlyphOf(fonts, (codes[i], c)).Some? {
          assert KeyAt(codes, i, c) in done;
        }
      }
    }
  }
}
