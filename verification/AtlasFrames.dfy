/** What `Draw` asks of the atlas, and how often the atlas is rebuilt. */
module AtlasFrames {
  import opened Sequences
  import opened Text
  import opened Cells
  import AtlasPacking
  import opened AtlasRoom
  import opened AtlasBuild
  import opened AtlasUniform
  import AtlasCache
  import opened Display
  import Parser
  import Sessions
  import Weights

  // ------------------------------------------------------------------------- drawing

  /** The lookup of `Draw`: the exact key, then the regular class. */
  function Resolve(chars: map<Key, Character>, cell: Cell): Option<Character> {
    if (cell.code, cell.style.font) in chars then Some(chars[(cell.code, cell.style.font)])
    else if (cell.code, Regular) in chars then Some(chars[(cell.code, Regular)])
    else None
  }

  /** What a cell is drawn as: the missing-character glyph of its class if it does not resolve. */
  function DrawnAs(chars: map<Key, Character>, cell: Cell): Option<Character> {
    if Resolve(chars, cell).Some? then Resolve(chars, cell)
    else if (0, cell.style.font) in chars then Some(chars[(0, cell.style.font)])
    else None
  }

  /** The assertion of `Draw` holds for every cell. */
  predicate Drawable(chars: map<Key, Character>, cells: seq<Cell>) {
    forall i :: 0 <= i < |cells| ==> DrawnAs(chars, cells[i]).Some?
  }

  /** The code points a frame asks for in vain. */
  function Missed(chars: map<Key, Character>, cells: seq<Cell>): set<nat> {
    set i | 0 <= i < |cells| && Resolve(chars, cells[i]).None? :: cells[i].code
  }

  /** Neither the class of the cell nor the regular class has an entry for its code point. */
  predicate Unknown(chars: map<Key, Character>, cell: Cell) {
    (cell.code, cell.style.font) !in chars && (cell.code, Regular) !in chars
  }

  /**
   * The cell loop of `Draw`. A cell is drawn as the entry of its own class, if there is none as the
   * regular entry, and if there is none as the missing-character glyph of its class. Cells without either
   * entry are added to the load set and ask for a rebuild. Not `ok` where the assertion that the
   * missing-character glyph is cached fails.
   */
  method DrawCells(chars: map<Key, Character>, load: set<nat>, cells: seq<Cell>)
    returns (ok: bool, newLoad: set<nat>, rebuild: bool, shown: seq<Character>)
    ensures ok <==> Drawable(chars, cells)
    ensures ok ==>
              && newLoad == load + Missed(chars, cells)
              && (rebuild <==> Missed(chars, cells) != {})
              && (rebuild <==> exists i :: 0 <= i < |cells| && Unknown(chars, cells[i]))
              && |shown| == |cells|
              && (forall i :: 0 <= i < |cells| && (cells[i].code, cells[i].style.font) in chars ==>
                    shown[i] == chars[(cells[i].code, cells[i].style.font)])
              && (forall i :: 0 <= i < |cells| && (cells[i].code, cells[i].style.font) !in chars
                              && (cells[i].code, Regular) in chars ==>
                    shown[i] == chars[(cells[i].code, Regular)])
              && (forall i :: 0 <= i < |cells| && Unknown(chars, cells[i]) ==>
                    (0, cells[i].style.font) in chars && shown[i] == chars[(0, cells[i].style.font)])
              && newLoad == load + set i | 0 <= i < |cells| && Unknown(chars, cells[i]) :: cells[i].code
    ensures !ok ==> exists i :: 0 <= i < |cells| && Unknown(chars, cells[i]) && (0, cells[i].style.font) !in chars
  {
    ok, newLoad, rebuild, shown := true, load, false, [];
    var i := 0;
    while i < |cells|
      invariant 0 <= i <= |cells| && ok && |shown| == i
      invariant newLoad == load + Missed(chars, cells[..i])
      invariant rebuild <==> Missed(chars, cells[..i]) != {}
      invariant forall k :: 0 <= k < i ==> DrawnAs(chars, cells[k]) == Some(shown[k])
    {
      MissedSnoc(chars, cells, i);
      var c := cells[i];
      var key := (c.code, c.style.font);
      if key !in chars {
        key := (c.code, Regular);
      }
      if key !in chars {
        rebuild := true;
        newLoad := newLoad + {c.code};
        key := (0, c.style.font);
        if key !in chars {
          ok := false;
          assert DrawnAs(chars, cells[i]).None?;
          return;
        }
      }
      shown := shown + [chars[key]];
      i := i + 1;
    }
    assert cells[..i] == cells;
    UnknownMissed(chars, cells);
  }

  /** The glyph a loaded cell is to show: that of its class, the regular one, or the regular missing character. */
  function GlyphFor(fonts: seq<Font>, code: nat, c: FontClass): Option<AtlasPacking.Glyph> {
    if AtlasCache.GlyphOf(fonts, (code, c)).Some? then AtlasCache.GlyphOf(fonts, (code, c))
    else if AtlasCache.GlyphOf(fonts, (code, Regular)).Some? then AtlasCache.GlyphOf(fonts, (code, Regular))
    else AtlasCache.GlyphOf(fonts, (0, Regular))
  }

  /** What stands in the cell: the right half of a wide character is drawn as the regular blank. */
  function DrawnCell(cell: Cell): Cell {
    if cell.code == WIDE_TAIL then Cell(0x20, cell.style.(font := Regular)) else cell
  }

  /** The glyph of a cell. */
  function CellGlyph(fonts: seq<Font>, cell: Cell): Option<AtlasPacking.Glyph> {
    GlyphFor(fonts, DrawnCell(cell).code, DrawnCell(cell).style.font)
  }

  predicate AllLoaded(load: set<nat>, cells: seq<Cell>) {
    forall i :: 0 <= i < |cells| ==> DrawnCell(cells[i]).code in load
  }

  /**
   * `BuildFontAtlas` and `Draw`, end to end: after a build in which no glyph was refused, with a regular
   * last font, a frame of loaded code points is drawn without asking for a rebuild, and what each cell
   * shows is, pixel by pixel, the glyph of the first font of its class that has it, else of the first
   * regular font that has it, else the first regular missing-character glyph. The right half of a wide
   * character shows the blank.
   */
  method BuildAndDraw(fonts: seq<Font>, width: nat, load: set<nat>, cells: seq<Cell>)
    returns (refused: bool, ok: bool, rebuild: bool, shown: seq<Character>, bitmap: seq<nat>)
    requires Fits(fonts, width)
    requires fonts != [] && fonts[|fonts| - 1].fontClass == Regular && 0 in load && WIDE_TAIL !in load
    ensures refused <==> !Unrefused(fonts, width, Ordered(load))
    ensures !refused && AllLoaded(load, cells) ==>
              && ok && !rebuild && |shown| == |cells|
              && forall i :: 0 <= i < |cells| ==>
                   && CellGlyph(fonts, cells[i]).Some?
                   && AtlasCache.ReadsAs(shown[i], CellGlyph(fonts, cells[i]).value, bitmap, width)
  {
    hide Unrefused, AtlasOf, AtlasCache.ReadsAs, Missed, DrawnAs, Drawable, LoopOf, PlacedOf, GlyphFor,
         AtlasCache.Entered, AtlasCache.Substituted, AtlasCache.OwnGlyphsOnly, AtlasPacking.Apart;
    var chars, bm, newLoad;
    var codes := Ordered(load);
    ZeroFirst(codes);
    chars, bm, refused := AtlasCache.BuildFontAtlas(fonts, codes, width);
    bitmap := bm.bitmap;
    ok, newLoad, rebuild, shown := DrawCells(chars, load, cells);
    if !refused && AllLoaded(load, cells) {
      forall i | 0 <= i < |cells| ensures ShowsFor(chars, fonts, cells[i], bitmap, width) {
        assert DrawnCell(cells[i]).code in codes;
        var k :| 0 <= k < |codes| && codes[k] == DrawnCell(cells[i]).code;
        LoadedShown(chars, fonts, codes, DrawnCell(cells[i]), bitmap, width);
        TailKeys(chars, fonts, width, codes, cells[i]);
      }
      assert forall i :: 0 <= i < |cells| ==> !Unknown(chars, cells[i]);
    }
  }

  /** The right half of a wide character has no entry of its own class. */
  lemma TailKeys(chars: map<Key, Character>, fonts: seq<Font>, width: nat, codes: seq<nat>, cell: Cell)
    requires chars == AtlasOf(fonts, width, codes) && WIDE_TAIL !in codes
    ensures cell.code == WIDE_TAIL && cell.style.font != Regular ==> (cell.code, cell.style.font) !in chars
  {
    if cell.code == WIDE_TAIL && cell.style.font != Regular {
      FontKeys(fonts, width, codes, (cell.code, cell.style.font));
    }
  }

  /** The entry that `Draw` takes for a cell of a known code point reads as the glyph it is to show. */
  ghost predicate ShowsFor(chars: map<Key, Character>, fonts: seq<Font>, cell: Cell, bitmap: seq<nat>, width: nat) {
    var g := CellGlyph(fonts, cell);
    var own, regular := (cell.code, cell.style.font), (cell.code, Regular);
    && g.Some?
    && (own in chars ==> AtlasCache.ReadsAs(chars[own], g.value, bitmap, width))
    && (own !in chars ==> regular in chars && AtlasCache.ReadsAs(chars[regular], g.value, bitmap, width))
  }

  lemma LoadedShown(chars: map<Key, Character>, fonts: seq<Font>, codes: seq<nat>, cell: Cell,
                    bitmap: seq<nat>, width: nat)
    requires fonts != [] && fonts[|fonts| - 1].fontClass == Regular
    requires cell.code in codes && cell.code != WIDE_TAIL && codes[0] == 0
    requires forall i, c {:trigger AtlasCache.KeyAt(codes, i, c)} ::
               0 <= i < |codes| && AtlasCache.KeyAt(codes, i, c) != (WIDE_TAIL, Regular) ==>
                 AtlasCache.Entered(chars, fonts, AtlasCache.KeyAt(codes, i, c), bitmap, width)
    requires AtlasCache.Substituted(chars, fonts, codes, cell.code)
    requires AtlasCache.OwnGlyphsOnly(chars, fonts, cell.code)
    ensures ShowsFor(chars, fonts, cell, bitmap, width)
  {
    hide AtlasCache.ReadsAs, AtlasCache.GlyphOf;
    var k :| 0 <= k < |codes| && codes[k] == cell.code;
    var f := fonts[|fonts| - 1];
    assert fonts[..|fonts| - 1] + [f] == fonts;
    AtlasCache.MissingGlyph(fonts[..|fonts| - 1], f);
    assert AtlasCache.Entered(chars, fonts, AtlasCache.KeyAt(codes, k, cell.style.font), bitmap, width);
    assert AtlasCache.Entered(chars, fonts, AtlasCache.KeyAt(codes, k, Regular), bitmap, width);
    assert AtlasCache.Entered(chars, fonts, AtlasCache.KeyAt(codes, 0, Regular), bitmap, width);
  }

  lemma UnknownMissed(chars: map<Key, Character>, cells: seq<Cell>)
    ensures Missed(chars, cells) == set i | 0 <= i < |cells| && Unknown(chars, cells[i]) :: cells[i].code
    ensures Missed(chars, cells) != {} <==> exists i :: 0 <= i < |cells| && Unknown(chars, cells[i])
  {
    if i :| 0 <= i < |cells| && Unknown(chars, cells[i]) {
      assert cells[i].code in Missed(chars, cells);
    }
  }

  lemma MissedSnoc(chars: map<Key, Character>, cells: seq<Cell>, i: nat)
    requires i < |cells|
    ensures Missed(chars, cells[..i + 1])
         == Missed(chars, cells[..i]) + (if Resolve(chars, cells[i]).None? then {cells[i].code} else {})
  {
    var a := cells[..i + 1];
    forall x | x in Missed(chars, cells[..i]) ensures x in Missed(chars, a) {
      var k :| 0 <= k < i && Resolve(chars, cells[..i][k]).None? && cells[..i][k].code == x;
      assert a[k] == cells[k];
    }
    forall x | x in Missed(chars, a) && !(Resolve(chars, cells[i]).None? && x == cells[i].code)
      ensures x in Missed(chars, cells[..i])
    {
      var k :| 0 <= k < i + 1 && Resolve(chars, a[k]).None? && a[k].code == x;
      assert cells[..i][k] == a[k];
    }
    if Resolve(chars, cells[i]).None? {
      assert a[i] == cells[i];
    }
  }

  lemma MissedConcat(chars: map<Key, Character>, a: seq<Cell>, b: seq<Cell>)
    ensures Missed(chars, a + b) == Missed(chars, a) + Missed(chars, b)
    ensures Drawable(chars, a + b) <==> Drawable(chars, a) && Drawable(chars, b)
  {
    hide Resolve, DrawnAs;
    var c := a + b;
    forall x | x in Missed(chars, a) + Missed(chars, b) ensures x in Missed(chars, c) {
      if i :| 0 <= i < |a| && Resolve(chars, a[i]).None? && a[i].code == x {
        assert c[i] == a[i];
      } else {
        var i :| 0 <= i < |b| && Resolve(chars, b[i]).None? && b[i].code == x;
        assert c[|a| + i] == b[i];
      }
    }
    if Drawable(chars, c) {
      forall i | 0 <= i < |a| ensures DrawnAs(chars, a[i]).Some? {
        assert c[i] == a[i];
      }
      forall i | 0 <= i < |b| ensures DrawnAs(chars, b[i]).Some? {
        assert c[|a| + i] == b[i];
      }
    }
  }

  // ------------------------------------------------------------------------- rebuilding

  /** The cache built from a load set. */
  function Cache(fonts: seq<Font>, width: nat, load: set<nat>): map<Key, Character> {
    AtlasOf(fonts, width, Ordered(load))
  }

  /**
   * How many rebuilds a run causes: after each period between two checks in which a character missed,
   * the atlas is built again for the code points loaded so far.
   */
  function Rebuilds(fonts: seq<Font>, width: nat, load: set<nat>, periods: seq<seq<Cell>>): nat
    decreases |periods|
  {
    if periods == [] then 0
    else
      var missed := Missed(Cache(fonts, width, load), periods[0]);
      (if missed != {} then 1 else 0) + Rebuilds(fonts, width, load + missed, periods[1..])
  }

  /** The assertion of `Draw` never fails in a run. */
  predicate AllDrawable(fonts: seq<Font>, width: nat, load: set<nat>, periods: seq<seq<Cell>>)
    decreases |periods|
  {
    periods == [] ||
    (var chars := Cache(fonts, width, load);
     && Drawable(chars, periods[0])
     && AllDrawable(fonts, width, load + Missed(chars, periods[0]), periods[1..]))
  }

  /** What the renderer draws between two checks: two frames before the first one, then one frame each. */
  function Periods(frames: seq<seq<Cell>>): seq<seq<Cell>> {
    if |frames| < 2 then frames else [frames[0] + frames[1]] + frames[2..]
  }

  /** The rebuilds of the renderer; a single frame is not followed by a check. */
  function RendererRebuilds(fonts: seq<Font>, width: nat, load: set<nat>, frames: seq<seq<Cell>>): nat {
    if |frames| < 2 then 0 else Rebuilds(fonts, width, load, Periods(frames))
  }

  /** `BuildFontAtlas` on the load set in ascending order. */
  method Rebuild(fonts: seq<Font>, width: nat, load: set<nat>) returns (chars: map<Key, Character>)
    requires Fits(fonts, width)
    ensures chars == Cache(fonts, width, load)
  {
    var bm, refused;
    chars, bm, refused := AtlasCache.BuildFontAtlas(fonts, Ordered(load), width);
  }

  /**
   * The renderer: a frame before the loop, then one frame and one check in each turn. It ends early
   * where the assertion of `Draw` fails.
   */
  method RenderFrames(fonts: seq<Font>, width: nat, load: set<nat>, frames: seq<seq<Cell>>)
    returns (ok: bool, rebuilds: nat)
    requires Fits(fonts, width)
    ensures ok <==> AllDrawable(fonts, width, load, Periods(frames))
    ensures ok ==> rebuilds == RendererRebuilds(fonts, width, load, frames)
  {
    hide Cache, Drawable, Missed, Fits, AllDrawable, Rebuilds, Left, Periods;
    ok, rebuilds := true, 0;
    var chars := Rebuild(fonts, width, load);
    if frames == [] {
      NoFrames(fonts, width, load);
      return;
    }
    ghost var built, drawn := load, frames[0];
    var codepoints, need, shown;
    ok, codepoints, need, shown := DrawCells(chars, load, frames[0]);
    FirstPeriod(fonts, width, load, frames);
    if !ok {
      return;
    }
    var k := 1;
    while k < |frames|
      invariant 1 <= k <= |frames| && ok && chars == Cache(fonts, width, built)
      invariant k > 1 ==> drawn == []
      invariant k == 1 ==> drawn == frames[0] && built == load && rebuilds == 0
      invariant Drawable(chars, drawn) && codepoints == built + Missed(chars, drawn)
      invariant need <==> Missed(chars, drawn) != {}
      invariant |frames| >= 2 ==>
                  && AllDrawable(fonts, width, built, Left(drawn, frames, k))
                  == AllDrawable(fonts, width, load, Periods(frames))
                  && rebuilds + Rebuilds(fonts, width, built, Left(drawn, frames, k))
                  == Rebuilds(fonts, width, load, Periods(frames))
    {
      NextPeriod(fonts, width, built, drawn, frames, k);
      var again;
      ok, codepoints, again, shown := DrawCells(chars, codepoints, frames[k]);
      if !ok {
        return;
      }
      need := need || again;
      assert codepoints == built + Missed(chars, drawn + frames[k]);
      if need {
        built := codepoints;
        chars := Rebuild(fonts, width, codepoints);
        need, rebuilds := false, rebuilds + 1;
      } else {
        assert codepoints == built;
      }
      drawn := [];
      k := k + 1;
      NothingMissed(chars);
    }
    NothingLeft(fonts, width, built, drawn, frames);
  }

  /** What is left to check when `drawn` was drawn since the last check and frame `k` is next. */
  function Left(drawn: seq<Cell>, frames: seq<seq<Cell>>, k: nat): seq<seq<Cell>>
    requires k <= |frames|
  {
    if k < |frames| then [drawn + frames[k]] + frames[k + 1..] else []
  }

  lemma NoFrames(fonts: seq<Font>, width: nat, load: set<nat>)
    ensures AllDrawable(fonts, width, load, Periods([]))
  {
  }

  /** The first frame decides about a run of one frame, and starts the first period of a longer one. */
  lemma FirstPeriod(fonts: seq<Font>, width: nat, load: set<nat>, frames: seq<seq<Cell>>)
    requires frames != []
    ensures |frames| == 1 ==>
              (AllDrawable(fonts, width, load, Periods(frames)) <==> Drawable(Cache(fonts, width, load), frames[0]))
    ensures |frames| >= 2 ==>
              Periods(frames) == Left(frames[0], frames, 1)
              && (!Drawable(Cache(fonts, width, load), frames[0]) ==> !AllDrawable(fonts, width, load, Periods(frames)))
  {
    hide Cache, Drawable, Missed;
    if |frames| >= 2 {
      MissedConcat(Cache(fonts, width, load), frames[0], frames[1]);
    } else {
      assert frames[1..] == [];
    }
  }

  /** One turn of the render loop. */
  lemma NextPeriod(fonts: seq<Font>, width: nat, built: set<nat>, drawn: seq<Cell>, frames: seq<seq<Cell>>, k: nat)
    requires k < |frames|
    ensures var chars := Cache(fonts, width, built);
            var missed := Missed(chars, drawn) + Missed(chars, frames[k]);
            && missed == Missed(chars, drawn + frames[k])
            && (AllDrawable(fonts, width, built, Left(drawn, frames, k))
                <==> Drawable(chars, drawn) && Drawable(chars, frames[k])
                     && AllDrawable(fonts, width, built + missed, Left([], frames, k + 1)))
            && Rebuilds(fonts, width, built, Left(drawn, frames, k))
               == (if missed != {} then 1 else 0) + Rebuilds(fonts, width, built + missed, Left([], frames, k + 1))
  {
    hide Cache, Drawable, Missed;
    MissedConcat(Cache(fonts, width, built), drawn, frames[k]);
    var left := Left(drawn, frames, k);
    assert left[0] == drawn + frames[k];
    assert left[1..] == Left([], frames, k + 1) by {
      if k + 1 < |frames| {
        assert [] + frames[k + 1] == frames[k + 1];
        assert frames[k + 1..] == [frames[k + 1]] + frames[k + 2..];
      }
    }
  }

  lemma NothingLeft(fonts: seq<Font>, width: nat, built: set<nat>, drawn: seq<Cell>, frames: seq<seq<Cell>>)
    ensures AllDrawable(fonts, width, built, Left(drawn, frames, |frames|))
    ensures Rebuilds(fonts, width, built, Left(drawn, frames, |frames|)) == 0
  {
  }

  lemma NothingMissed(chars: map<Key, Character>)
    ensures Missed(chars, []) == {} && Drawable(chars, [])
  {
  }

  // ------------------------------------------------------------------ rebuilding stops

  /** Cells of code points that can come up; the right half of a wide character always resolves. */
  predicate Expected(universe: set<nat>, cells: seq<Cell>) {
    forall i :: 0 <= i < |cells| ==> cells[i].code in universe || cells[i].code == WIDE_TAIL
  }

  predicate AllExpected(universe: set<nat>, frames: seq<seq<Cell>>) {
    forall k :: 0 <= k < |frames| ==> Expected(universe, frames[k])
  }

  lemma ExpectedPeriods(universe: set<nat>, frames: seq<seq<Cell>>)
    requires AllExpected(universe, frames)
    ensures AllExpected(universe, Periods(frames))
  {
  }

  /** With room for everything that can come up, a period misses only code points that were not loaded. */
  lemma MissedIsNew(fonts: seq<Font>, width: nat, universe: set<nat>, load: set<nat>, cells: seq<Cell>)
    requires fonts != [] && fonts[|fonts| - 1].fontClass == Regular
    requires RoomFor(fonts, width, universe) && load <= universe && Expected(universe, cells)
    ensures var missed := Missed(Cache(fonts, width, load), cells);
            missed !! load && missed <= universe
  {
    hide AtlasOf, LoadCodes, LoadFonts, RoomFor;
    var codes := Ordered(load);
    RoomMeansUnrefused(fonts, width, universe, load);
    assert !LoopOf(fonts, |fonts| - 1, width, codes).1;
    CompleteIff(fonts, width, codes);
    TailCached(fonts, width, codes);
    var chars := Cache(fonts, width, load);
    forall code | code in codes ensures (code, Regular) in chars {
      var k :| 0 <= k < |codes| && codes[k] == code;
    }
    forall code | code in Missed(chars, cells) ensures code !in load && code in universe {
      var i :| 0 <= i < |cells| && Resolve(chars, cells[i]).None? && cells[i].code == code;
    }
  }

  lemma TailCached(fonts: seq<Font>, width: nat, codes: seq<nat>)
    ensures (WIDE_TAIL, Regular) in AtlasOf(fonts, width, codes)
  {
  }

  lemma {:induction false} PeriodsBounded(fonts: seq<Font>, width: nat, universe: set<nat>, load: set<nat>,
                                          periods: seq<seq<Cell>>)
    requires fonts != [] && fonts[|fonts| - 1].fontClass == Regular
    requires RoomFor(fonts, width, universe) && load <= universe && AllExpected(universe, periods)
    ensures Rebuilds(fonts, width, load, periods) <= |universe - load|
    decreases |periods|
  {
    hide Cache, RoomFor, Expected, Missed;
    if periods != [] {
      var missed := Missed(Cache(fonts, width, load), periods[0]);
      MissedIsNew(fonts, width, universe, load, periods[0]);
      PeriodsBounded(fonts, width, universe, load + missed, periods[1..]);
      Shrinks(universe, load, missed);
    }
  }

  /**
   * Rebuilding stops: if the atlas has room for every glyph the fonts have for the code points that
   * can come up, the renderer rebuilds at most once for each of them not loaded at the start, however
   * many frames it draws.
   */
  lemma RebuildsBounded(fonts: seq<Font>, width: nat, universe: set<nat>, load: set<nat>, frames: seq<seq<Cell>>)
    requires fonts != [] && fonts[|fonts| - 1].fontClass == Regular
    requires RoomFor(fonts, width, universe) && load <= universe && AllExpected(universe, frames)
    ensures RendererRebuilds(fonts, width, load, frames) <= |universe - load|
  {
    hide RoomFor, Periods, AllExpected, Rebuilds;
    ExpectedPeriods(universe, frames);
    PeriodsBounded(fonts, width, universe, load, Periods(frames));
  }

  lemma Shrinks(universe: set<nat>, load: set<nat>, missed: set<nat>)
    requires missed <= universe && missed !! load
    ensures |universe - (load + missed)| + (if missed != {} then 1 else 0) <= |universe - load|
  {
    var rest := universe - (load + missed);
    assert universe - load == rest + missed && rest !! missed;
    assert |universe - load| == |rest| + |missed|;
  }

  // ------------------------------------------------------------------ falling back

  /** Each class the terminal uses has a font that gets a slot for its missing-character glyph. */
  predicate CanFallBack(fonts: seq<Font>, width: nat, load: set<nat>) {
    SomeFits(fonts, |fonts|, width, Ordered(load), Regular) && SomeFits(fonts, |fonts|, width, Ordered(load), Bold)
  }

  lemma {:induction false} Unused(s: set<nat>) returns (n: nat)
    ensures forall x :: x in s ==> x < n
    decreases |s|
  {
    if s == {} {
      n := 0;
    } else {
      var x :| x in s;
      n := Unused(s - {x});
      n := Max(n, x + 1);
      assert forall y :: y in s ==> y == x || y in s - {x};
    }
  }

  /** A cell of a code point that no class has. */
  lemma UnknownCell(chars: map<Key, Character>, c: FontClass) returns (cell: Cell)
    ensures cell.style.font == c && Resolve(chars, cell).None?
  {
    var codes := set key | key in chars :: key.0;
    var n := Unused(codes);
    cell := Cell(n, DEFAULT_STYLE.(font := c));
    assert forall key :: key in chars ==> key.0 in codes;
    assert forall d: FontClass :: (n, d).0 !in codes;
  }

  /**
   * With code point 0 loaded and a regular last font, every row of regular and bold cells can be drawn
   * if and only if both classes have a font that gets a slot for its missing-character glyph.
   */
  lemma DrawableIff(fonts: seq<Font>, width: nat, load: set<nat>)
    requires fonts != [] && fonts[|fonts| - 1].fontClass == Regular && 0 in load
    ensures CanFallBack(fonts, width, load)
            <==> forall cells: Row :: Weights.Sound(cells) ==> Drawable(Cache(fonts, width, load), cells)
  {
    hide AtlasOf, SomeFits, Ordered;
    var chars := Cache(fonts, width, load);
    NotdefCachedIff(fonts, width, load, Regular);
    NotdefCachedIff(fonts, width, load, Bold);
    if CanFallBack(fonts, width, load) {
      forall cells: Row | Weights.Sound(cells) ensures Drawable(chars, cells) {
        forall i | 0 <= i < |cells| ensures DrawnAs(chars, cells[i]).Some? {
          assert WeightOk(cells[i].style);
        }
      }
    } else {
      var c := if (0, Regular) !in chars then Regular else Bold;
      var cell := UnknownCell(chars, c);
      assert Weights.Sound([cell]) && DrawnAs(chars, [cell][0]).None?;
    }
  }

  // ------------------------------------------------------------ rebuilding never stops

  /** Cells that are loaded or resolve: drawing them leaves the load set as it is. */
  predicate Steady(chars: map<Key, Character>, load: set<nat>, cells: seq<Cell>) {
    forall i :: 0 <= i < |cells| ==> cells[i].code in load || Resolve(chars, cells[i]).Some?
  }

  predicate AllSteady(chars: map<Key, Character>, load: set<nat>, frames: seq<seq<Cell>>) {
    forall k :: 0 <= k < |frames| ==> Steady(chars, load, frames[k])
  }

  /** How many lists of cells miss something. */
  function Missing(chars: map<Key, Character>, periods: seq<seq<Cell>>): (n: nat)
    ensures n <= |periods|
  {
    if periods == [] then 0 else (if Missed(chars, periods[0]) != {} then 1 else 0) + Missing(chars, periods[1..])
  }

  /** For steady cells every period is a matter of the one cache: nothing changes from build to build. */
  lemma {:induction false} SteadyRebuilds(fonts: seq<Font>, width: nat, load: set<nat>, periods: seq<seq<Cell>>)
    requires AllSteady(Cache(fonts, width, load), load, periods)
    ensures Rebuilds(fonts, width, load, periods) == Missing(Cache(fonts, width, load), periods)
    ensures AllDrawable(fonts, width, load, periods)
            <==> forall k :: 0 <= k < |periods| ==> Drawable(Cache(fonts, width, load), periods[k])
    decreases |periods|
  {
    hide Cache, Drawable, Resolve;
    if periods != [] {
      var chars := Cache(fonts, width, load);
      assert Steady(chars, load, periods[0]);
      assert load + Missed(chars, periods[0]) == load;
      assert AllSteady(chars, load, periods[1..]);
      SteadyRebuilds(fonts, width, load, periods[1..]);
      assert forall k :: 0 < k < |periods| ==> periods[k] == periods[1..][k - 1];
    }
  }

  lemma SteadyPeriods(chars: map<Key, Character>, load: set<nat>, frames: seq<seq<Cell>>)
    requires AllSteady(chars, load, frames)
    ensures AllSteady(chars, load, Periods(frames))
    ensures (forall k :: 0 <= k < |Periods(frames)| ==> Drawable(chars, Periods(frames)[k]))
            <==> forall k :: 0 <= k < |frames| ==> Drawable(chars, frames[k])
  {
    hide Drawable, Resolve, Steady, Periods;
    var p := Periods(frames);
    PeriodsAre(frames);
    if |frames| >= 2 {
      MissedConcat(chars, frames[0], frames[1]);
      SteadyConcat(chars, load, frames[0], frames[1]);
      forall k | 0 <= k < |p| ensures Steady(chars, load, p[k]) {
        assert k > 0 ==> Steady(chars, load, frames[k + 1]);
      }
      if forall k :: 0 <= k < |p| ==> Drawable(chars, p[k]) {
        forall k | 0 <= k < |frames| ensures Drawable(chars, frames[k]) {
          assert Drawable(chars, p[if k < 2 then 0 else k - 1]);
        }
      }
      if forall k :: 0 <= k < |frames| ==> Drawable(chars, frames[k]) {
        forall k | 0 <= k < |p| ensures Drawable(chars, p[k]) {
          assert k > 0 ==> Drawable(chars, frames[k + 1]);
        }
      }
    }
  }

  lemma PeriodsAre(frames: seq<seq<Cell>>)
    ensures |frames| < 2 ==> Periods(frames) == frames
    ensures |frames| >= 2 ==>
              && |Periods(frames)| == |frames| - 1 && Periods(frames)[0] == frames[0] + frames[1]
              && forall k :: 1 <= k < |frames| - 1 ==> Periods(frames)[k] == frames[k + 1]
  {
  }

  lemma SteadyConcat(chars: map<Key, Character>, load: set<nat>, a: seq<Cell>, b: seq<Cell>)
    requires Steady(chars, load, a) && Steady(chars, load, b)
    ensures Steady(chars, load, a + b)
  {
    hide Resolve;
  }

  /** The cell is shown, among whatever others. */
  predicate AllShow(cell: Cell, frames: seq<seq<Cell>>) {
    forall k :: 0 <= k < |frames| ==> cell in frames[k]
  }

  lemma {:induction false} AllMissing(chars: map<Key, Character>, cell: Cell, periods: seq<seq<Cell>>)
    requires Resolve(chars, cell).None? && AllShow(cell, periods)
    ensures Missing(chars, periods) == |periods|
    decreases |periods|
  {
    hide Resolve;
    if periods != [] {
      var i :| 0 <= i < |periods[0]| && periods[0][i] == cell;
      assert cell.code in Missed(chars, periods[0]);
      AllMissing(chars, cell, periods[1..]);
    }
  }

  /**
   * A loaded cell that the build of its load set misses is missed in every frame that shows it, among
   * other steady cells: every check finds a rebuild due. The frames can be drawn exactly if each of them
   * can be drawn from the first cache.
   */
  lemma MissForever(fonts: seq<Font>, width: nat, load: set<nat>, cell: Cell, frames: seq<seq<Cell>>)
    requires cell.code in load && Resolve(Cache(fonts, width, load), cell).None?
    requires frames != [] && AllShow(cell, frames) && AllSteady(Cache(fonts, width, load), load, frames)
    ensures RendererRebuilds(fonts, width, load, frames) == |frames| - 1
    ensures AllDrawable(fonts, width, load, Periods(frames))
            <==> forall k :: 0 <= k < |frames| ==> Drawable(Cache(fonts, width, load), frames[k])
  {
    hide Cache, Drawable, Resolve, AllSteady, Rebuilds, AllDrawable;
    var chars := Cache(fonts, width, load);
    SteadyPeriods(chars, load, frames);
    SteadyRebuilds(fonts, width, load, Periods(frames));
    if |frames| >= 2 {
      assert cell in frames[0];
      AllMissing(chars, cell, Periods(frames));
    }
  }

  /** Nothing but code points of the load set. */
  predicate OfLoaded(load: set<nat>, frames: seq<seq<Cell>>) {
    forall k, i :: 0 <= k < |frames| && 0 <= i < |frames[k]| ==> frames[k][i].code in load
  }

  lemma {:induction false} NoneMissing(chars: map<Key, Character>, periods: seq<seq<Cell>>)
    requires forall k :: 0 <= k < |periods| ==> Missed(chars, periods[k]) == {}
    ensures Missing(chars, periods) == 0
    decreases |periods|
  {
    if periods != [] {
      NoneMissing(chars, periods[1..]);
    }
  }

  /** The frames are drawn without a failed assertion and without a rebuild. */
  predicate Quiet(fonts: seq<Font>, width: nat, load: set<nat>, frames: seq<seq<Cell>>) {
    AllDrawable(fonts, width, load, Periods(frames)) && RendererRebuilds(fonts, width, load, frames) == 0
  }

  /** Frames of code points that a complete build loaded are quiet. */
  lemma CompleteIsQuiet(fonts: seq<Font>, width: nat, load: set<nat>, frames: seq<seq<Cell>>)
    requires Complete(Cache(fonts, width, load), Ordered(load)) && OfLoaded(load, frames)
    ensures Quiet(fonts, width, load, frames)
  {
    hide Cache, Rebuilds, AllDrawable, Ordered;
    var chars, codes := Cache(fonts, width, load), Ordered(load);
    forall code | code in load ensures (code, Regular) in chars {
      assert code in codes;
      var i :| 0 <= i < |codes| && codes[i] == code;
    }
    if |frames| >= 2 {
      var p := Periods(frames);
      forall k | 0 <= k < |p| ensures Missed(chars, p[k]) == {} {
        assert k > 0 ==> p[k] == frames[k + 1];
      }
      NoneMissing(chars, p);
    }
    SteadyPeriods(chars, load, frames);
    SteadyRebuilds(fonts, width, load, Periods(frames));
  }

  /**
   * When a load set stops causing rebuilds: all frames of its code points are drawn without one if and
   * only if its build is complete, a condition `CompleteIff` decides before the build.
   */
  lemma QuietIffComplete(fonts: seq<Font>, width: nat, load: set<nat>)
    ensures Complete(Cache(fonts, width, load), Ordered(load))
            <==> forall frames: seq<seq<Cell>> :: OfLoaded(load, frames) ==> Quiet(fonts, width, load, frames)
  {
    hide Cache, RendererRebuilds, AllDrawable, Ordered;
    var chars, codes := Cache(fonts, width, load), Ordered(load);
    if Complete(chars, codes) {
      forall frames: seq<seq<Cell>> | OfLoaded(load, frames) ensures Quiet(fonts, width, load, frames) {
        CompleteIsQuiet(fonts, width, load, frames);
      }
    } else {
      var i :| 0 <= i < |codes| && (codes[i], Regular) !in chars;
      assert codes[i] in codes;
      var cell := Cell(codes[i], DEFAULT_STYLE);
      var frames := [[cell], [cell]];
      assert cell in frames[0] && cell in frames[1];
      MissForever(fonts, width, load, cell, frames);
      assert OfLoaded(load, frames) && !Quiet(fonts, width, load, frames);
    }
  }

  /** The code point at which the last font stops, shown in the regular class. */
  function RefusedCell(fonts: seq<Font>, width: nat, load: set<nat>, style: Style): Cell
    requires fonts != [] && LastStop(fonts, width, Ordered(load)) < |Ordered(load)|
  {
    Cell(Ordered(load)[LastStop(fonts, width, Ordered(load))], style)
  }

  predicate AllRegular(frames: seq<seq<Cell>>) {
    forall k, i :: 0 <= k < |frames| && 0 <= i < |frames[k]| ==> frames[k][i].style.font == Regular
  }

  /**
   * A glyph refused by a regular last font is never loaded. Unless it is the blank or the right half of
   * a wide character, a renderer that shows it in every frame, among any cells that are loaded or
   * resolve, rebuilds the atlas in vain at every check, as long as it can draw the frames. It can if the
   * cells are regular, or regular and bold with a fallback for both; where the refused glyph is the one
   * for missing characters itself, the first frame fails the assertion of `Draw`.
   */
  lemma RefusedNeverSettles(fonts: seq<Font>, width: nat, load: set<nat>, style: Style, frames: seq<seq<Cell>>)
    requires fonts != [] && fonts[|fonts| - 1].fontClass == Regular == style.font
    requires 0 in load && LastStop(fonts, width, Ordered(load)) < |Ordered(load)|
    requires var cell := RefusedCell(fonts, width, load, style);
             && cell.code != 0x20 && cell.code != WIDE_TAIL
             && frames != [] && AllShow(cell, frames) && AllSteady(Cache(fonts, width, load), load, frames)
    ensures AllDrawable(fonts, width, load, Periods(frames)) ==>
              RendererRebuilds(fonts, width, load, frames) == |frames| - 1
    ensures LastStop(fonts, width, Ordered(load)) > 0 && AllRegular(frames) ==>
              AllDrawable(fonts, width, load, Periods(frames))
    ensures CanFallBack(fonts, width, load) && Weights.AllSound(frames) ==>
              AllDrawable(fonts, width, load, Periods(frames))
    ensures LastStop(fonts, width, Ordered(load)) == 0 ==> !AllDrawable(fonts, width, load, Periods(frames))
  {
    hide AtlasOf, LastStop, Ordered, AllSteady, Rebuilds, AllDrawable, Periods, CanFallBack, Weights.Sound;
    var codes, chars := Ordered(load), Cache(fonts, width, load);
    var cell := RefusedCell(fonts, width, load, style);
    RefusedIsMissing(fonts, width, codes);
    assert cell.code in codes;
    MissForever(fonts, width, load, cell, frames);
    ZeroFirst(codes);
    ZeroServed(fonts, width, codes);
    DrawableIff(fonts, width, load);
    if LastStop(fonts, width, codes) == 0 {
      assert cell in frames[0] && DrawnAs(chars, cell).None?;
      assert !Drawable(chars, frames[0]);
    }
  }

  lemma ZeroServed(fonts: seq<Font>, width: nat, codes: seq<nat>)
    requires fonts != [] && fonts[|fonts| - 1].fontClass == Regular
    requires Ascending(codes) && codes != [] && codes[0] == 0
    ensures (0, Regular) in AtlasOf(fonts, width, codes) <==> LastStop(fonts, width, codes) > 0
  {
    hide LoadCodes, LoadFonts, StopAt;
    LastLoop(fonts[|fonts| - 1], width, codes, BeforeLast(fonts, width, codes), 0);
  }

  // --------------------------------------------------------------- a font of one width

  /**
   * At every texture width and glyph width: a build from one regular font of this width is complete
   * exactly up to the capacity of the atlas. Beyond it, the code point at which the atlas is full is
   * missing, and a renderer that shows it in every frame, among regular cells that are loaded or
   * resolve, never fails and rebuilds at every check.
   */
  lemma UniformCompleteIff(f: Font, m: nat, width: nat, load: set<nat>, style: Style, frames: seq<seq<Cell>>)
    requires 0 < m < width && Uniform(f, m) && f.fontClass == Regular == style.font && 0 in load
    requires var codes, cap := Ordered(load), Capacity(width, m);
             cap < |codes| ==>
               && codes[cap] != 0x20 && codes[cap] != WIDE_TAIL
               && frames != [] && AllShow(Cell(codes[cap], style), frames) && AllRegular(frames)
               && AllSteady(Cache([f], width, load), load, frames)
    ensures var codes, cap := Ordered(load), Capacity(width, m);
            && (Complete(Cache([f], width, load), codes) <==> |codes| <= cap)
            && (cap < |codes| ==>
                  && RendererRebuilds([f], width, load, frames) == |frames| - 1
                  && AllDrawable([f], width, load, Periods(frames)))
  {
    hide StopAt, Capacity, Ordered, Room, Pack, RendererRebuilds, AllDrawable, Periods, AtlasOf, LastStop, AllShow,
         AllSteady, AllRegular, CanFallBack;
    var codes, cap := Ordered(load), Capacity(width, m);
    UniformLastStop(f, m, width, codes);
    CompleteIff([f], width, codes);
    if cap < |codes| {
      RefusedIsMissing([f], width, codes);
      RefusedNeverSettles([f], width, load, style, frames);
    }
  }

  /** The code points 0, 1, ..., n - 1. */
  function FirstCodes(n: nat): (codes: seq<nat>)
    ensures |codes| == n && Ascending(codes) && forall i :: 0 <= i < n ==> codes[i] == i
  {
    seq(n, i => i)
  }

  function Below(n: nat): set<nat> { set code | code in FirstCodes(n) }

  lemma FirstOrdered(n: nat)
    ensures Ordered(Below(n)) == FirstCodes(n)
  {
    AscendingUnique(Ordered(Below(n)), FirstCodes(n));
  }

  /**
   * At the source's default texture width and largest glyph width the first 50000 code points do not
   * fit: number 41616 is never loaded, and a renderer that shows it in every frame, among any regular
   * cells of these code points, never fails and rebuilds the atlas at every check.
   */
  lemma DefaultAtlasOverflows(f: Font, style: Style, frames: seq<seq<Cell>>)
    requires Uniform(f, 40) && f.fontClass == Regular == style.font
    requires frames != [] && AllShow(Cell(41616, style), frames) && AllRegular(frames)
    requires OfLoaded(Below(50000), frames)
    ensures var load := Below(50000);
            && !Complete(Cache([f], 8192, load), Ordered(load))
            && RendererRebuilds([f], 8192, load, frames) == |frames| - 1
            && AllDrawable([f], 8192, load, Periods(frames))
  {
    hide RendererRebuilds, AllDrawable, Periods, Complete, Cache, Ordered, FirstCodes, AllShow, AllRegular;
    DefaultCapacity();
    assert FirstCodes(50000)[0] == 0;
    FirstOrdered(50000);
    assert AllSteady(Cache([f], 8192, Below(50000)), Below(50000), frames);
    UniformCompleteIff(f, 40, 8192, Below(50000), style, frames);
  }

  // ------------------------------------------------------------ the terminal and its atlas

  /**
   * End to end: whatever bytes and window sizes a new terminal has received, every row of its screen
   * and scrollback can be drawn from the atlas, in the missing-character glyph if need be.
   */
  lemma TerminalDrawable(w: Width, online: bool, rows: nat, cols: nat, es: seq<Sessions.Input>,
                         fonts: seq<Font>, width: nat, load: set<nat>, i: nat)
    requires Side(rows) && Side(cols) && Sessions.After(w, Parser.Fresh(online, rows, cols), es).Some?
    requires fonts != [] && fonts[|fonts| - 1].fontClass == Regular && 0 in load && CanFallBack(fonts, width, load)
    ensures var t := Sessions.After(w, Parser.Fresh(online, rows, cols), es).value.scr;
            i < |t.history + t.grid| ==> Drawable(Cache(fonts, width, load), (t.history + t.grid)[i])
  {
    hide Sessions.After, Cache, CanFallBack, Drawable, Weights.Sound;
    Weights.OnlyRegularAndBold(w, online, rows, cols, es);
    DrawableIff(fonts, width, load);
  }

  /** A font of each class the terminal uses, the regular one last. */
  predicate BothClasses(fonts: seq<Font>) {
    && fonts != [] && fonts[|fonts| - 1].fontClass == Regular
    && exists k :: 0 <= k < |fonts| && fonts[k].fontClass == Bold
  }

  /** Room for everything that can come up is room for the missing-character glyphs. */
  lemma RoomCanFallBack(fonts: seq<Font>, width: nat, universe: set<nat>, load: set<nat>)
    requires BothClasses(fonts) && RoomFor(fonts, width, universe) && load <= universe && 0 in load
    ensures CanFallBack(fonts, width, load)
  {
    hide LoopOf, RoomFor, Ordered, NotdefFits;
    RoomMeansUnrefused(fonts, width, universe, load);
    UnrefusedNotdefFits(fonts, |fonts| - 1, width, load);
    var k :| 0 <= k < |fonts| && fonts[k].fontClass == Bold;
    UnrefusedNotdefFits(fonts, k, width, load);
  }

  lemma {:induction false} PeriodsDrawable(fonts: seq<Font>, width: nat, universe: set<nat>, load: set<nat>,
                                           periods: seq<Row>)
    requires BothClasses(fonts) && RoomFor(fonts, width, universe) && load <= universe && 0 in load
    requires Weights.AllSound(periods) && AllExpected(universe, periods)
    ensures AllDrawable(fonts, width, load, periods)
    decreases |periods|
  {
    hide Cache, RoomFor, Weights.Sound, Expected, Missed, Drawable, CanFallBack;
    if periods != [] {
      RoomCanFallBack(fonts, width, universe, load);
      DrawableIff(fonts, width, load);
      assert Weights.Sound(periods[0]);
      MissedIsNew(fonts, width, universe, load, periods[0]);
      PeriodsDrawable(fonts, width, universe, load + Missed(Cache(fonts, width, load), periods[0]), periods[1..]);
    }
  }

  /**
   * With room for everything that can come up, the renderer draws any number of frames of regular and
   * bold cells without failing the assertion of `Draw`.
   */
  lemma FramesDrawable(fonts: seq<Font>, width: nat, universe: set<nat>, load: set<nat>, frames: seq<Row>)
    requires BothClasses(fonts) && RoomFor(fonts, width, universe) && load <= universe && 0 in load
    requires Weights.AllSound(frames) && AllExpected(universe, frames)
    ensures AllDrawable(fonts, width, load, Periods(frames))
  {
    hide RoomFor, AllDrawable, BothClasses, AllExpected;
    ExpectedPeriods(universe, frames);
    if |frames| >= 2 {
      assert Weights.Sound(frames[0]) && Weights.Sound(frames[1]);
    }
    PeriodsDrawable(fonts, width, universe, load, Periods(frames));
  }
}
