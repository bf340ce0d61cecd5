/** `BuildFontAtlas` as a function: which keys a build caches, and which glyphs it refuses. */
module AtlasBuild {
  import opened Text
  import opened Cells
  import opened AtlasPacking
  import opened AtlasRoom

  /** A font file opened with its class: the glyph for missing characters and the character index. */
  datatype Font = Font(fontClass: FontClass, notdef: Glyph, index: nat -> Option<Glyph>)

  type Key = (nat, FontClass)

  /** The first pass over a glyph: its rectangle in pixels. */
  datatype Character = Character(left: nat, right: nat, top: nat, bottom: nat, width: nat, height: nat)

  /** Sizes are unsigned: the edge of an empty glyph at column or row 0 wraps. */
  function Unsigned(n: int): nat { n % 0x1_0000_0000 }

  const NO_CHARACTER := Character(0, 0, 0, 0, 0, 0)

  /**
   * The entry points at the stored glyph: its top left corner, its size, and, while they are unsigned
   * numbers, its last column and row.
   */
  predicate PointsAt(c: Character, p: Placed) {
    && c.left == p.left && c.top == p.top && c.width == p.glyph.width && c.height == p.glyph.rows
    && (0 < p.left + p.glyph.width <= 0x1_0000_0000 ==> c.right == p.left + p.glyph.width - 1)
    && (0 < p.top + p.glyph.rows <= 0x1_0000_0000 ==> c.bottom == p.top + p.glyph.rows - 1)
  }

  function CharacterOf(p: Placed): (c: Character)
    ensures PointsAt(c, p)
  {
    Character(p.left, Unsigned(p.left + p.glyph.width - 1), p.top, Unsigned(p.top + p.glyph.rows - 1),
              p.glyph.width, p.glyph.rows)
  }

  /** Code point 0 always loads the missing-character glyph. */
  function Load(f: Font, code: nat): Option<Glyph> {
    if code == 0 then Some(f.notdef) else f.index(code)
  }

  /** Every glyph of every font is well formed and no wider than the atlas. */
  ghost predicate Fits(fonts: seq<Font>, width: nat) {
    forall k, code: nat :: 0 <= k < |fonts| && Load(fonts[k], code).Some? ==>
      GlyphOk(Load(fonts[k], code).value) && Load(fonts[k], code).value.width <= width
  }

  /** The load set in the order a `std::set` iterates it. */
  predicate Ascending(codes: seq<nat>) {
    forall i, j :: 0 <= i < j < |codes| ==> codes[i] < codes[j]
  }

  // ------------------------------------------------------------------------- the build

  /** The cache, the head of the packing, and the glyphs stored so far. */
  datatype Build = Build(chars: map<Key, Character>, head: Head, placed: seq<Placed>)

  const NOTHING := Build(map[], FIRST, [])

  /** `std::map::operator[]` on the right of an assignment: a missing key is created. */
  function ReadOrCreate(chars: map<Key, Character>, key: Key): (map<Key, Character>, Character) {
    if key in chars then (chars, chars[key]) else (chars[key := NO_CHARACTER], NO_CHARACTER)
  }

  /** The last font gives a character it does not have the regular missing-character glyph. */
  function Alias(chars: map<Key, Character>, key: Key): map<Key, Character> {
    var r := ReadOrCreate(chars, (0, Regular));
    r.0[key := r.1]
  }

  /** One code point of one font; true when its glyph is refused. */
  function LoadCode(f: Font, last: bool, width: nat, code: nat, b: Build): (r: (Build, bool))
    requires b.head.shelves >= 1
    ensures r.0.head.shelves >= 1
    ensures r.1 ==> r.0.chars == b.chars
  {
    var key := (code, f.fontClass);
    if key in b.chars then (b, false)
    else if Load(f, code).None? then (if last then b.(chars := Alias(b.chars, key)) else b, false)
    else
      var g := Load(f, code).value;
      var s := NextSlot(width, b.head.shelves, b.head.pen, g.width);
      var head := Head(s.shelves, s.pen);
      if s.place.NoRoom? then (b.(head := head), true)
      else
        var p := Placed(g, s.place.left, s.place.top);
        (Build(b.chars[key := CharacterOf(p)], head, b.placed + [p]), false)
  }

  /** The code points of one font, up to the first refused one. */
  function LoadCodes(f: Font, last: bool, width: nat, codes: seq<nat>, b: Build): (r: (Build, bool))
    requires b.head.shelves >= 1
    ensures r.0.head.shelves >= 1
    decreases |codes|
  {
    if codes == [] then (b, false)
    else
      var r := LoadCode(f, last, width, codes[0], b);
      if r.1 then r else LoadCodes(f, last, width, codes[1..], r.0)
  }

  /** All fonts but the last; a refusal ends the loop of its font only. */
  function LoadFonts(fonts: seq<Font>, width: nat, codes: seq<nat>): (b: Build)
    ensures b.head.shelves >= 1
    decreases |fonts|
  {
    if fonts == [] then NOTHING
    else
      var n := |fonts| - 1;
      LoadCodes(fonts[n], false, width, codes, LoadFonts(fonts[..n], width, codes)).0
  }

  /** The loop of font number `k`. */
  function LoopOf(fonts: seq<Font>, k: nat, width: nat, codes: seq<nat>): (r: (Build, bool))
    requires k < |fonts|
    ensures r.0.head.shelves >= 1
  {
    LoadCodes(fonts[k], k == |fonts| - 1, width, codes, LoadFonts(fonts[..k], width, codes))
  }

  /** The entry for right halves of wide characters is that of the blank. */
  function Finish(chars: map<Key, Character>): map<Key, Character> {
    var r := ReadOrCreate(chars, (0x20, Regular));
    r.0[(WIDE_TAIL, Regular) := r.1]
  }

  /** The cache that `BuildFontAtlas` leaves. */
  function AtlasOf(fonts: seq<Font>, width: nat, codes: seq<nat>): map<Key, Character> {
    Finish(if fonts == [] then map[] else LoopOf(fonts, |fonts| - 1, width, codes).0.chars)
  }

  /** The glyphs it stores, in order. */
  function PlacedOf(fonts: seq<Font>, width: nat, codes: seq<nat>): seq<Placed> {
    if fonts == [] then [] else LoopOf(fonts, |fonts| - 1, width, codes).0.placed
  }

  /** No font refused a glyph. */
  predicate Unrefused(fonts: seq<Font>, width: nat, codes: seq<nat>) {
    forall k :: 0 <= k < |fonts| ==> !LoopOf(fonts, k, width, codes).1
  }

  // ------------------------------------------------------ refusal, from widths alone

  /** The widths of the glyphs a font has to store for a list of code points. */
  function Widths(f: Font, codes: seq<nat>, known: set<Key>): seq<nat> {
    if codes == [] then []
    else
      (if (codes[0], f.fontClass) !in known && Load(f, codes[0]).Some? then [Load(f, codes[0]).value.width] else [])
      + Widths(f, codes[1..], known)
  }

  lemma {:induction false} WidthsSame(f: Font, codes: seq<nat>, known: set<Key>, more: set<Key>)
    requires forall i :: 0 <= i < |codes| ==> ((codes[i], f.fontClass) in known <==> (codes[i], f.fontClass) in more)
    ensures Widths(f, codes, known) == Widths(f, codes, more)
  {
    if codes != [] {
      WidthsSame(f, codes[1..], known, more);
    }
  }

  /** What one code point adds to the cache. */
  lemma LoadCodeKeys(f: Font, last: bool, width: nat, code: nat, b: Build, key: Key)
    requires b.head.shelves >= 1
    ensures var r := LoadCode(f, last, width, code, b);
            && (key in b.chars ==> key in r.0.chars)
            && (key in r.0.chars && key !in b.chars ==> key == (code, f.fontClass) || (last && key == (0, Regular)))
            && (!r.1 && (last || Load(f, code).Some?) ==> (code, f.fontClass) in r.0.chars)
            && (r.1 ==> (code, f.fontClass) !in b.chars)
  {
  }

  /** The cache of one turn as far as later code points are concerned. */
  lemma LaterKeys(f: Font, last: bool, width: nat, codes: seq<nat>, b: Build, i: nat, c: FontClass)
    requires b.head.shelves >= 1 && Ascending(codes) && 0 < i < |codes|
    ensures (codes[i], c) in LoadCode(f, last, width, codes[0], b).0.chars <==> (codes[i], c) in b.chars
  {
    LoadCodeKeys(f, last, width, codes[0], b, (codes[i], c));
  }

  lemma AscendingTail(codes: seq<nat>)
    requires codes != [] && Ascending(codes)
    ensures Ascending(codes[1..])
  {
  }

  /**
   * Whether a font refuses a glyph is decided by the widths of the glyphs it has to store: it does
   * exactly when the shelves they need have no room.
   */
  lemma {:induction false} RefusedIff(f: Font, last: bool, width: nat, codes: seq<nat>, b: Build)
    requires b.head.shelves >= 1 && Room(width, b.head) && Ascending(codes)
    ensures LoadCodes(f, last, width, codes, b).1
            <==> !Room(width, Pack(width, b.head, Widths(f, codes, b.chars.Keys)))
    ensures Room(width, LoadCodes(f, last, width, codes, b).0.head)
    decreases |codes|
  {
    hide Room, UpTo, NextSlot, Move;
    if codes != [] {
      AscendingTail(codes);
      var r := LoadCode(f, last, width, codes[0], b);
      var rest := codes[1..];
      var ws := Widths(f, rest, b.chars.Keys);
      var key := (codes[0], f.fontClass);
      forall i | 0 <= i < |rest|
        ensures (rest[i], f.fontClass) in b.chars.Keys <==> (rest[i], f.fontClass) in r.0.chars.Keys
      {
        LaterKeys(f, last, width, codes, b, i + 1, f.fontClass);
      }
      WidthsSame(f, rest, b.chars.Keys, r.0.chars.Keys);
      if key !in b.chars && Load(f, codes[0]).Some? {
        var w := Load(f, codes[0]).value.width;
        PackConcat(width, b.head, [w], ws);
        assert [w][1..] == [] && Pack(width, b.head, [w]) == Move(width, b.head, w);
        SlotIff(width, b.head, w);
        SlotRoom(width, b.head, w, ws);
      } else {
        assert Widths(f, codes, b.chars.Keys) == ws;
      }
      if !r.1 {
        RefusedIff(f, last, width, rest, r.0);
      }
    }
  }

  lemma SlotRoom(width: nat, h: Head, w: nat, ws: seq<nat>)
    requires h.shelves >= 1 && Room(width, h)
    ensures !Room(width, Move(width, h, w)) ==> !Room(width, Pack(width, Move(width, h, w), ws))
    ensures Room(width, Head(h.shelves, w))
  {
    PackGrows(width, Move(width, h, w), Move(width, h, w), ws);
    var k := Pack(width, Move(width, h, w), ws);
    if Room(width, k) {
      RoomBefore(width, Move(width, h, w), k);
    }
  }

  // ------------------------------------------------------------------- completeness

  /** Every loaded code point resolves in the regular class. */
  predicate Complete(chars: map<Key, Character>, codes: seq<nat>) {
    forall i :: 0 <= i < |codes| ==> (codes[i], Regular) in chars
  }

  /** Where the loop of a font stops: at the refused code point, or past the end. */
  function StopAt(f: Font, last: bool, width: nat, codes: seq<nat>, b: Build): (n: nat)
    requires b.head.shelves >= 1
    ensures n <= |codes|
    ensures n < |codes| <==> LoadCodes(f, last, width, codes, b).1
    decreases |codes|
  {
    if codes == [] || LoadCode(f, last, width, codes[0], b).1 then 0
    else 1 + StopAt(f, last, width, codes[1..], LoadCode(f, last, width, codes[0], b).0)
  }

  lemma {:induction false} KeysKept(f: Font, last: bool, width: nat, codes: seq<nat>, b: Build, key: Key)
    requires b.head.shelves >= 1
    ensures key in b.chars ==> key in LoadCodes(f, last, width, codes, b).0.chars
    decreases |codes|
  {
    if codes != [] {
      LoadCodeKeys(f, last, width, codes[0], b, key);
      var r := LoadCode(f, last, width, codes[0], b);
      if !r.1 {
        KeysKept(f, last, width, codes[1..], r.0, key);
      }
    }
  }

  /** A key of a class other than the regular one is cached only if its code point is loaded. */
  lemma {:induction false} LoopKeys(f: Font, last: bool, width: nat, codes: seq<nat>, b: Build, key: Key)
    requires b.head.shelves >= 1 && key.0 !in codes && key.1 != Regular && key !in b.chars
    ensures key !in LoadCodes(f, last, width, codes, b).0.chars
    decreases |codes|
  {
    if codes != [] {
      LoadCodeKeys(f, last, width, codes[0], b, key);
      var r := LoadCode(f, last, width, codes[0], b);
      if !r.1 {
        LoopKeys(f, last, width, codes[1..], r.0, key);
      }
    }
  }

  lemma {:induction false} FontKeys(fonts: seq<Font>, width: nat, codes: seq<nat>, key: Key)
    requires key.0 !in codes && key.1 != Regular
    ensures key !in LoadFonts(fonts, width, codes).chars
    ensures key !in AtlasOf(fonts, width, codes)
    decreases |fonts|
  {
    hide LoadCodes;
    if fonts != [] {
      var n := |fonts| - 1;
      FontKeys(fonts[..n], width, codes, key);
      LoopKeys(fonts[n], false, width, codes, LoadFonts(fonts[..n], width, codes), key);
      LoopKeys(fonts[n], true, width, codes, LoadFonts(fonts[..n], width, codes), key);
    }
  }

  /** The last font serves what comes before the stop, and nothing it did not find from there on. */
  lemma {:induction false} LastLoop(f: Font, width: nat, codes: seq<nat>, b: Build, i: nat)
    requires b.head.shelves >= 1 && Ascending(codes) && i < |codes|
    ensures var stop := StopAt(f, true, width, codes, b);
            var chars := LoadCodes(f, true, width, codes, b).0.chars;
            && (i < stop ==> (codes[i], f.fontClass) in chars)
            && (i >= stop ==> ((codes[i], f.fontClass) in chars <==> (codes[i], f.fontClass) in b.chars))
            && (i == stop ==> (codes[i], f.fontClass) !in b.chars)
    decreases |codes|
  {
    AscendingTail(codes);
    var r := LoadCode(f, true, width, codes[0], b);
    LoadCodeKeys(f, true, width, codes[0], b, (codes[i], f.fontClass));
    if !r.1 {
      if i > 0 {
        LaterKeys(f, true, width, codes, b, i, f.fontClass);
        LastLoop(f, width, codes[1..], r.0, i - 1);
      } else {
        KeysKept(f, true, width, codes[1..], r.0, (codes[0], f.fontClass));
      }
    }
  }

  /** The build before the loop of the last font. */
  function BeforeLast(fonts: seq<Font>, width: nat, codes: seq<nat>): (b: Build)
    requires fonts != []
    ensures b.head.shelves >= 1
  {
    LoadFonts(fonts[..|fonts| - 1], width, codes)
  }

  /** Where the last font stops. */
  function LastStop(fonts: seq<Font>, width: nat, codes: seq<nat>): (n: nat)
    requires fonts != []
    ensures n <= |codes|
  {
    StopAt(fonts[|fonts| - 1], true, width, codes, BeforeLast(fonts, width, codes))
  }

  lemma {:induction false} LoadFontsRoom(fonts: seq<Font>, width: nat, codes: seq<nat>)
    requires Ascending(codes)
    ensures Room(width, LoadFonts(fonts, width, codes).head)
    decreases |fonts|
  {
    if fonts != [] {
      var n := |fonts| - 1;
      LoadFontsRoom(fonts[..n], width, codes);
      RefusedIff(fonts[n], false, width, codes, LoadFonts(fonts[..n], width, codes));
    }
  }

  /** The entry exists whatever the last font did: from an earlier font, or made for blanks at the end. */
  predicate Elsewhere(fonts: seq<Font>, width: nat, codes: seq<nat>, code: nat)
    requires fonts != []
  {
    code == 0x20 || code == WIDE_TAIL || (code, Regular) in BeforeLast(fonts, width, codes).chars
  }

  /**
   * With a regular last font, refusals in other fonts never matter. A build is complete if and only
   * if the last font comes to its end, or stops with entries for all remaining code points made
   * elsewhere; and it comes to its end if and only if its glyphs have room.
   */
  lemma CompleteIff(fonts: seq<Font>, width: nat, codes: seq<nat>)
    requires fonts != [] && fonts[|fonts| - 1].fontClass == Regular && Ascending(codes)
    ensures Complete(AtlasOf(fonts, width, codes), codes)
            <==> forall i :: LastStop(fonts, width, codes) <= i < |codes| ==> Elsewhere(fonts, width, codes, codes[i])
    ensures var b := BeforeLast(fonts, width, codes);
            LastStop(fonts, width, codes) == |codes|
            <==> Room(width, Pack(width, b.head, Widths(fonts[|fonts| - 1], codes, b.chars.Keys)))
  {
    hide LoadCodes, LoadFonts, StopAt, Room, Pack, Widths;
    var f, b := fonts[|fonts| - 1], BeforeLast(fonts, width, codes);
    LoadFontsRoom(fonts[..|fonts| - 1], width, codes);
    RefusedIff(f, true, width, codes, b);
    forall i | 0 <= i < |codes|
      ensures (codes[i], Regular) in AtlasOf(fonts, width, codes)
              <==> i < LastStop(fonts, width, codes) || Elsewhere(fonts, width, codes, codes[i])
    {
      LastLoop(f, width, codes, b, i);
    }
  }

  /** The code point at which the last font stops is missing, unless it is the blank or the right half. */
  lemma RefusedIsMissing(fonts: seq<Font>, width: nat, codes: seq<nat>)
    requires fonts != [] && fonts[|fonts| - 1].fontClass == Regular && Ascending(codes)
    requires LastStop(fonts, width, codes) < |codes|
    ensures var code := codes[LastStop(fonts, width, codes)];
            (code, Regular) in AtlasOf(fonts, width, codes) <==> code == 0x20 || code == WIDE_TAIL
  {
    hide LoadCodes, LoadFonts, StopAt;
    LastLoop(fonts[|fonts| - 1], width, codes, BeforeLast(fonts, width, codes), LastStop(fonts, width, codes));
  }

  // -------------------------------------------------------------------- load sets

  predicate IsLeast(x: nat, s: set<nat>) { x in s && forall y :: y in s ==> x <= y }

  lemma {:induction false} HasLeast(s: set<nat>)
    requires s != {}
    ensures exists x :: IsLeast(x, s)
    decreases |s|
  {
    var x :| x in s;
    var rest := s - {x};
    assert forall y :: y in s ==> y == x || y in rest;
    if rest == {} {
      assert IsLeast(x, s);
    } else {
      HasLeast(rest);
      var z :| IsLeast(z, rest);
      assert IsLeast(if x < z then x else z, s);
    }
  }

  /** A load set in the order a `std::set` iterates it. */
  function Ordered(load: set<nat>): (codes: seq<nat>)
    ensures Ascending(codes)
    ensures forall code :: code in codes <==> code in load
    decreases |load|
  {
    if load == {} then []
    else
      HasLeast(load);
      var x :| IsLeast(x, load);
      var rest := Ordered(load - {x});
      assert forall i :: 0 <= i < |rest| ==> rest[i] in rest;
      [x] + rest
  }

  lemma NoElements(b: seq<nat>)
    ensures (forall code :: code !in b) ==> b == []
  {
    if b != [] {
      assert b[0] in b;
    }
  }

  lemma {:induction false} AscendingUnique(a: seq<nat>, b: seq<nat>)
    requires Ascending(a) && Ascending(b) && forall code :: code in a <==> code in b
    ensures a == b
    decreases |a|
  {
    if a == [] || b == [] {
      NoElements(a);
      NoElements(b);
    } else {
      assert a[0] in b && b[0] in a;
      assert a[0] == b[0];
      forall code ensures code in a[1..] <==> code in b[1..] {
        assert code in a <==> code == a[0] || code in a[1..];
        assert code in b <==> code == b[0] || code in b[1..];
      }
      AscendingUnique(a[1..], b[1..]);
    }
  }

  // ------------------------------------------------------------- loading part of a set

  /** The code points of a list that are in the load set, in order. */
  function Pick(all: seq<nat>, load: set<nat>): seq<nat> {
    if all == [] then [] else (if all[0] in load then [all[0]] else []) + Pick(all[1..], load)
  }

  lemma {:induction false} PickOrders(all: seq<nat>, load: set<nat>)
    requires Ascending(all)
    ensures Ascending(Pick(all, load))
    ensures forall code :: code in Pick(all, load) <==> code in all && code in load
    decreases |all|
  {
    if all != [] {
      PickOrders(all[1..], load);
      var rest := Pick(all[1..], load);
      assert forall code :: code in all <==> code == all[0] || code in all[1..];
      forall i | 0 <= i < |rest| ensures all[0] < rest[i] {
        assert rest[i] in all[1..];
      }
    }
  }

  /** Part of a set is loaded in the order of the whole. */
  lemma OrderedPart(universe: set<nat>, load: set<nat>)
    requires load <= universe
    ensures Pick(Ordered(universe), load) == Ordered(load)
  {
    PickOrders(Ordered(universe), load);
    AscendingUnique(Pick(Ordered(universe), load), Ordered(load));
  }

  /** The widths of all glyphs the fonts have for a list of code points, in loop order. */
  function AllWidths(fonts: seq<Font>, all: seq<nat>): seq<nat>
    decreases |fonts|
  {
    if fonts == [] then []
    else AllWidths(fonts[..|fonts| - 1], all) + Widths(fonts[|fonts| - 1], all, {})
  }

  /** The atlas has room for every glyph the fonts have for a list of code points. */
  predicate ListFits(fonts: seq<Font>, width: nat, all: seq<nat>) {
    Room(width, Pack(width, FIRST, AllWidths(fonts, all)))
  }

  /** One font on part of the code points needs no more shelves than on all of them. */
  lemma {:induction false} PartFits(f: Font, last: bool, width: nat, all: seq<nat>, load: set<nat>, b: Build, k: Head)
    requires UpTo(b.head, k) && Room(width, Pack(width, k, Widths(f, all, {})))
    ensures var r := LoadCodes(f, last, width, Pick(all, load), b);
            !r.1 && UpTo(r.0.head, Pack(width, k, Widths(f, all, {})))
    decreases |all|
  {
    hide Room, Move, NextSlot, UpTo, Load;
    HeadIsReal(b.head, k);
    if all == [] {
    } else {
      var rest, ws := all[1..], Widths(f, all[1..], {});
      var next := k;
      if Load(f, all[0]).Some? {
        var w := Load(f, all[0]).value.width;
        next := Move(width, k, w);
        PackConcat(width, k, [w], ws);
        assert [w][1..] == [] && Pack(width, k, [w]) == next;
        MoveMonotone(width, b.head, k, w);
        RoomOfStep(width, b.head, k, w, ws);
      } else {
        assert Widths(f, all, {}) == ws;
      }
      var picked := Pick(rest, load);
      if all[0] in load {
        var r := LoadCode(f, last, width, all[0], b);
        assert Pick(all, load)[0] == all[0] && Pick(all, load)[1..] == picked;
        assert !r.1 && UpTo(r.0.head, next);
        PartFits(f, last, width, rest, load, r.0, next);
      } else {
        assert Pick(all, load) == picked;
        PartFits(f, last, width, rest, load, b, next);
      }
    }
  }

  lemma HeadIsReal(h: Head, k: Head)
    requires UpTo(h, k)
    ensures h.shelves >= 1
  {
  }

  lemma RoomOfStep(width: nat, h: Head, k: Head, w: nat, ws: seq<nat>)
    requires UpTo(h, k) && Room(width, Pack(width, Move(width, k, w), ws))
    ensures Room(width, h)
    ensures var s := NextSlot(width, h.shelves, h.pen, w);
            s.place.At? && Head(s.shelves, s.pen) == Move(width, h, w)
  {
    var end := Pack(width, Move(width, k, w), ws);
    MoveMonotone(width, h, k, w);
    MoveMonotone(width, h, h, w);
    PackGrows(width, Move(width, h, w), Move(width, k, w), ws);
    PackGrows(width, h, Move(width, k, w), ws);
    RoomBefore(width, Move(width, h, w), end);
    RoomBefore(width, h, end);
    SlotIff(width, h, w);
  }

  /** With room for all code points, the fonts up to any one need no more than on all of them. */
  lemma {:induction false} PartsFit(fonts: seq<Font>, width: nat, all: seq<nat>, load: set<nat>, k: nat)
    requires k <= |fonts| && ListFits(fonts, width, all)
    ensures UpTo(LoadFonts(fonts[..k], width, Pick(all, load)).head, Pack(width, FIRST, AllWidths(fonts[..k], all)))
    ensures ListFits(fonts[..k], width, all)
    ensures k < |fonts| ==> !LoopOf(fonts, k, width, Pick(all, load)).1
    decreases k
  {
    hide LoadCodes, Widths, Pick, Room, Pack;
    PrefixFits(fonts, width, all, k);
    var codes := Pick(all, load);
    if k > 0 {
      PartsFit(fonts, width, all, load, k - 1);
      PrefixFits(fonts, width, all, k);
      OneMoreFont(fonts, width, all, k - 1);
      var b := LoadFonts(fonts[..k - 1], width, codes);
      PartFits(fonts[k - 1], false, width, all, load, b, Pack(width, FIRST, AllWidths(fonts[..k - 1], all)));
      assert fonts[..k][..k - 1] == fonts[..k - 1];
    } else {
      assert fonts[..0] == [];
      NothingPacked(width);
    }
    if k < |fonts| {
      PrefixFits(fonts, width, all, k + 1);
      OneMoreFont(fonts, width, all, k);
      PartFits(fonts[k], k == |fonts| - 1, width, all, load, LoadFonts(fonts[..k], width, codes),
               Pack(width, FIRST, AllWidths(fonts[..k], all)));
    }
  }

  lemma NothingPacked(width: nat)
    ensures Pack(width, FIRST, []) == FIRST && UpTo(FIRST, FIRST)
  {
  }

  lemma OneMoreFont(fonts: seq<Font>, width: nat, all: seq<nat>, k: nat)
    requires k < |fonts|
    ensures Pack(width, FIRST, AllWidths(fonts[..k + 1], all))
         == Pack(width, Pack(width, FIRST, AllWidths(fonts[..k], all)), Widths(fonts[k], all, {}))
  {
    assert fonts[..k + 1][..k] == fonts[..k] && fonts[..k + 1][k] == fonts[k];
    PackConcat(width, FIRST, AllWidths(fonts[..k], all), Widths(fonts[k], all, {}));
  }

  lemma {:induction false} PrefixFits(fonts: seq<Font>, width: nat, all: seq<nat>, k: nat)
    requires k <= |fonts| && ListFits(fonts, width, all)
    ensures ListFits(fonts[..k], width, all)
    decreases |fonts| - k
  {
    hide Widths, Room, Pack;
    if k == |fonts| {
      assert fonts[..k] == fonts;
    } else {
      PrefixFits(fonts, width, all, k + 1);
      OneMoreFont(fonts, width, all, k);
      var h := Pack(width, FIRST, AllWidths(fonts[..k], all));
      NothingPacked(width);
      PackGrows(width, FIRST, FIRST, AllWidths(fonts[..k], all));
      SameUpTo(FIRST, h);
      PackGrows(width, h, h, Widths(fonts[k], all, {}));
      RoomBefore(width, h, Pack(width, h, Widths(fonts[k], all, {})));
    }
  }

  lemma SameUpTo(h: Head, k: Head)
    requires UpTo(h, k)
    ensures UpTo(k, k)
  {
  }

  /** The atlas has room for every glyph the fonts have for a set of code points. */
  predicate RoomFor(fonts: seq<Font>, width: nat, universe: set<nat>) {
    ListFits(fonts, width, Ordered(universe))
  }

  /**
   * Next-fit packing is monotone: when the atlas has room for every glyph of a set of code points,
   * no font refuses a glyph while any part of the set is loaded.
   */
  lemma RoomMeansUnrefused(fonts: seq<Font>, width: nat, universe: set<nat>, load: set<nat>)
    requires RoomFor(fonts, width, universe) && load <= universe
    ensures Unrefused(fonts, width, Ordered(load))
  {
    hide ListFits, LoopOf, Ordered;
    OrderedPart(universe, load);
    forall k | 0 <= k < |fonts| ensures !LoopOf(fonts, k, width, Ordered(load)).1 {
      PartsFit(fonts, width, Ordered(universe), load, k);
    }
  }

  // ------------------------------------------------------- the missing-character glyph

  /** Font number `k` gets a slot for its missing-character glyph at the head it starts from. */
  predicate NotdefFits(fonts: seq<Font>, k: nat, width: nat, codes: seq<nat>)
    requires k < |fonts|
  {
    Room(width, Move(width, LoadFonts(fonts[..k], width, codes).head, fonts[k].notdef.width))
  }

  /** Later code points do not add a missing-character glyph. */
  lemma {:induction false} NotdefSettled(f: Font, last: bool, width: nat, codes: seq<nat>, b: Build, c: FontClass)
    requires b.head.shelves >= 1 && forall i :: 0 <= i < |codes| ==> codes[i] > 0
    requires last && c == Regular ==> (0, c) in b.chars
    ensures (0, c) in LoadCodes(f, last, width, codes, b).0.chars <==> (0, c) in b.chars
    decreases |codes|
  {
    if codes != [] {
      LoadCodeKeys(f, last, width, codes[0], b, (0, c));
      var r := LoadCode(f, last, width, codes[0], b);
      if !r.1 {
        NotdefSettled(f, last, width, codes[1..], r.0, c);
      }
    }
  }

  /** One font adds the missing-character glyph of its own class, if it gets a slot for it. */
  lemma NotdefOfLoop(f: Font, last: bool, width: nat, codes: seq<nat>, b: Build, c: FontClass)
    requires b.head.shelves >= 1 && Room(width, b.head)
    requires codes != [] && codes[0] == 0 && Ascending(codes) && (last ==> f.fontClass == Regular)
    ensures (0, c) in LoadCodes(f, last, width, codes, b).0.chars
            <==> (0, c) in b.chars || (f.fontClass == c && Room(width, Move(width, b.head, f.notdef.width)))
  {
    hide NextSlot, Move, Room;
    SlotIff(width, b.head, f.notdef.width);
    var r := LoadCode(f, last, width, 0, b);
    if !r.1 {
      NotdefSettled(f, last, width, codes[1..], r.0, c);
    }
  }

  /** Some font of the class among the first `n` gets a slot. */
  predicate SomeFits(fonts: seq<Font>, n: nat, width: nat, codes: seq<nat>, c: FontClass)
    requires n <= |fonts|
  {
    exists k :: 0 <= k < n && fonts[k].fontClass == c && NotdefFits(fonts, k, width, codes)
  }

  lemma {:induction false} NotdefBefore(fonts: seq<Font>, n: nat, width: nat, codes: seq<nat>, c: FontClass)
    requires n <= |fonts| && codes != [] && codes[0] == 0 && Ascending(codes)
    ensures (0, c) in LoadFonts(fonts[..n], width, codes).chars <==> SomeFits(fonts, n, width, codes, c)
    decreases n
  {
    hide LoadCodes, Move, Room, Ascending;
    if n > 0 {
      assert fonts[..n][..n - 1] == fonts[..n - 1];
      NotdefBefore(fonts, n - 1, width, codes, c);
      LoadFontsRoom(fonts[..n - 1], width, codes);
      NotdefOfLoop(fonts[n - 1], false, width, codes, LoadFonts(fonts[..n - 1], width, codes), c);
    }
  }

  /**
   * With code point 0 loaded and a regular last font, the missing-character glyph of a class is
   * cached if and only if some font of that class gets a slot for it at the head it starts from.
   */
  lemma NotdefCachedIff(fonts: seq<Font>, width: nat, load: set<nat>, c: FontClass)
    requires fonts != [] && fonts[|fonts| - 1].fontClass == Regular && 0 in load
    ensures (0, c) in AtlasOf(fonts, width, Ordered(load)) <==> SomeFits(fonts, |fonts|, width, Ordered(load), c)
  {
    hide LoadCodes, LoadFonts, Move, Room, Ordered;
    var codes, n := Ordered(load), |fonts| - 1;
    ZeroFirst(codes);
    NotdefBefore(fonts, n, width, codes, c);
    LoadFontsRoom(fonts[..n], width, codes);
    NotdefOfLoop(fonts[n], true, width, codes, LoadFonts(fonts[..n], width, codes), c);
  }

  lemma ZeroFirst(codes: seq<nat>)
    requires Ascending(codes) && 0 in codes
    ensures codes != [] && codes[0] == 0
  {
  }

  /** A font that refuses nothing gets that slot. */
  lemma UnrefusedNotdefFits(fonts: seq<Font>, k: nat, width: nat, load: set<nat>)
    requires k < |fonts| && 0 in load && !LoopOf(fonts, k, width, Ordered(load)).1
    requires k == |fonts| - 1 ==> fonts[k].fontClass == Regular
    ensures SomeFits(fonts, k + 1, width, Ordered(load), fonts[k].fontClass)
  {
    hide Move, Room, Ordered, LoadFonts;
    var codes, c := Ordered(load), fonts[k].fontClass;
    ZeroFirst(codes);
    var b := LoadFonts(fonts[..k], width, codes);
    NotdefBefore(fonts, k, width, codes, c);
    LoadFontsRoom(fonts[..k], width, codes);
    SlotIff(width, b.head, fonts[k].notdef.width);
  }
}
