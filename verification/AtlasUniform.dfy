/** Fonts whose glyphs all have one width: exactly when a build is complete, and what a refusal overwrites. */
module AtlasUniform {
  import opened Sequences
  import opened Cells
  import opened AtlasPacking
  import opened AtlasRoom
  import opened AtlasBuild

  /** A font with a glyph of width `m` for every code point. */
  ghost predicate Uniform(f: Font, m: nat) {
    forall code: nat :: Load(f, code).Some? && Load(f, code).value.width == m
  }

  /** Such a font stops where the atlas is full. */
  lemma {:induction false} UniformStop(f: Font, m: nat, width: nat, codes: seq<nat>, b: Build, n: nat, t: nat)
    requires 0 < m < width && Uniform(f, m) && Ascending(codes)
    requires Filled(width, m, b.head, n, t) && n <= Capacity(width, m)
    requires f.fontClass == Regular && forall i :: 0 <= i < |codes| ==> (codes[i], Regular) !in b.chars
    ensures StopAt(f, true, width, codes, b) == Min(|codes|, Capacity(width, m) - n)
    decreases |codes|
  {
    hide NextSlot, Move, Capacity, Room, Filled;
    FilledHead(width, m, b.head, n, t);
    if codes != [] {
      assert Load(f, codes[0]).Some? && Load(f, codes[0]).value.width == m;
      var u := FillOne(width, m, b.head, n, t);
      FilledRoomIff(width, m, Move(width, b.head, m), n + 1, u);
      SlotIff(width, b.head, m);
      var r := LoadCode(f, true, width, codes[0], b);
      if !r.1 {
        forall i | 0 <= i < |codes[1..]| ensures (codes[1..][i], Regular) !in r.0.chars {
          LaterKeys(f, true, width, codes, b, i + 1, Regular);
        }
        UniformStop(f, m, width, codes[1..], r.0, n + 1, u);
      }
    }
  }

  lemma FilledHead(width: nat, m: nat, h: Head, n: nat, t: nat)
    requires 0 < m < width && Filled(width, m, h, n, t) && n <= Capacity(width, m)
    ensures h.shelves >= 1 && Room(width, h)
  {
    if n > 0 {
      FilledRoomIff(width, m, h, n, t);
    }
  }

  lemma FirstFilled(width: nat, m: nat)
    requires 0 < m < width
    ensures Filled(width, m, FIRST, 0, 0) && 1 <= Capacity(width, m)
  {
    QuotientAtLeast(width - 1, m, 1);
    Monotone(PerShelf(width, m), 1, Limit(width));
  }

  /** A single such font, regular, stops at the capacity. */
  lemma UniformLastStop(f: Font, m: nat, width: nat, codes: seq<nat>)
    requires 0 < m < width && Uniform(f, m) && f.fontClass == Regular && Ascending(codes)
    ensures LastStop([f], width, codes) == Min(|codes|, Capacity(width, m)) && 1 <= Capacity(width, m)
  {
    hide StopAt, Capacity;
    assert [f][..0] == [];
    assert BeforeLast([f], width, codes) == NOTHING;
    FirstFilled(width, m);
    UniformStop(f, m, width, codes, NOTHING, 0, 0);
  }

  // --------------------------------------------------------- a build that loses its packing

  lemma {:induction false} LoadConcat(f: Font, last: bool, width: nat, c: seq<nat>, d: seq<nat>, b: Build)
    requires b.head.shelves >= 1
    ensures LoadCodes(f, last, width, c + d, b)
         == if LoadCodes(f, last, width, c, b).1 then LoadCodes(f, last, width, c, b)
            else LoadCodes(f, last, width, d, LoadCodes(f, last, width, c, b).0)
    decreases |c|
  {
    if c == [] {
      assert c + d == d;
    } else {
      assert (c + d)[0] == c[0] && (c + d)[1..] == c[1..] + d;
      var r := LoadCode(f, last, width, c[0], b);
      if !r.1 {
        LoadConcat(f, last, width, c[1..], d, r.0);
      }
    }
  }

  /** Glyphs are only ever added. */
  lemma {:induction false} PlacedGrows(f: Font, last: bool, width: nat, codes: seq<nat>, b: Build)
    requires b.head.shelves >= 1
    ensures b.placed <= LoadCodes(f, last, width, codes, b).0.placed
    decreases |codes|
  {
    if codes != [] {
      var r := LoadCode(f, last, width, codes[0], b);
      if !r.1 {
        PlacedGrows(f, last, width, codes[1..], r.0);
      }
    }
  }

  /** While there is room, a uniform font stores one glyph for each code point. */
  lemma {:induction false} UniformLoad(f: Font, m: nat, last: bool, width: nat, codes: seq<nat>, b: Build)
    requires Uniform(f, m) && Ascending(codes) && b.head.shelves >= 1
    requires forall i :: 0 <= i < |codes| ==> (codes[i], f.fontClass) !in b.chars
    requires Room(width, b.head) && Room(width, Pack(width, b.head, Rep(m, |codes|)))
    ensures var r := LoadCodes(f, last, width, codes, b);
            !r.1 && r.0.head == Pack(width, b.head, Rep(m, |codes|))
    decreases |codes|
  {
    hide Room, Move, NextSlot, Ascending;
    if codes == [] {
      assert Rep(m, 0) == [];
    } else {
      var ws := Rep(m, |codes| - 1);
      assert Load(f, codes[0]).Some? && Load(f, codes[0]).value.width == m;
      assert Rep(m, |codes|)[0] == m && Rep(m, |codes|)[1..] == ws;
      SlotIff(width, b.head, m);
      SlotRoom(width, b.head, m, ws);
      AscendingTail(codes);
      var r := LoadCode(f, last, width, codes[0], b);
      forall i | 0 <= i < |codes[1..]| ensures (codes[1..][i], f.fontClass) !in r.0.chars {
        LaterKeys(f, last, width, codes, b, i + 1, f.fontClass);
      }
      UniformLoad(f, m, last, width, codes[1..], r.0);
    }
  }

  /** A font that is not the last adds no keys but those of its class and the code points loaded. */
  lemma {:induction false} OtherKeys(f: Font, width: nat, codes: seq<nat>, b: Build, key: Key)
    requires b.head.shelves >= 1 && (key.0 !in codes || key.1 != f.fontClass)
    ensures key in LoadCodes(f, false, width, codes, b).0.chars <==> key in b.chars
    decreases |codes|
  {
    if codes != [] {
      LoadCodeKeys(f, false, width, codes[0], b, key);
      var r := LoadCode(f, false, width, codes[0], b);
      if !r.1 {
        OtherKeys(f, width, codes[1..], r.0, key);
      }
    }
  }

  /** Number of the second glyph on the last shelf. */
  function Second(width: nat, m: nat): (n: nat)
    requires 0 < m && 2 * m < width
    ensures n < Capacity(width, m)
  {
    QuotientAtLeast(width - 1, m, 2);
    assert PerShelf(width, m) * Limit(width) == PerShelf(width, m) * (Limit(width) - 1) + PerShelf(width, m);
    PerShelf(width, m) * (Limit(width) - 1) + 1
  }

  /** Where it stands. */
  function SecondPlace(width: nat, m: nat, g: Glyph): Placed {
    Placed(g, m, BOUND * (Limit(width) - 1))
  }

  /** The heads before the second glyph of the last shelf and at the end of a full atlas. */
  lemma LastHeads(width: nat, m: nat)
    requires 0 < m && 2 * m < width
    ensures Pack(width, FIRST, Rep(m, Second(width, m))) == Head(Limit(width), m)
    ensures var full := Pack(width, FIRST, Rep(m, Capacity(width, m)));
            full.shelves == Limit(width) && Room(width, full) && !Room(width, Move(width, full, m))
    ensures NextSlot(width, Limit(width), m, m).place == At(m, BOUND * (Limit(width) - 1))
  {
    var q, l := PerShelf(width, m), Limit(width);
    QuotientAtLeast(width - 1, m, 2);
    assert q * l == q * (l - 1) + q;
    LastShelf(width, m, Second(width, m), 1);
    LastShelf(width, m, Capacity(width, m), q);
    UniformRoomIff(width, m, Capacity(width, m));
    var full := Pack(width, FIRST, Rep(m, Capacity(width, m)));
    var t := FillOne(width, m, full, Capacity(width, m), q);
    FilledRoomIff(width, m, Move(width, full, m), Capacity(width, m) + 1, t);
  }

  /** A uniform font that is not the last, on more code points than fit. */
  lemma OverfullLoop(f: Font, m: nat, width: nat, codes: seq<nat>) returns (i: nat)
    requires 0 < m && 2 * m < width && Uniform(f, m) && Ascending(codes) && Capacity(width, m) < |codes|
    ensures var r := LoadCodes(f, false, width, codes, NOTHING);
            && r.1 && r.0.head == Head(Limit(width), m)
            && i < |r.0.placed|
            && r.0.placed[i] == SecondPlace(width, m, Load(f, codes[Second(width, m)]).value)
  {
    hide Capacity, Second, Limit, PerShelf, Room, Move, Pack, NextSlot, Ascending;
    var n, cap := Second(width, m), Capacity(width, m);
    LastHeads(width, m);
    FirstRoom(width);
    UniformRoomIff(width, m, n);
    UniformRoomIff(width, m, cap);
    // up to the second glyph of the last shelf
    var early, rest := codes[..n], codes[n..cap];
    Prefixes(codes, n);
    Prefixes(codes, cap);
    UniformLoad(f, m, false, width, early, NOTHING);
    var a := LoadCodes(f, false, width, early, NOTHING).0;
    OtherKeys(f, width, early, NOTHING, (codes[n], f.fontClass));
    assert Load(f, codes[n]).Some? && Load(f, codes[n]).value.width == m;
    var placed := LoadCode(f, false, width, codes[n], a);
    i := |a.placed|;
    assert !placed.1 && placed.0.placed[i] == SecondPlace(width, m, Load(f, codes[n]).value);
    // up to the full atlas
    assert codes[..cap] == early + rest;
    LoadConcat(f, false, width, early, rest, NOTHING);
    assert rest[0] == codes[n];
    PlacedGrows(f, false, width, rest[1..], placed.0);
    UniformLoad(f, m, false, width, codes[..cap], NOTHING);
    var c := LoadCodes(f, false, width, codes[..cap], NOTHING).0;
    assert c.placed[i] == placed.0.placed[i];
    // the refused glyph
    OtherKeys(f, width, codes[..cap], NOTHING, (codes[cap], f.fontClass));
    assert Load(f, codes[cap]).Some? && Load(f, codes[cap]).value.width == m;
    SlotIff(width, c.head, m);
    assert codes == codes[..cap] + codes[cap..];
    LoadConcat(f, false, width, codes[..cap], codes[cap..], NOTHING);
    assert codes[cap..][0] == codes[cap];
  }

  lemma FirstRoom(width: nat)
    ensures Room(width, FIRST) && FIRST.shelves >= 1
  {
  }

  lemma Prefixes(codes: seq<nat>, n: nat)
    requires Ascending(codes) && n < |codes|
    ensures Ascending(codes[..n]) && codes[n] !in codes[..n]
  {
  }

  /** Every glyph has at least one line. */
  ghost predicate Inked(f: Font) {
    forall code: nat :: Load(f, code).Some? ==> Load(f, code).value.rows > 0
  }

  /**
   * Two uniform fonts and more code points than fit: the second font stores its first glyph over one
   * of the first font. `BuildFontAtlas` then ends with a packing that does not stand.
   */
  lemma RefusedBuildClashes(f: Font, g: Font, m: nat, width: nat, codes: seq<nat>)
    requires 0 < m && 2 * m < width && Uniform(f, m) && Uniform(g, m) && Inked(f) && Inked(g)
    requires f.fontClass != g.fontClass && Ascending(codes) && Capacity(width, m) < |codes|
    ensures !Apart(PlacedOf([f, g], width, codes))
  {
    hide Capacity, Limit, Second, PerShelf, NextSlot, Ascending;
    LastHeads(width, m);
    var i := OverfullLoop(f, m, width, codes);
    var b := LoadCodes(f, false, width, codes, NOTHING).0;
    assert [f, g][..1] == [f] && [f][..0] == [];
    assert LoadFonts([f], width, codes) == b;
    OtherKeys(f, width, codes, NOTHING, (codes[0], g.fontClass));
    assert Load(g, codes[0]).Some? && Load(g, codes[0]).value.width == m;
    var r := LoadCode(g, true, width, codes[0], b);
    assert !r.1 && r.0.placed == b.placed + [SecondPlace(width, m, Load(g, codes[0]).value)];
    PlacedGrows(g, true, width, codes[1..], r.0);
    var all := PlacedOf([f, g], width, codes);
    assert all[i] == r.0.placed[i] && all[|b.placed|] == r.0.placed[|b.placed|];
    assert Load(f, codes[Second(width, m)]).value.rows > 0 && Load(g, codes[0]).value.rows > 0;
    assert Load(f, codes[Second(width, m)]).value.width == m;
    assert Clash(all[i], all[|b.placed|]);
  }
}
