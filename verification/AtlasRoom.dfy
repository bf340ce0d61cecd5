/** How many shelves a list of glyphs needs, and when the atlas has room for them. */
module AtlasRoom {
  import opened Sequences
  import opened AtlasPacking

  /** The current shelf, counted from 1, and the pen on it. */
  datatype Head = Head(shelves: nat, pen: nat)

  const FIRST := Head(1, 0)

  /** The head after a glyph of width `w`, were there no limit on the shelves. */
  function Move(width: nat, h: Head, w: nat): Head {
    if h.pen + w < width then Head(h.shelves, h.pen + w) else Head(h.shelves + 1, w)
  }

  /** The head after a list of glyphs, in loop order. */
  function Pack(width: nat, h: Head, ws: seq<nat>): Head
    decreases |ws|
  {
    if ws == [] then h else Pack(width, Move(width, h, ws[0]), ws[1..])
  }

  /** The atlas may be as tall as it is wide; the first shelf is there whatever the width. */
  predicate Room(width: nat, h: Head) { h.shelves == 1 || BOUND * h.shelves <= width }

  /** A glyph gets a slot exactly when the shelves needed after it have room. */
  lemma SlotIff(width: nat, h: Head, w: nat)
    requires h.shelves >= 1 && Room(width, h)
    ensures var s := NextSlot(width, h.shelves, h.pen, w);
            && (s.place.At? <==> Room(width, Move(width, h, w)))
            && Head(s.shelves, s.pen) == if s.place.At? then Move(width, h, w) else Head(h.shelves, w)
  {
  }

  // ------------------------------------------------------------------------ monotonicity

  /** `h` is no further than `k`. */
  predicate UpTo(h: Head, k: Head) {
    1 <= h.shelves && (h.shelves < k.shelves || (h.shelves == k.shelves && h.pen <= k.pen))
  }

  lemma MoveMonotone(width: nat, h: Head, k: Head, w: nat)
    requires UpTo(h, k)
    ensures UpTo(Move(width, h, w), Move(width, k, w)) && UpTo(h, Move(width, k, w))
  {
  }

  lemma {:induction false} PackGrows(width: nat, h: Head, k: Head, ws: seq<nat>)
    requires UpTo(h, k)
    ensures UpTo(h, Pack(width, k, ws))
    decreases |ws|
  {
    if ws != [] {
      MoveMonotone(width, h, k, ws[0]);
      PackGrows(width, h, Move(width, k, ws[0]), ws[1..]);
    }
  }

  lemma RoomBefore(width: nat, h: Head, k: Head)
    requires UpTo(h, k) && Room(width, k)
    ensures Room(width, h)
  {
  }

  lemma {:induction false} PackConcat(width: nat, h: Head, a: seq<nat>, b: seq<nat>)
    ensures Pack(width, h, a + b) == Pack(width, Pack(width, h, a), b)
    decreases |a|
  {
    if a == [] {
      assert a + b == b;
    } else {
      assert (a + b)[0] == a[0] && (a + b)[1..] == a[1..] + b;
      PackConcat(width, Move(width, h, a[0]), a[1..], b);
    }
  }

  // ------------------------------------------------------------- glyphs of one width

  function PerShelf(width: nat, m: nat): nat
    requires 0 < m < width
  {
    (width - 1) / m
  }

  /** Shelves an atlas of this width can have. */
  function Limit(width: nat): nat { Max(1, width / BOUND) }

  /** How many glyphs of width `m` an atlas holds. */
  function Capacity(width: nat, m: nat): nat
    requires 0 < m < width
  {
    PerShelf(width, m) * Limit(width)
  }

  /** `n` glyphs are stored, `t` of them on the current shelf. */
  predicate Filled(width: nat, m: nat, h: Head, n: nat, t: nat)
    requires 0 < m < width
  {
    && h.shelves >= 1 && t <= PerShelf(width, m) && (n > 0 ==> t > 0)
    && n == PerShelf(width, m) * (h.shelves - 1) + t
    && h.pen == t * m
  }

  lemma FillOne(width: nat, m: nat, h: Head, n: nat, t: nat) returns (u: nat)
    requires 0 < m < width && Filled(width, m, h, n, t)
    ensures Filled(width, m, Move(width, h, m), n + 1, u)
    ensures u == if t < PerShelf(width, m) then t + 1 else 1
    ensures Move(width, h, m).shelves == if t < PerShelf(width, m) then h.shelves else h.shelves + 1
  {
    var q := PerShelf(width, m);
    Division(width - 1, m);
    assert h.pen + m == (t + 1) * m;
    if t < q {
      u := t + 1;
      Monotone(m, t + 1, q);
      assert h.pen + m < width;
    } else {
      u := 1;
      assert h.pen + m >= width;
      assert q * (h.shelves + 1 - 1) == q * (h.shelves - 1) + q;
    }
  }

  lemma Division(a: nat, m: nat)
    requires m > 0
    ensures m * (a / m) <= a < (a / m + 1) * m
    ensures m <= a ==> a / m >= 1
  {
  }

  lemma QuotientAtLeast(a: nat, m: nat, k: nat)
    requires m > 0
    ensures m * k <= a ==> a / m >= k
  {
    Division(a, m);
    if a / m < k {
      Monotone(m, a / m + 1, k);
    }
  }

  /** A number of glyphs determines the shelf and the place on it. */
  lemma SameShelf(q: nat, s: nat, u: nat, l: nat, t: nat)
    requires 1 <= u <= q && 1 <= t <= q
    ensures q * s + u == q * l + t ==> s == l && u == t
  {
    if s < l {
      Monotone(q, s + 1, l);
      assert q * (s + 1) == q * s + q;
    } else if l < s {
      Monotone(q, l + 1, s);
      assert q * (l + 1) == q * l + q;
    }
  }

  /** Whatever was stored, `n` glyphs of one width have room exactly up to the capacity. */
  lemma FilledRoomIff(width: nat, m: nat, h: Head, n: nat, t: nat)
    requires 0 < m < width && Filled(width, m, h, n, t)
    requires n > 0
    ensures Room(width, h) <==> n <= Capacity(width, m)
  {
    var q, l := PerShelf(width, m), Limit(width);
    assert BOUND * h.shelves <= width <==> h.shelves <= width / BOUND;
    if h.shelves <= l {
      Monotone(q, h.shelves, l);
      assert q * (h.shelves - 1) + q == q * h.shelves;
    } else {
      Monotone(q, l, h.shelves - 1);
    }
  }

  lemma {:induction false} PackUniform(width: nat, m: nat, n: nat) returns (t: nat)
    requires 0 < m < width
    ensures Filled(width, m, Pack(width, FIRST, Rep(m, n)), n, t)
    decreases n
  {
    Division(width - 1, m);
    if n == 0 {
      assert Rep(m, 0) == [];
      t := 0;
    } else {
      var u := PackUniform(width, m, n - 1);
      assert Rep(m, n) == Rep(m, n - 1) + [m];
      PackConcat(width, FIRST, Rep(m, n - 1), [m]);
      var h := Pack(width, FIRST, Rep(m, n - 1));
      assert [m][1..] == [] && Pack(width, h, [m]) == Move(width, h, m);
      t := FillOne(width, m, h, n - 1, u);
    }
  }

  /** Glyphs of one width have room exactly up to the capacity. */
  lemma UniformRoomIff(width: nat, m: nat, n: nat)
    requires 0 < m < width
    ensures Room(width, Pack(width, FIRST, Rep(m, n))) <==> n <= Capacity(width, m)
  {
    if n == 0 {
      assert Rep(m, 0) == [];
    } else {
      var t := PackUniform(width, m, n);
      FilledRoomIff(width, m, Pack(width, FIRST, Rep(m, n)), n, t);
    }
  }

  /** At the source's default texture width and its largest glyph width. */
  lemma DefaultCapacity()
    ensures Capacity(8192, 40) == 41616
  {
  }

  /** The place glyph number `n` of width `m` gets after `n` others. */
  function UniformSlot(width: nat, m: nat, n: nat): OptionPlace
    requires 0 < m < width
  {
    var h := Pack(width, FIRST, Rep(m, n));
    if h.shelves >= 1 then NextSlot(width, h.shelves, h.pen, m).place else NoRoom
  }

  /**
   * At every width at which a shelf holds two glyphs: when the atlas is full of glyphs of one width,
   * the next one is refused, and the one after it, of another font, is stored over the second
   * glyph of the last shelf.
   */
  lemma RefusalOverlaps(width: nat, m: nat, a: Glyph, c: Glyph)
    requires m > 0 && 2 * m < width
    requires a.width == m == c.width && a.rows > 0 && c.rows > 0
    ensures var n := PerShelf(width, m) * (Limit(width) - 1) + 1;
            var full := Pack(width, FIRST, Rep(m, Capacity(width, m)));
            && n < Capacity(width, m) && full.shelves >= 1
            && UniformSlot(width, m, n).At?
            && UniformSlot(width, m, Capacity(width, m)).NoRoom?
            && var again := NextSlot(width, full.shelves, m, c.width).place;
               again.At? && Clash(Placed(a, UniformSlot(width, m, n).left, UniformSlot(width, m, n).top),
                                  Placed(c, again.left, again.top))
  {
    var q, l := PerShelf(width, m), Limit(width);
    Division(width - 1, m);
    QuotientAtLeast(width - 1, m, 2);
    var n, cap := q * (l - 1) + 1, Capacity(width, m);
    assert cap == q * (l - 1) + q;
    LastShelf(width, m, n, 1);
    LastShelf(width, m, cap, q);
    var full := Pack(width, FIRST, Rep(m, cap));
    var t := FillOne(width, m, full, cap, q);
    FilledRoomIff(width, m, Move(width, full, m), cap + 1, t);
    FilledRoomIff(width, m, full, cap, q);
    SlotIff(width, full, m);
  }

  /** With `t` glyphs on the last shelf the atlas can have, that shelf and pen are current. */
  lemma LastShelf(width: nat, m: nat, n: nat, t: nat)
    requires 0 < m < width && 1 <= t <= PerShelf(width, m)
    requires n == PerShelf(width, m) * (Limit(width) - 1) + t
    ensures Pack(width, FIRST, Rep(m, n)) == Head(Limit(width), t * m)
    ensures Filled(width, m, Pack(width, FIRST, Rep(m, n)), n, t)
  {
    var q, l := PerShelf(width, m), Limit(width);
    var u := PackUniform(width, m, n);
    var h := Pack(width, FIRST, Rep(m, n));
    SameShelf(q, h.shelves - 1, u, l - 1, t);
  }
}
