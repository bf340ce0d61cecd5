/** Shelf packing of glyphs into the growing bitmap of `BuildFontAtlas`. */
module AtlasPacking {
  import opened Sequences

  /** Height of a shelf in pixels. */
  const BOUND: nat := 40

  /** A rendered glyph: `rows` lines of `width` pixels. */
  datatype Glyph = Glyph(width: nat, rows: nat, pixels: seq<nat>)

  predicate GlyphOk(g: Glyph) { |g.pixels| == g.width * g.rows }

  /** Lines of the glyph that fit a shelf. */
  function Kept(g: Glyph): nat { Min(g.rows, BOUND) }

  /** A glyph stored with its top left corner at (left, top). */
  datatype Placed = Placed(glyph: Glyph, left: nat, top: nat)

  // ------------------------------------------------------------------- flat indices

  function Index(width: nat, x: nat, y: nat): nat { width * y + x }

  lemma IndexInside(width: nat, height: nat, x: nat, y: nat)
    requires x < width && y < height
    ensures Index(width, x, y) < width * height
  {
    assert width * (y + 1) == width * y + width;
    Monotone(width, y + 1, height);
  }

  lemma Monotone(k: nat, a: nat, b: nat)
    requires a <= b
    ensures k * a <= k * b
  {
  }

  lemma RowsApart(width: nat, x: nat, y: nat, v: nat)
    requires x < width && y < v
    ensures Index(width, x, y) < width * v
  {
    IndexInside(width, v, x, y);
  }

  /** Different pixels have different indices. */
  lemma IndexDistinct(width: nat, x: nat, y: nat, u: nat, v: nat)
    requires x < width && u < width && (x != u || y != v)
    ensures Index(width, x, y) != Index(width, u, v)
  {
    if y < v {
      RowsApart(width, x, y, v);
    } else if v < y {
      RowsApart(width, u, v, y);
    }
  }

  /** Pixel (x, y) of a bitmap, or 0 outside of it. */
  function Pixel(bitmap: seq<nat>, width: nat, x: nat, y: nat): nat {
    if Index(width, x, y) < |bitmap| then bitmap[Index(width, x, y)] else 0
  }

  /** Writing one pixel changes that pixel only. */
  lemma PutPixel(before: seq<nat>, after: seq<nat>, width: nat, x: nat, y: nat, value: nat)
    requires x < width && Index(width, x, y) < |before|
    requires after == before[Index(width, x, y) := value]
    ensures forall u: nat, v: nat :: u < width ==>
              Pixel(after, width, u, v) == if u == x && v == y then value else Pixel(before, width, u, v)
  {
    forall u: nat, v: nat | u < width
      ensures Pixel(after, width, u, v) == if u == x && v == y then value else Pixel(before, width, u, v)
    {
      if u != x || v != y {
        IndexDistinct(width, x, y, u, v);
      }
    }
  }

  // ---------------------------------------------------------------------- rectangles

  /** Pixel (x, y) belongs to the kept part of a stored glyph. */
  predicate Covers(p: Placed, x: nat, y: nat) {
    p.left <= x < p.left + p.glyph.width && p.top <= y < p.top + Kept(p.glyph)
  }

  function Source(p: Placed, x: nat, y: nat): nat
    requires Covers(p, x, y) && GlyphOk(p.glyph)
  {
    SourceInside(p.glyph, x - p.left, y - p.top);
    p.glyph.pixels[p.glyph.width * (y - p.top) + (x - p.left)]
  }

  lemma SourceInside(g: Glyph, x: nat, y: nat)
    requires GlyphOk(g) && x < g.width && y < g.rows
    ensures g.width * y + x < |g.pixels|
  {
    IndexInside(g.width, g.rows, x, y);
  }

  /** No pixel belongs to both. */
  ghost predicate Disjoint(p: Placed, q: Placed) {
    forall x: nat, y: nat :: !(Covers(p, x, y) && Covers(q, x, y))
  }

  /** The kept parts, as rectangles, have a pixel in common. */
  predicate Clash(p: Placed, q: Placed) {
    && Max(p.left, q.left) < Min(p.left + p.glyph.width, q.left + q.glyph.width)
    && Max(p.top, q.top) < Min(p.top + Kept(p.glyph), q.top + Kept(q.glyph))
  }

  lemma ClashIff(p: Placed, q: Placed)
    ensures Disjoint(p, q) <==> !Clash(p, q)
  {
    var x, y := Max(p.left, q.left), Max(p.top, q.top);
    if Clash(p, q) {
      assert Covers(p, x, y) && Covers(q, x, y);
    }
  }

  /** All pixels of the kept part read back as the source pixels. */
  ghost predicate ReadsBack(p: Placed, bitmap: seq<nat>, width: nat)
    requires GlyphOk(p.glyph)
  {
    forall x: nat, y: nat :: Covers(p, x, y) ==> Pixel(bitmap, width, x, y) == Source(p, x, y)
  }

  /** The kept part lies in a bitmap of the given size. */
  predicate Inside(p: Placed, width: nat, height: nat) {
    p.left + p.glyph.width <= width && p.top + Kept(p.glyph) <= height
  }

  /** Stored left of the pen when it stands on the current shelf, and on a shelf above otherwise. */
  predicate Settled(p: Placed, shelves: nat, pen: nat) {
    || p.top + BOUND <= BOUND * (shelves - 1)
    || (p.top == BOUND * (shelves - 1) && p.left + p.glyph.width <= pen)
  }

  // ----------------------------------------------------------------------- shelves

  /** Where the next glyph goes; `NoRoom` when it needs a shelf the atlas cannot have. */
  datatype Slot = Slot(shelves: nat, pen: nat, place: OptionPlace)
  datatype OptionPlace = NoRoom | At(left: nat, top: nat)

  function NextSlot(width: nat, shelves: nat, pen: nat, w: nat): Slot
    requires shelves >= 1
  {
    if pen + w < width then Slot(shelves, pen + w, At(pen, BOUND * (shelves - 1)))
    else if BOUND * (shelves + 1) > width then Slot(shelves, w, NoRoom)
    else Slot(shelves + 1, w, At(0, BOUND * shelves))
  }

  /** A new slot is inside the bitmap, settled, and clear of everything settled before. */
  lemma SlotIsFree(width: nat, shelves: nat, pen: nat, g: Glyph, p: Placed)
    requires shelves >= 1 && g.width <= width
    requires NextSlot(width, shelves, pen, g.width).place.At?
    requires Settled(p, shelves, pen)
    ensures var s := NextSlot(width, shelves, pen, g.width);
            var q := Placed(g, s.place.left, s.place.top);
            && Inside(q, width, BOUND * s.shelves) && Settled(q, s.shelves, s.pen)
            && Settled(p, s.shelves, s.pen) && Disjoint(p, q)
  {
  }

  /**
   * A stored glyph is on another shelf than the current one, or ends left of column `refused`, or
   * starts right of a glyph stored there, or one of the two is empty.
   */
  predicate Spared(p: Placed, shelves: nat, refused: nat, g: Glyph)
    requires shelves >= 1
  {
    || p.top != BOUND * (shelves - 1)
    || p.glyph.width == 0 || p.glyph.rows == 0 || g.width == 0 || g.rows == 0
    || p.left + p.glyph.width <= refused
    || refused + g.width <= p.left
  }

  predicate ClearOf(placed: seq<Placed>, q: Placed) {
    forall i :: 0 <= i < |placed| ==> !Clash(placed[i], q)
  }

  /** No two stored glyphs clash. */
  predicate Apart(placed: seq<Placed>) {
    forall i, j :: 0 <= i < j < |placed| ==> !Clash(placed[i], placed[j])
  }

  /**
   * A refused glyph leaves the pen at its own width on the full shelf. The next glyph, if it is
   * stored, starts there, and the packing survives it if and only if it spares every stored glyph.
   */
  lemma AfterRefusal(width: nat, shelves: nat, pen: nat, refused: nat, g: Glyph, placed: seq<Placed>)
    requires shelves >= 1 && forall i :: 0 <= i < |placed| ==> Settled(placed[i], shelves, pen)
    requires NextSlot(width, shelves, pen, refused).place.NoRoom?
    requires NextSlot(width, shelves, refused, g.width).place.At?
    ensures var place := NextSlot(width, shelves, refused, g.width).place;
            && place == At(refused, BOUND * (shelves - 1))
            && (ClearOf(placed, Placed(g, place.left, place.top))
                <==> forall i :: 0 <= i < |placed| ==> Spared(placed[i], shelves, refused, g))
  {
    hide Settled, Clash, Spared;
    forall i | 0 <= i < |placed|
      ensures Clash(placed[i], Placed(g, refused, BOUND * (shelves - 1))) <==> !Spared(placed[i], shelves, refused, g)
    {
      ClashIffNotSpared(placed[i], shelves, pen, refused, g);
    }
  }

  lemma ClashIffNotSpared(p: Placed, shelves: nat, pen: nat, refused: nat, g: Glyph)
    requires shelves >= 1 && Settled(p, shelves, pen)
    ensures Clash(p, Placed(g, refused, BOUND * (shelves - 1))) <==> !Spared(p, shelves, refused, g)
  {
  }

  /** Stored glyphs lie in the bitmap, read back, and have no pixel in common. */
  ghost predicate PackedIn(placed: seq<Placed>, bitmap: seq<nat>, width: nat, height: nat) {
    && (forall i :: 0 <= i < |placed| ==>
          && GlyphOk(placed[i].glyph)
          && Inside(placed[i], width, height)
          && ReadsBack(placed[i], bitmap, width))
    && (forall i, j :: 0 <= i < j < |placed| ==> Disjoint(placed[i], placed[j]))
  }

  lemma PackedApart(placed: seq<Placed>, bitmap: seq<nat>, width: nat, height: nat)
    requires PackedIn(placed, bitmap, width, height)
    ensures Apart(placed)
  {
    forall i, j | 0 <= i < j < |placed| ensures !Clash(placed[i], placed[j]) {
      ClashIff(placed[i], placed[j]);
    }
  }

  /** `after` is `grown` with the kept part of `q` written. */
  ghost predicate Written(q: Placed, width: nat, grown: seq<nat>, after: seq<nat>)
    requires GlyphOk(q.glyph)
  {
    forall x: nat, y: nat :: x < width ==>
      Pixel(after, width, x, y) == if Covers(q, x, y) then Source(q, x, y) else Pixel(grown, width, x, y)
  }

  /** Growing the bitmap and writing one more glyph keeps a packing exactly if the glyph clashes with none. */
  lemma PackedMore(placed: seq<Placed>, q: Placed, width: nat, height: nat, newHeight: nat,
                   before: seq<nat>, grown: seq<nat>, after: seq<nat>)
    requires PackedIn(placed, before, width, height) && |before| == width * height && height <= newHeight
    requires before <= grown && GlyphOk(q.glyph) && Inside(q, width, newHeight) && Written(q, width, grown, after)
    ensures PackedIn(placed + [q], after, width, newHeight) <==> ClearOf(placed, q)
  {
    hide ReadsBack, Written, Disjoint, Clash, GlyphOk;
    var all := placed + [q];
    if PackedIn(all, after, width, newHeight) {
      PackedApart(all, after, width, newHeight);
      assert forall i :: 0 <= i < |placed| ==> all[i] == placed[i] && all[|placed|] == q;
    }
    if ClearOf(placed, q) {
      WrittenReads(q, width, newHeight, grown, after);
      forall k | 0 <= k < |placed| ensures Disjoint(placed[k], q) && ReadsBack(placed[k], after, width) {
        ClashIff(placed[k], q);
        KeptReadable(placed[k], q, width, height, before, grown, after);
      }
    }
  }

  lemma WrittenReads(q: Placed, width: nat, height: nat, grown: seq<nat>, after: seq<nat>)
    requires GlyphOk(q.glyph) && Inside(q, width, height) && Written(q, width, grown, after)
    ensures ReadsBack(q, after, width)
  {
  }

  // -------------------------------------------------------------------- the builder

  /** The bitmap, shelf counter and pen that `BuildFontAtlas` keeps while it runs. */
  class Bitmap {
    const width: nat
    var bitmap: seq<nat>
    var numRows: nat
    var rowPointer: nat
    ghost var placed: seq<Placed>

    /** Enough for every pixel access; holds even after a glyph was refused. */
    ghost predicate Safe()
      reads this
    {
      numRows >= 1 && |bitmap| == width * (BOUND * numRows)
    }

    /** The packing: inside, pairwise disjoint, and readable. */
    ghost predicate Packed()
      reads this
    {
      Safe() && PackedIn(placed, bitmap, width, BOUND * numRows)
    }

    /** A packing with everything on the current shelf left of the pen. */
    ghost predicate Valid()
      reads this
    {
      Packed() && forall i :: 0 <= i < |placed| ==> Settled(placed[i], numRows, rowPointer)
    }

    /** The packing stands exactly while no two stored glyphs clash. */
    ghost predicate Exact()
      reads this
    {
      Packed() <==> Apart(placed)
    }

    constructor (width: nat)
      ensures Valid() && Exact() && this.width == width && placed == [] && numRows == 1 && rowPointer == 0
    {
      this.width := width;
      bitmap := Rep(0, width * (BOUND * 1));
      numRows, rowPointer, placed := 1, 0, [];
    }

    /** Chooses the slot, opening a new shelf when the current one is full. */
    method Reserve(w: nat) returns (ok: bool, left: nat, top: nat)
      requires Safe()
      modifies `bitmap, `numRows, `rowPointer
      ensures Safe()
      ensures Slot(numRows, rowPointer, if ok then At(left, top) else NoRoom)
           == NextSlot(width, old(numRows), old(rowPointer), w)
      ensures old(bitmap) <= bitmap && (!ok ==> bitmap == old(bitmap))
    {
      ok, left, top := true, 0, 0;
      if rowPointer + w < width {
        left := rowPointer;
        rowPointer := rowPointer + w;
      } else {
        rowPointer := w;
        if BOUND * (numRows + 1) > width {
          ok := false;
          return;
        }
        numRows := numRows + 1;
        Monotone(width, BOUND * (numRows - 1), BOUND * numRows);
        bitmap := Resized(bitmap, width * (BOUND * numRows), 0);
      }
      top := BOUND * (numRows - 1);
    }

    /** The two pixel loops: line by line, at most `BOUND` lines. */
    method Blit(g: Glyph, left: nat, top: nat)
      requires Safe() && GlyphOk(g)
      requires Inside(Placed(g, left, top), width, BOUND * numRows)
      modifies `bitmap
      ensures Safe()
      ensures forall x: nat, y: nat :: x < width ==>
                Pixel(bitmap, width, x, y)
                == if Covers(Placed(g, left, top), x, y) then Source(Placed(g, left, top), x, y)
                   else old(Pixel(bitmap, width, x, y))
    {
      ghost var b := bitmap;
      ghost var p := Placed(g, left, top);
      var i := 0;
      while i < g.rows && i < BOUND
        invariant 0 <= i <= Kept(g) && |bitmap| == |b|
        invariant forall x: nat, y: nat :: x < width ==>
                    Pixel(bitmap, width, x, y)
                    == if Covers(p, x, y) && y < top + i then Source(p, x, y) else Pixel(b, width, x, y)
      {
        var j := 0;
        while j < g.width
          invariant 0 <= j <= g.width && |bitmap| == |b|
          invariant forall x: nat, y: nat :: x < width ==>
                      Pixel(bitmap, width, x, y)
                      == if Covers(p, x, y) && (y < top + i || (y == top + i && x < left + j))
                         then Source(p, x, y) else Pixel(b, width, x, y)
        {
          IndexInside(width, BOUND * numRows, left + j, top + i);
          SourceInside(g, j, i);
          ghost var was := bitmap;
          bitmap := bitmap[width * (top + i) + (left + j) := g.pixels[g.width * i + j]];
          PutPixel(was, bitmap, width, left + j, top + i, g.pixels[g.width * i + j]);
          assert Covers(p, left + j, top + i);
          j := j + 1;
        }
        i := i + 1;
      }
    }

    /**
     * Stores one glyph. As long as no glyph was refused, every stored glyph stays inside the
     * bitmap, apart from the others, and readable, through all later writes and growth. After a
     * refusal the packing survives exactly while the new glyph clashes with none stored before.
     */
    method Place(g: Glyph) returns (ok: bool, left: nat, top: nat)
      requires Safe() && GlyphOk(g) && g.width <= width
      modifies this
      ensures Safe()
      ensures Slot(numRows, rowPointer, if ok then At(left, top) else NoRoom)
           == NextSlot(width, old(numRows), old(rowPointer), g.width)
      ensures placed == if ok then old(placed) + [Placed(g, left, top)] else old(placed)
      ensures old(Valid()) && ok ==> Valid()
      ensures old(Packed()) ==> (Packed() <==> (ok ==> ClearOf(old(placed), Placed(g, left, top))))
      ensures old(Exact()) ==> Exact()
    {
      hide PackedIn, Settled, Clash, Apart, ClearOf, Pixel, Source, Covers;
      ghost var wasPacked, wasValid := Packed(), Valid();
      ghost var shelves, pen, before, earlier := numRows, rowPointer, bitmap, placed;
      ok, left, top := Reserve(g.width);
      if !ok {
        return;
      }
      ghost var q := Placed(g, left, top);
      SlotInside(width, shelves, pen, g);
      ghost var grown := bitmap;
      Blit(g, left, top);
      placed := placed + [q];
      assert Written(q, width, grown, bitmap);
      ApartMore(earlier, q);
      if Packed() {
        PackedApart(placed, bitmap, width, BOUND * numRows);
      }
      if wasPacked {
        PackedApart(earlier, before, width, BOUND * shelves);
        PackedMore(earlier, q, width, BOUND * shelves, BOUND * numRows, before, grown, bitmap);
      }
      if wasValid {
        SettledMore(earlier, q, width, shelves, pen);
      }
    }
  }

  lemma SlotInside(width: nat, shelves: nat, pen: nat, g: Glyph)
    requires shelves >= 1 && g.width <= width
    requires NextSlot(width, shelves, pen, g.width).place.At?
    ensures var s := NextSlot(width, shelves, pen, g.width);
            var q := Placed(g, s.place.left, s.place.top);
            Inside(q, width, BOUND * s.shelves) && Settled(q, s.shelves, s.pen)
  {
  }

  lemma ApartMore(placed: seq<Placed>, q: Placed)
    ensures Apart(placed + [q]) <==> Apart(placed) && ClearOf(placed, q)
  {
    var all := placed + [q];
    assert forall i :: 0 <= i < |placed| ==> all[i] == placed[i];
    assert all[|placed|] == q;
  }

  /** The new slot is clear of a settled packing, and settled with it. */
  lemma SettledMore(placed: seq<Placed>, q: Placed, width: nat, shelves: nat, pen: nat)
    requires shelves >= 1 && q.glyph.width <= width
    requires NextSlot(width, shelves, pen, q.glyph.width).place == At(q.left, q.top)
    requires forall i :: 0 <= i < |placed| ==> Settled(placed[i], shelves, pen)
    ensures ClearOf(placed, q)
    ensures var s := NextSlot(width, shelves, pen, q.glyph.width);
            forall i :: 0 <= i < |placed + [q]| ==> Settled((placed + [q])[i], s.shelves, s.pen)
  {
    hide Settled, Clash;
    SlotInside(width, shelves, pen, q.glyph);
    forall k | 0 <= k < |placed|
      ensures !Clash(placed[k], q)
      ensures Settled(placed[k], NextSlot(width, shelves, pen, q.glyph.width).shelves,
                      NextSlot(width, shelves, pen, q.glyph.width).pen)
    {
      SlotIsFree(width, shelves, pen, q.glyph, placed[k]);
      ClashIff(placed[k], q);
    }
  }

  /** Growing the bitmap and writing a disjoint glyph keep an earlier glyph readable. */
  lemma KeptReadable(p: Placed, q: Placed, width: nat, height: nat,
                     before: seq<nat>, grown: seq<nat>, after: seq<nat>)
    requires GlyphOk(p.glyph) && GlyphOk(q.glyph) && Disjoint(p, q)
    requires Inside(p, width, height) && |before| == width * height && before <= grown
    requires ReadsBack(p, before, width)
    requires Written(q, width, grown, after)
    ensures ReadsBack(p, after, width)
  {
    forall x: nat, y: nat | Covers(p, x, y)
      ensures Pixel(after, width, x, y) == Source(p, x, y)
    {
      IndexInside(width, height, x, y);
      assert Pixel(before, width, x, y) == Source(p, x, y);
      assert !Covers(q, x, y);
    }
  }
}
