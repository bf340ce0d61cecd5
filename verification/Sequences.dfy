/** Sequence vocabulary shared by the screen, the scrollback and the atlas. */
module Sequences {

  function Min(a: int, b: int): int { if a < b then a else b }

  function Max(a: int, b: int): int { if a < b then b else a }

  /** `n` copies of `x`. */
  function Rep<T>(x: T, n: nat): (r: seq<T>)
    ensures |r| == n && forall i :: 0 <= i < n ==> r[i] == x
  {
    seq(n, _ => x)
  }

  /** The last `n` elements, or everything when there are fewer. */
  function Last<T>(s: seq<T>, n: nat): seq<T> {
    s[Max(0, |s| - n)..]
  }

  /** `std::vector::resize`. */
  function Resized<T>(s: seq<T>, n: nat, x: T): (r: seq<T>)
    ensures |r| == n
    ensures forall i :: 0 <= i < n ==> r[i] == if i < |s| then s[i] else x
  {
    if |s| >= n then s[..n] else s + Rep(x, n - |s|)
  }

  /**
   * Moves the window [a, b) of `s` up by `n` places, filling with `x` from `a` and
   * dropping what leaves the window at `b`.
   */
  function ShiftDown<T(!new)>(s: seq<T>, a: nat, b: nat, n: nat, x: T): (r: seq<T>)
    requires a <= b <= |s|
    ensures IsShiftDown(s, a, b, n, x, r)
  {
    var k := Min(n, b - a);
    s[..a] + Rep(x, k) + s[a..b - k] + s[b..]
  }

  /** Moves the window [a, b) of `s` down by `n` places, filling with `x` before `b`. */
  function ShiftUp<T(!new)>(s: seq<T>, a: nat, b: nat, n: nat, x: T): (r: seq<T>)
    requires a <= b <= |s|
    ensures IsShiftUp(s, a, b, n, x, r)
  {
    var k := Min(n, b - a);
    s[..a] + s[a + k..b] + Rep(x, k) + s[b..]
  }

  /** Place by place, `r` is `s` with the window [a, b) moved up. */
  ghost predicate IsShiftDown<T(!new)>(s: seq<T>, a: nat, b: nat, n: nat, x: T, r: seq<T>) {
    && a <= b <= |s| == |r|
    && forall i {:trigger r[i]} :: 0 <= i < |s| ==>
         r[i] == if a <= i < b then (if i - n >= a then s[i - n] else x) else s[i]
  }

  ghost predicate IsShiftUp<T(!new)>(s: seq<T>, a: nat, b: nat, n: nat, x: T, r: seq<T>) {
    && a <= b <= |s| == |r|
    && forall i {:trigger r[i]} :: 0 <= i < |s| ==>
         r[i] == if a <= i < b then (if i + n < b then s[i + n] else x) else s[i]
  }

  lemma ShiftDownUnique<T(!new)>(s: seq<T>, a: nat, b: nat, n: nat, x: T, r: seq<T>)
    requires IsShiftDown(s, a, b, n, x, r)
    ensures r == ShiftDown(s, a, b, n, x)
  {
    var t := ShiftDown(s, a, b, n, x);
    assert IsShiftDown(s, a, b, n, x, t);
    forall i | 0 <= i < |r| ensures r[i] == t[i] {
    }
  }

  /** From place `i` in steps of `k` to the first place at or behind `b`. */
  function Behind(i: int, b: int, k: int): (j: int)
    requires k > 0
    ensures i >= b ==> j == i
    ensures i < b ==> b <= j < b + k
    decreases b - i
  {
    if i >= b then i else Behind(i + k, b, k)
  }

  /** From place `i` in steps of `k` back to the first place before `a`. */
  function Ahead(i: int, a: int, k: int): (j: int)
    requires k > 0
    ensures i < a ==> j == i
    ensures i >= a ==> a - k <= j < a
    decreases i - a
  {
    if i < a then i else Ahead(i - k, a, k)
  }

  /**
   * What place `i` of the window [a, b) holds after each place was filled from `n` places before,
   * starting with the last: a negative `n` reads behind the window, and places already filled.
   */
  function PlaceDown<T>(s: seq<T>, a: nat, b: nat, n: int, x: T, i: nat): T
    requires a <= i < b && b + Max(0, -n) <= |s|
  {
    if n < 0 then s[Behind(i, b, -n)] else if i - n >= a then s[i - n] else x
  }

  /** The same with each place filled from `n` places behind, starting with the first. */
  function PlaceUp<T>(s: seq<T>, a: nat, b: nat, n: int, x: T, i: nat): T
    requires a <= i < b <= |s| && a + n >= 0
  {
    if n < 0 then s[Ahead(i, a, -n)] else if i + n < b then s[i + n] else x
  }

  /** One turn of the copy loop from the end: the place `n` before holds its old value unless it was filled. */
  lemma PlaceDownStep<T>(s: seq<T>, a: nat, b: nat, n: int, x: T, i: nat)
    requires a <= i < b && b + Max(0, -n) <= |s|
    ensures i - n < a ==> PlaceDown(s, a, b, n, x, i) == x
    ensures i - n >= a ==>
              PlaceDown(s, a, b, n, x, i) == if i < i - n < b then PlaceDown(s, a, b, n, x, i - n) else s[i - n]
  {
  }

  /** One turn of the copy loop from the start. */
  lemma PlaceUpStep<T>(s: seq<T>, a: nat, b: nat, n: int, x: T, i: nat)
    requires a <= i < b <= |s| && a + n >= 0
    ensures i + n >= b ==> PlaceUp(s, a, b, n, x, i) == x
    ensures i + n < b ==>
              PlaceUp(s, a, b, n, x, i) == if a <= i + n < i then PlaceUp(s, a, b, n, x, i + n) else s[i + n]
  {
  }

  /** The copy loop from the end of the window: a shift, or repetitions of what stands behind it. */
  function CopyDown<T(!new)>(s: seq<T>, a: nat, b: nat, n: int, x: T): (r: seq<T>)
    requires a <= b && (a < b ==> b + Max(0, -n) <= |s|) && b <= |s|
    ensures |r| == |s|
    ensures forall i {:trigger r[i]} :: 0 <= i < |s| ==> r[i] == if a <= i < b then PlaceDown(s, a, b, n, x, i) else s[i]
    ensures n >= 0 ==> r == ShiftDown(s, a, b, n, x)
  {
    if n >= 0 then ShiftDown(s, a, b, n, x)
    else seq(|s|, i requires 0 <= i < |s| => if a <= i < b then PlaceDown(s, a, b, n, x, i) else s[i])
  }

  /** The copy loop from the start of the window: a shift, or repetitions of what stands before it. */
  function CopyUp<T(!new)>(s: seq<T>, a: nat, b: nat, n: int, x: T): (r: seq<T>)
    requires a <= b <= |s| && (a < b ==> a + n >= 0)
    ensures |r| == |s|
    ensures forall i {:trigger r[i]} :: 0 <= i < |s| ==> r[i] == if a <= i < b then PlaceUp(s, a, b, n, x, i) else s[i]
    ensures n >= 0 ==> r == ShiftUp(s, a, b, n, x)
  {
    if n >= 0 then ShiftUp(s, a, b, n, x)
    else seq(|s|, i requires 0 <= i < |s| => if a <= i < b then PlaceUp(s, a, b, n, x, i) else s[i])
  }

  lemma CopyDownUnique<T(!new)>(s: seq<T>, a: nat, b: nat, n: int, x: T, r: seq<T>)
    requires a <= b <= |s| == |r| && (a < b ==> b + Max(0, -n) <= |s|)
    requires forall i {:trigger r[i]} :: 0 <= i < |s| ==> r[i] == if a <= i < b then PlaceDown(s, a, b, n, x, i) else s[i]
    ensures r == CopyDown(s, a, b, n, x)
  {
    hide CopyDown, PlaceDown;
    var t := CopyDown(s, a, b, n, x);
    forall i | 0 <= i < |r| ensures r[i] == t[i] {
    }
  }

  lemma CopyUpUnique<T(!new)>(s: seq<T>, a: nat, b: nat, n: int, x: T, r: seq<T>)
    requires a <= b <= |s| == |r| && (a < b ==> a + n >= 0)
    requires forall i {:trigger r[i]} :: 0 <= i < |s| ==> r[i] == if a <= i < b then PlaceUp(s, a, b, n, x, i) else s[i]
    ensures r == CopyUp(s, a, b, n, x)
  {
    hide CopyUp, PlaceUp;
    var t := CopyUp(s, a, b, n, x);
    forall i | 0 <= i < |r| ensures r[i] == t[i] {
    }
  }

  /** Overwrites the window [a, b) with `x`. */
  function Fill<T>(s: seq<T>, a: nat, b: nat, x: T): (r: seq<T>)
    requires a <= b <= |s|
    ensures |r| == |s|
    ensures forall i :: 0 <= i < |s| ==> r[i] == if a <= i < b then x else s[i]
  {
    s[..a] + Rep(x, b - a) + s[b..]
  }

  /** Two shifts in the same direction are one shift by the sum. */
  lemma ShiftDownAdds<T(!new)>(s: seq<T>, a: nat, b: nat, m: nat, n: nat, x: T)
    requires a <= b <= |s|
    ensures ShiftDown(ShiftDown(s, a, b, m, x), a, b, n, x) == ShiftDown(s, a, b, m + n, x)
  {
    var l, r := ShiftDown(ShiftDown(s, a, b, m, x), a, b, n, x), ShiftDown(s, a, b, m + n, x);
    forall i | 0 <= i < |s| ensures l[i] == r[i] {
    }
  }

  lemma ShiftUpAdds<T(!new)>(s: seq<T>, a: nat, b: nat, m: nat, n: nat, x: T)
    requires a <= b <= |s|
    ensures ShiftUp(ShiftUp(s, a, b, m, x), a, b, n, x) == ShiftUp(s, a, b, m + n, x)
  {
    var l, r := ShiftUp(ShiftUp(s, a, b, m, x), a, b, n, x), ShiftUp(s, a, b, m + n, x);
    forall i | 0 <= i < |s| ensures l[i] == r[i] {
    }
  }

  /** Shifting down and back up loses exactly the last `n` places of the window. */
  lemma ShiftUpUndoesShiftDown<T(!new)>(s: seq<T>, a: nat, b: nat, n: nat, x: T)
    requires a <= b <= |s|
    ensures ShiftUp(ShiftDown(s, a, b, n, x), a, b, n, x) == Fill(s, Max(a, b - n), b, x)
  {
    var l, r := ShiftUp(ShiftDown(s, a, b, n, x), a, b, n, x), Fill(s, Max(a, b - n), b, x);
    forall i | 0 <= i < |s| ensures l[i] == r[i] {
    }
  }

  /** Rows laid end to end. */
  function Flatten<T>(rows: seq<seq<T>>): seq<T> {
    if rows == [] then [] else rows[0] + Flatten(rows[1..])
  }

  lemma {:induction false} FlattenAppend<T>(a: seq<seq<T>>, b: seq<seq<T>>)
    ensures Flatten(a + b) == Flatten(a) + Flatten(b)
  {
    if a == [] {
      assert a + b == b;
    } else {
      assert (a + b)[0] == a[0] && (a + b)[1..] == a[1..] + b;
      FlattenAppend(a[1..], b);
    }
  }

  lemma FlattenOne<T>(r: seq<T>)
    ensures Flatten([r]) == r
  {
    assert Flatten([r]) == r + Flatten([]);
  }
}
