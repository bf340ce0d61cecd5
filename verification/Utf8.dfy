/** The streaming UTF-8 decoder and the encoder it inverts (RFC 3629, sections 3 and 4). */
module Utf8 {
  import opened Text

  /** Which byte is expected next; the suffix tells lead bytes with a narrower second byte apart. */
  datatype State =
    | Initial
    | Two2
    | Three2E0
    | Three2
    | Three3
    | Four2F0
    | Four2
    | Four2F4
    | Four3
    | Four4

  datatype Decoder = Decoder(state: State, acc: nat)

  /** The decoder after one byte, and the code point the byte completed. */
  datatype Output = Output(next: Decoder, point: Option<nat>)

  const MAX_POINT: nat := 0x10FFFF

  /**
   * One byte of the decoder. The accumulator's low bits are zero wherever the source
   * combines fields with `|`, so the sums below are those bitwise combinations.
   */
  function Feed(d: Decoder, x: nat): Output {
    match d.state
    case Initial =>
      if 0xC2 <= x <= 0xDF then Output(Decoder(Two2, x % 0x20 * 0x40), None)
      else if x == 0xE0 then Output(Decoder(Three2E0, x % 0x10 * 0x1000), None)
      else if 0xE1 <= x <= 0xEF then Output(Decoder(Three2, x % 0x10 * 0x1000), None)
      else if x == 0xF0 then Output(Decoder(Four2F0, x % 8 * 0x40000), None)
      else if 0xF1 <= x <= 0xF3 then Output(Decoder(Four2, x % 8 * 0x40000), None)
      else if x == 0xF4 then Output(Decoder(Four2F4, x % 8 * 0x40000), None)
      else Output(d, None)
    case Two2 => Finish(d, x)
    case Three2E0 => Middle(d, x, 0xA0, 0xBF, Three3)
    case Three2 => Middle(d, x, 0x80, 0xBF, Three3)
    case Three3 => Finish(d, x)
    case Four2F0 => Middle(d, x, 0x90, 0xBF, Four3)
    case Four2 => Middle(d, x, 0x80, 0xBF, Four3)
    case Four2F4 => Middle(d, x, 0x80, 0x8F, Four3)
    case Four3 => Middle(d, x, 0x80, 0xBF, Four4)
    case Four4 => Finish(d, x)
  }

  function Middle(d: Decoder, x: nat, lo: nat, hi: nat, next: State): Output {
    if lo <= x <= hi
    then Output(Decoder(next, d.acc + (if next == Four3 then x % 0x40 * 0x1000 else x % 0x40 * 0x40)), None)
    else Output(Decoder(Initial, d.acc), None)
  }

  function Finish(d: Decoder, x: nat): Output {
    if 0x80 <= x <= 0xBF
    then Output(Decoder(Initial, d.acc + x % 0x40), Some(d.acc + x % 0x40))
    else Output(Decoder(Initial, d.acc), None)
  }

  /** What the accumulator can hold in each state. */
  predicate InRange(d: Decoder) {
    match d.state
    case Initial => true
    case Two2 => d.acc % 0x40 == 0 && 0x80 <= d.acc <= 0x7C0
    case Three2E0 => d.acc == 0
    case Three2 => d.acc % 0x1000 == 0 && 0x1000 <= d.acc <= 0xF000
    case Three3 => d.acc % 0x40 == 0 && 0x800 <= d.acc <= 0xFFC0
    case Four2F0 => d.acc == 0
    case Four2 => d.acc % 0x40000 == 0 && 0x40000 <= d.acc <= 0xC0000
    case Four2F4 => d.acc == 0x100000
    case Four3 => d.acc % 0x1000 == 0 && 0x10000 <= d.acc <= 0x10F000
    case Four4 => d.acc % 0x40 == 0 && 0x10000 <= d.acc <= 0x10FFC0
  }

  /** The accumulator stays in range, so no code point above 0x10FFFF is ever produced. */
  lemma FeedInRange(d: Decoder, x: nat)
    requires InRange(d)
    ensures InRange(Feed(d, x).next)
    ensures Feed(d, x).point.Some? ==> 0x80 <= Feed(d, x).point.value <= MAX_POINT
  {
    if d.state == Initial {
      LeadInRange(d, x);
    } else if 0x80 <= x <= 0xBF {
      ContinuationInRange(d, x);
    }
  }

  lemma LeadInRange(d: Decoder, x: nat)
    requires d.state == Initial
    ensures InRange(Feed(d, x).next)
  {
    FieldBits(x);
    if 0xC2 <= x <= 0xDF {
      Shift6(x - 0xC0, 0);
    } else if 0xE1 <= x <= 0xEF {
      Shift12(x - 0xE0);
    }
  }

  lemma ContinuationInRange(d: Decoder, x: nat)
    requires InRange(d) && d.state != Initial && 0x80 <= x <= 0xBF
    ensures InRange(Feed(d, x).next)
    ensures Feed(d, x).point.Some? ==> 0x80 <= Feed(d, x).point.value <= MAX_POINT
  {
    var m := x - 0x80;
    assert x % 0x40 == m by { FieldBits(x); }
    match d.state
    case Two2 =>
    case Three3 =>
    case Four4 =>
    case Three2E0 => Field6(d.acc, m);
    case Three2 => Field6(d.acc, m);
    case Four2F0 => Field12(d.acc, m);
    case Four2 => Field12(d.acc, m);
    case Four2F4 => Field12(d.acc, m);
    case Four3 => Field6(d.acc, m);
  }

  lemma Field6(acc: nat, m: nat)
    requires acc % 0x1000 == 0
    ensures (acc + m * 0x40) % 0x40 == 0
  {
    var k := acc / 0x1000;
    assert acc + m * 0x40 == (k * 0x40 + m) * 0x40;
    Shift6(k * 0x40 + m, 0);
  }

  lemma Field12(acc: nat, m: nat)
    requires acc % 0x40000 == 0
    ensures (acc + m * 0x1000) % 0x1000 == 0
  {
    var k := acc / 0x40000;
    assert acc + m * 0x1000 == (k * 0x40 + m) * 0x1000;
    Shift12(k * 0x40 + m);
  }

  lemma Shift12(q: nat)
    ensures q * 0x1000 % 0x1000 == 0
  {
  }

  lemma LeadIsSilent(d: Decoder, x: nat)
    requires d.state == Initial
    ensures Feed(d, x).point == None
  {
  }

  /** The payload bits the masks of the source select. */
  lemma FieldBits(x: nat)
    ensures 0xC0 <= x <= 0xDF ==> x % 0x20 == x - 0xC0
    ensures 0xE0 <= x <= 0xEF ==> x % 0x10 == x - 0xE0
    ensures 0xF0 <= x <= 0xF7 ==> x % 8 == x - 0xF0
    ensures 0x80 <= x <= 0xBF ==> x % 0x40 == x - 0x80
  {
  }

  lemma Shift6(q: nat, r: nat)
    requires r < 0x40
    ensures (q * 0x40 + r) / 0x40 == q && (q * 0x40 + r) % 0x40 == r
  {
  }

  /** The six-bit fields of a number. */
  lemma Fields(a: nat, b: nat, c: nat, e: nat)
    requires b < 0x40 && c < 0x40 && e < 0x40
    ensures var p := a * 0x40000 + b * 0x1000 + c * 0x40 + e;
            && p / 0x40000 == a && p / 0x1000 == a * 0x40 + b && p / 0x1000 % 0x40 == b
            && p / 0x40 % 0x40 == c && p % 0x40 == e
  {
    var q := a * 0x40 + b;
    var r := q * 0x40 + c;
    Shift6(a, b);
    Shift6(q, c);
    Shift6(r, e);
    var p := r * 0x40 + e;
    assert p / 0x1000 == p / 0x40 / 0x40;
    assert p / 0x40000 == p / 0x1000 / 0x40;
  }

  /** The encoder of section 3 of RFC 3629. */
  function Encode(p: nat): (bytes: seq<nat>)
    requires p <= MAX_POINT
    ensures bytes != [] && forall i :: 0 <= i < |bytes| ==> bytes[i] < 0x100
    ensures p >= 0x80 ==> forall i :: 0 <= i < |bytes| ==> bytes[i] >= 0x80
  {
    if p < 0x80 then [p]
    else if p < 0x800 then [0xC0 + p / 0x40, 0x80 + p % 0x40]
    else if p < 0x10000 then [0xE0 + p / 0x1000, 0x80 + p / 0x40 % 0x40, 0x80 + p % 0x40]
    else [0xF0 + p / 0x40000, 0x80 + p / 0x1000 % 0x40, 0x80 + p / 0x40 % 0x40, 0x80 + p % 0x40]
  }

  predicate MultiByte(p: nat) { 0x80 <= p <= MAX_POINT }

  function EncodeAll(points: seq<nat>): seq<nat>
    requires forall i :: 0 <= i < |points| ==> MultiByte(points[i])
  {
    if points == [] then []
    else
      assert MultiByte(points[0]);
      Encode(points[0]) + EncodeAll(points[1..])
  }

  lemma {:induction false} EncodeAllHigh(points: seq<nat>)
    requires forall i :: 0 <= i < |points| ==> MultiByte(points[i])
    ensures forall i :: 0 <= i < |EncodeAll(points)| ==> 0x80 <= EncodeAll(points)[i] < 0x100
  {
    if points != [] {
      assert MultiByte(points[0]);
      EncodeAllHigh(points[1..]);
    }
  }

  /** The decoder after a byte string. */
  function After(d: Decoder, bytes: seq<nat>): Decoder
    decreases |bytes|
  {
    if bytes == [] then d else After(Feed(d, bytes[0]).next, bytes[1..])
  }

  /** The code points completed while reading a byte string. */
  function Points(d: Decoder, bytes: seq<nat>): seq<nat>
    decreases |bytes|
  {
    if bytes == [] then []
    else
      var o := Feed(d, bytes[0]);
      var rest := Points(o.next, bytes[1..]);
      if o.point.Some? then [o.point.value] + rest else rest
  }

  lemma {:induction false} FeedConcat(d: Decoder, a: seq<nat>, b: seq<nat>)
    ensures After(d, a + b) == After(After(d, a), b)
    ensures Points(d, a + b) == Points(d, a) + Points(After(d, a), b)
    decreases |a|
  {
    if a == [] {
      assert a + b == b;
    } else {
      assert (a + b)[0] == a[0] && (a + b)[1..] == a[1..] + b;
      FeedConcat(Feed(d, a[0]).next, a[1..], b);
    }
  }

  /** A byte that completes nothing is one silent step. */
  lemma FeedSilent(d: Decoder, bytes: seq<nat>)
    requires bytes != [] && Feed(d, bytes[0]).point == None
    ensures After(d, bytes) == After(Feed(d, bytes[0]).next, bytes[1..])
    ensures Points(d, bytes) == Points(Feed(d, bytes[0]).next, bytes[1..])
  {
  }

  lemma FeedLast(d: Decoder, x: nat)
    requires Feed(d, x).point.Some?
    ensures After(d, [x]) == Feed(d, x).next
    ensures Points(d, [x]) == [Feed(d, x).point.value]
  {
    var v := Feed(d, x).point.value;
    assert [x][1..] == [];
    assert [v] + [] == [v];
  }

  lemma DecodeTwo(d: Decoder, c: nat, e: nat)
    requires d.state == Initial && 2 <= c < 0x20 && e < 0x40
    ensures var p := c * 0x40 + e;
            && After(d, [0xC0 + c, 0x80 + e]) == Decoder(Initial, p)
            && Points(d, [0xC0 + c, 0x80 + e]) == [p]
  {
    var s := [0xC0 + c, 0x80 + e];
    FieldBits(s[0]);
    FieldBits(s[1]);
    FeedSilent(d, s);
    assert s[1..] == [s[1]];
    FeedLast(Feed(d, s[0]).next, s[1]);
  }

  lemma DecodeThree(d: Decoder, b: nat, c: nat, e: nat)
    requires d.state == Initial && b < 0x10 && c < 0x40 && e < 0x40
    requires b > 0 || c >= 0x20
    ensures var p := b * 0x1000 + c * 0x40 + e;
            && After(d, [0xE0 + b, 0x80 + c, 0x80 + e]) == Decoder(Initial, p)
            && Points(d, [0xE0 + b, 0x80 + c, 0x80 + e]) == [p]
  {
    var s := [0xE0 + b, 0x80 + c, 0x80 + e];
    FieldBits(s[0]);
    FieldBits(s[1]);
    FieldBits(s[2]);
    var d1 := Feed(d, s[0]).next;
    assert d1 == Decoder(if b == 0 then Three2E0 else Three2, b * 0x1000);
    FeedSilent(d, s);
    var d2 := Feed(d1, s[1]).next;
    assert d2 == Decoder(Three3, b * 0x1000 + c * 0x40);
    assert s[1..] == [s[1], s[2]];
    FeedSilent(d1, [s[1], s[2]]);
    assert [s[1], s[2]][1..] == [s[2]];
    FeedLast(d2, s[2]);
  }

  lemma DecodeFour(d: Decoder, a: nat, b: nat, c: nat, e: nat)
    requires d.state == Initial && a < 5 && b < 0x40 && c < 0x40 && e < 0x40
    requires a > 0 || b >= 0x10
    requires a < 4 || b < 0x10
    ensures var p := a * 0x40000 + b * 0x1000 + c * 0x40 + e;
            && After(d, [0xF0 + a, 0x80 + b, 0x80 + c, 0x80 + e]) == Decoder(Initial, p)
            && Points(d, [0xF0 + a, 0x80 + b, 0x80 + c, 0x80 + e]) == [p]
  {
    var s := [0xF0 + a, 0x80 + b, 0x80 + c, 0x80 + e];
    FieldBits(s[0]);
    FieldBits(s[1]);
    FieldBits(s[2]);
    FieldBits(s[3]);
    var d1 := Feed(d, s[0]).next;
    assert d1 == Decoder(if a == 0 then Four2F0 else if a < 4 then Four2 else Four2F4, a * 0x40000);
    FeedSilent(d, s);
    var d2 := Feed(d1, s[1]).next;
    assert d2 == Decoder(Four3, a * 0x40000 + b * 0x1000);
    assert s[1..] == [s[1], s[2], s[3]];
    FeedSilent(d1, [s[1], s[2], s[3]]);
    var d3 := Feed(d2, s[2]).next;
    assert d3 == Decoder(Four4, a * 0x40000 + b * 0x1000 + c * 0x40);
    assert [s[1], s[2], s[3]][1..] == [s[2], s[3]];
    FeedSilent(d2, [s[2], s[3]]);
    assert [s[2], s[3]][1..] == [s[3]];
    FeedLast(d3, s[3]);
  }

  /** One encoded code point is decoded to itself and leaves the decoder idle. */
  lemma DecodeEncode(d: Decoder, p: nat)
    requires d.state == Initial
    requires MultiByte(p)
    ensures After(d, Encode(p)) == Decoder(Initial, p)
    ensures Points(d, Encode(p)) == [p]
  {
    hide Feed, After, Points;
    var q := p / 0x40;
    var r := p / 0x1000;
    assert r == q / 0x40;
    assert p == q * 0x40 + p % 0x40 && q == r * 0x40 + q % 0x40;
    if p < 0x800 {
      DecodeTwo(d, q, p % 0x40);
    } else if p < 0x10000 {
      DecodeThree(d, r, q % 0x40, p % 0x40);
    } else {
      assert r == p / 0x40000 * 0x40 + r % 0x40;
      DecodeFour(d, p / 0x40000, r % 0x40, q % 0x40, p % 0x40);
    }
  }

  /** Decoding inverts encoding on every list of multi-byte code points, surrogates included. */
  lemma {:induction false} DecodeEncodeAll(d: Decoder, points: seq<nat>)
    requires d.state == Initial
    requires forall i :: 0 <= i < |points| ==> MultiByte(points[i])
    ensures Points(d, EncodeAll(points)) == points
    ensures After(d, EncodeAll(points)).state == Initial
    decreases |points|
  {
    if points != [] {
      assert MultiByte(points[0]);
      DecodeEncode(d, points[0]);
      FeedConcat(d, Encode(points[0]), EncodeAll(points[1..]));
      DecodeEncodeAll(Decoder(Initial, points[0]), points[1..]);
    }
  }

  // -------------------------------------------------------- nothing else decodes

  /** `tail` stands at the end of `s`. */
  predicate EndsWith(s: seq<nat>, tail: seq<nat>) {
    |tail| <= |s| && s[|s| - |tail|..] == tail
  }

  /** The bytes a decoder in state `d` must just have read. */
  predicate Pending(d: Decoder, s: seq<nat>) {
    var n := |s|;
    match d.state
    case Initial => true
    case Two2 => n >= 1 && 0xC2 <= s[n - 1] <= 0xDF && d.acc == (s[n - 1] - 0xC0) * 0x40
    case Three2E0 => n >= 1 && s[n - 1] == 0xE0 && d.acc == 0
    case Three2 => n >= 1 && 0xE1 <= s[n - 1] <= 0xEF && d.acc == (s[n - 1] - 0xE0) * 0x1000
    case Three3 => n >= 2 && SecondOfThree(s[n - 2], s[n - 1])
                   && d.acc == (s[n - 2] - 0xE0) * 0x1000 + (s[n - 1] - 0x80) * 0x40
    case Four2F0 => n >= 1 && s[n - 1] == 0xF0 && d.acc == 0
    case Four2 => n >= 1 && 0xF1 <= s[n - 1] <= 0xF3 && d.acc == (s[n - 1] - 0xF0) * 0x40000
    case Four2F4 => n >= 1 && s[n - 1] == 0xF4 && d.acc == 0x100000
    case Four3 => n >= 2 && SecondOfFour(s[n - 2], s[n - 1])
                  && d.acc == (s[n - 2] - 0xF0) * 0x40000 + (s[n - 1] - 0x80) * 0x1000
    case Four4 => n >= 3 && SecondOfFour(s[n - 3], s[n - 2]) && 0x80 <= s[n - 1] <= 0xBF
                  && d.acc == (s[n - 3] - 0xF0) * 0x40000 + (s[n - 2] - 0x80) * 0x1000
                              + (s[n - 1] - 0x80) * 0x40
  }

  /** The second-byte ranges of UTF8-3 and UTF8-4 in section 4 of RFC 3629, surrogates not excluded. */
  predicate SecondOfThree(a: nat, b: nat) {
    (a == 0xE0 && 0xA0 <= b <= 0xBF) || (0xE1 <= a <= 0xEF && 0x80 <= b <= 0xBF)
  }

  predicate SecondOfFour(a: nat, b: nat) {
    || (a == 0xF0 && 0x90 <= b <= 0xBF)
    || (0xF1 <= a <= 0xF3 && 0x80 <= b <= 0xBF)
    || (a == 0xF4 && 0x80 <= b <= 0x8F)
  }

  lemma PendingInitial(d: Decoder, s: seq<nat>)
    requires d.state == Initial
    ensures Pending(d, s)
  {
  }

  /** Each byte keeps `Pending`. */
  lemma PendingFeed(d: Decoder, s: seq<nat>, x: nat)
    requires Pending(d, s)
    ensures Pending(Feed(d, x).next, s + [x])
  {
    FieldBits(x);
    var n, t := |s|, s + [x];
    assert t[|t| - 1] == x;
    assert n >= 1 ==> t[|t| - 2] == s[n - 1];
    assert n >= 2 ==> t[|t| - 3] == s[n - 2];
    match d.state
    case Initial =>
    case Two2 =>
    case Three2E0 =>
    case Three2 =>
    case Three3 =>
    case Four2F0 =>
    case Four2 =>
    case Four2F4 =>
    case Four3 =>
    case Four4 =>
  }

  lemma EncodeTwo(a: nat, e: nat)
    requires 2 <= a < 0x20 && e < 0x40
    ensures var p := a * 0x40 + e;
            0x80 <= p < 0x800 && Encode(p) == [0xC0 + a, 0x80 + e]
  {
    Shift6(a, e);
  }

  lemma EncodeThree(b: nat, c: nat, e: nat)
    requires b < 0x10 && c < 0x40 && e < 0x40 && (b > 0 || c >= 0x20)
    ensures var p := b * 0x1000 + c * 0x40 + e;
            0x800 <= p < 0x10000 && Encode(p) == [0xE0 + b, 0x80 + c, 0x80 + e]
  {
    Fields(0, b, c, e);
  }

  lemma EncodeFour(a: nat, b: nat, c: nat, e: nat)
    requires a < 5 && b < 0x40 && c < 0x40 && e < 0x40
    requires a > 0 || b >= 0x10
    requires a < 4 || b < 0x10
    ensures var p := a * 0x40000 + b * 0x1000 + c * 0x40 + e;
            0x10000 <= p <= MAX_POINT && Encode(p) == [0xF0 + a, 0x80 + b, 0x80 + c, 0x80 + e]
  {
    Fields(a, b, c, e);
  }

  lemma LastBytes(s: seq<nat>, x: nat, k: nat)
    requires k <= |s|
    ensures (s + [x])[|s| - k..] == s[|s| - k..] + [x]
    ensures k == 1 ==> s[|s| - k..] == [s[|s| - 1]]
    ensures k == 2 ==> s[|s| - k..] == [s[|s| - 2], s[|s| - 1]]
    ensures k == 3 ==> s[|s| - k..] == [s[|s| - 3], s[|s| - 2], s[|s| - 1]]
  {
  }

  lemma CompletesTwo(d: Decoder, s: seq<nat>, x: nat)
    requires d.state == Two2 && Pending(d, s) && 0x80 <= x <= 0xBF
    ensures MultiByte(d.acc + x - 0x80) && EndsWith(s + [x], Encode(d.acc + x - 0x80))
  {
    EncodeTwo(s[|s| - 1] - 0xC0, x - 0x80);
    LastBytes(s, x, 1);
  }

  lemma CompletesThree(d: Decoder, s: seq<nat>, x: nat)
    requires d.state == Three3 && Pending(d, s) && 0x80 <= x <= 0xBF
    ensures MultiByte(d.acc + x - 0x80) && EndsWith(s + [x], Encode(d.acc + x - 0x80))
  {
    EncodeThree(s[|s| - 2] - 0xE0, s[|s| - 1] - 0x80, x - 0x80);
    LastBytes(s, x, 2);
  }

  lemma CompletesFour(d: Decoder, s: seq<nat>, x: nat)
    requires d.state == Four4 && Pending(d, s) && 0x80 <= x <= 0xBF
    ensures MultiByte(d.acc + x - 0x80) && EndsWith(s + [x], Encode(d.acc + x - 0x80))
  {
    EncodeFour(s[|s| - 3] - 0xF0, s[|s| - 2] - 0x80, s[|s| - 1] - 0x80, x - 0x80);
    LastBytes(s, x, 3);
  }

  /** A completed code point has its own encoding as the last bytes read. */
  lemma CompletedIsEncoding(d: Decoder, s: seq<nat>, x: nat)
    requires Pending(d, s)
    requires Feed(d, x).point.Some?
    ensures MultiByte(Feed(d, x).point.value)
    ensures EndsWith(s + [x], Encode(Feed(d, x).point.value))
  {
    assert d.state in {Two2, Three3, Four4} && 0x80 <= x <= 0xBF;
    assert Feed(d, x).point.value == d.acc + x - 0x80 by { FieldBits(x); }
    match d.state
    case Two2 => CompletesTwo(d, s, x);
    case Three3 => CompletesThree(d, s, x);
    case Four4 => CompletesFour(d, s, x);
  }

  /**
   * Over every byte string: whenever the decoder completes a code point, the bytes just
   * read are that code point's one encoding, so overlong forms are never decoded.
   */
  lemma {:induction false} OnlyShortestFormsDecode(s: seq<nat>, x: nat)
    ensures var d := After(Decoder(Initial, 0), s);
            && Pending(d, s)
            && (Feed(d, x).point.Some? ==>
                  && MultiByte(Feed(d, x).point.value)
                  && EndsWith(s + [x], Encode(Feed(d, x).point.value)))
    decreases |s|
  {
    var d := After(Decoder(Initial, 0), s);
    if s != [] {
      var a, y := s[..|s| - 1], s[|s| - 1];
      assert s == a + [y];
      OnlyShortestFormsDecode(a, y);
      FeedConcat(Decoder(Initial, 0), a, [y]);
      PendingFeed(After(Decoder(Initial, 0), a), a, y);
    }
    if Feed(d, x).point.Some? {
      CompletedIsEncoding(d, s, x);
    }
  }
}
