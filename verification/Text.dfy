/** Option type and the string helpers of the control-sequence parser. */
module Text {

  datatype Option<+T> = None | Some(value: T) {
    function GetOr(default: T): T { if Some? then value else default }
  }

  // ---------------------------------------------------------------- splitting

  /** Delimiter `d` stands in `s` at position `i`. */
  predicate Occurs(s: string, d: string, i: nat) {
    i + |d| <= |s| && s[i..i + |d|] == d
  }

  /** `std::string::find`: the first occurrence at or after `from`, or -1 for `npos`. */
  function Find(s: string, d: string, from: nat): (r: int)
    ensures r == -1 ==> forall i: nat :: from <= i ==> !Occurs(s, d, i)
    ensures r != -1 ==> from <= r <= |s| - |d| && Occurs(s, d, r)
                        && forall i: nat :: from <= i < r ==> !Occurs(s, d, i)
    decreases |s| - from
  {
    if from > |s| then -1
    else if Occurs(s, d, from) then from
    else Find(s, d, from + 1)
  }

  /** The pieces of `s` between successive leftmost occurrences of `d`. */
  function Split(s: string, d: string): (parts: seq<string>)
    requires d != ""
    ensures parts != []
    decreases |s|
  {
    var i := Find(s, d, 0);
    if i == -1 then [s] else [s[..i]] + Split(s[i + |d|..], d)
  }

  function Join(parts: seq<string>, d: string): string
    requires parts != []
  {
    if |parts| == 1 then parts[0] else parts[0] + d + Join(parts[1..], d)
  }

  function Count(s: string, c: char): nat {
    if s == "" then 0 else (if s[0] == c then 1 else 0) + Count(s[1..], c)
  }

  lemma {:induction false} FindShift(s: string, d: string, start: nat, from: nat)
    requires start <= from
    requires start <= |s|
    ensures Find(s, d, from) == if Find(s[start..], d, from - start) == -1 then -1
                                else Find(s[start..], d, from - start) + start
    decreases |s| - from
  {
    var t := s[start..];
    if from <= |s| {
      assert Occurs(s, d, from) == Occurs(t, d, from - start) by {
        if from + |d| <= |s| {
          assert s[from..from + |d|] == t[from - start..from - start + |d|];
        }
      }
      if !Occurs(s, d, from) {
        FindShift(s, d, start, from + 1);
      }
    }
  }

  /** The search loop of `SplitString`; `Split` is its meaning. */
  method SplitString(str: string, delimiter: string) returns (result: seq<string>)
    requires delimiter != ""
    ensures result == Split(str, delimiter)
  {
    hide Split, Occurs;
    result := [];
    var start := 0;
    var end := Find(str, delimiter, 0);
    assert str[0..] == str;
    while end != -1
      invariant 0 <= start <= |str|
      invariant end == Find(str, delimiter, start)
      invariant result + Split(str[start..], delimiter) == Split(str, delimiter)
      decreases |str| - start
    {
      SplitFrom(str, delimiter, start);
      result := result + [str[start..end]];
      start := end + |delimiter|;
      end := Find(str, delimiter, start);
    }
    SplitFrom(str, delimiter, start);
    result := result + [str[start..]];
  }

  /** One turn of the search loop. */
  lemma SplitFrom(s: string, d: string, start: nat)
    requires d != "" && start <= |s|
    ensures var end := Find(s, d, start);
            Split(s[start..], d) ==
            if end == -1 then [s[start..]] else [s[start..end]] + Split(s[end + |d|..], d)
  {
    hide Occurs, Find, Split;
    var t := s[start..];
    var end := Find(s, d, start);
    FindShift(s, d, start, start);
    if end == -1 {
      SplitOne(t, d);
    } else {
      SliceOfDrop(s, start, end, |d|);
      SplitCut(t, d, s[start..end], s[end + |d|..]);
    }
  }

  lemma SplitOne(t: string, d: string)
    requires d != "" && Find(t, d, 0) == -1
    ensures Split(t, d) == [t]
  {
  }

  lemma SplitCut(t: string, d: string, head: string, rest: string)
    requires d != "" && Find(t, d, 0) == |head|
    requires head == t[..|head|] && rest == t[|head| + |d|..]
    ensures Split(t, d) == [head] + Split(rest, d)
  {
  }

  lemma SliceOfDrop(s: string, a: nat, e: nat, k: nat)
    requires a <= e && e + k <= |s|
    ensures s[a..][..e - a] == s[a..e]
    ensures s[a..][e - a + k..] == s[e + k..]
  {
  }

  /** Joining the pieces restores the text, for every delimiter. */
  lemma {:induction false} JoinSplit(s: string, d: string)
    requires d != ""
    ensures Join(Split(s, d), d) == s
    decreases |s|
  {
    var i := Find(s, d, 0);
    if i != -1 {
      JoinSplit(s[i + |d|..], d);
      assert s == s[..i] + d + s[i + |d|..];
    }
  }

  lemma OccursChar(s: string, c: char, i: nat)
    ensures Occurs(s, [c], i) <==> i < |s| && s[i] == c
  {
    if i + 1 <= |s| {
      assert s[i..i + 1] == [s[i]];
    }
  }

  /** Text without the delimiter is one piece. */
  lemma SplitNone(s: string, c: char)
    requires c !in s
    ensures Split(s, [c]) == [s]
  {
    var i := Find(s, [c], 0);
    if i != -1 {
      OccursChar(s, c, i);
    }
  }

  /** A delimiter-free head followed by the delimiter is the first piece. */
  lemma SplitHead(a: string, c: char, b: string)
    requires c !in a
    ensures Split(a + [c] + b, [c]) == [a] + Split(b, [c])
  {
    var s := a + [c] + b;
    var i := Find(s, [c], 0);
    OccursChar(s, c, |a|);
    OccursChar(s, c, i);
    assert forall k :: 0 <= k < |a| ==> s[k] == a[k];
    assert i == |a|;
    assert s[..i] == a && s[i + 1..] == b;
  }

  /** Decomposes a text at its first `c`. */
  lemma FirstOf(s: string, c: char) returns (a: string, b: string)
    requires c in s
    ensures s == a + [c] + b && c !in a
  {
    var i := Find(s, [c], 0);
    if i == -1 {
      var k :| 0 <= k < |s| && s[k] == c;
      OccursChar(s, c, k);
      assert false;
    }
    OccursChar(s, c, i);
    a, b := s[..i], s[i + 1..];
    forall k | 0 <= k < i ensures s[k] != c {
      OccursChar(s, c, k);
    }
  }

  /** Splitting at one character is a homomorphism from `a c b` to concatenation. */
  lemma {:induction false} SplitConcat(a: string, c: char, b: string)
    ensures Split(a + [c] + b, [c]) == Split(a, [c]) + Split(b, [c])
    decreases |a|
  {
    if c !in a {
      SplitNone(a, c);
      SplitHead(a, c, b);
    } else {
      var h, t := FirstOf(a, c);
      SplitConcat(t, c, b);
      calc {
        Split(a + [c] + b, [c]);
        { assert a + [c] + b == h + [c] + (t + [c] + b); }
        Split(h + [c] + (t + [c] + b), [c]);
        { SplitHead(h, c, t + [c] + b); }
        [h] + Split(t + [c] + b, [c]);
        [h] + (Split(t, [c]) + Split(b, [c]));
        ([h] + Split(t, [c])) + Split(b, [c]);
        { SplitHead(h, c, t); }
        Split(a, [c]) + Split(b, [c]);
      }
    }
  }

  lemma {:induction false} CountHead(a: string, c: char, b: string)
    requires c !in a
    ensures Count(a + [c] + b, c) == 1 + Count(b, c)
  {
    var s := a + [c] + b;
    if a == "" {
      assert s[1..] == b;
    } else {
      assert s[1..] == a[1..] + [c] + b;
      CountHead(a[1..], c, b);
    }
  }

  lemma {:induction false} CountNone(s: string, c: char)
    requires c !in s
    ensures Count(s, c) == 0
  {
    if s != "" {
      CountNone(s[1..], c);
    }
  }

  /** Pieces contain no delimiter and there is one more piece than delimiters. */
  lemma {:induction false} SplitShape(s: string, c: char)
    ensures forall k :: 0 <= k < |Split(s, [c])| ==> c !in Split(s, [c])[k]
    ensures |Split(s, [c])| == Count(s, c) + 1
    decreases |s|
  {
    if c !in s {
      SplitNone(s, c);
      CountNone(s, c);
    } else {
      var a, b := FirstOf(s, c);
      SplitHead(a, c, b);
      CountHead(a, c, b);
      SplitShape(b, c);
    }
  }

  // ------------------------------------------------------------ decimal numbers

  predicate IsDigit(c: char) { '0' <= c <= '9' }

  predicate IsSpace(c: char) { c == ' ' || 9 <= c as int <= 13 }

  function DigitOf(d: nat): char
    requires d < 10
  {
    (d + '0' as int) as char
  }

  function SkipSpaces(s: string): string {
    if s != "" && IsSpace(s[0]) then SkipSpaces(s[1..]) else s
  }

  /** Value of the longest digit prefix of `s`, continuing from `acc`. */
  function Value(s: string, acc: nat): nat {
    if s == "" || !IsDigit(s[0]) then acc
    else Value(s[1..], acc * 10 + (s[0] as int - '0' as int))
  }

  /** The number `sscanf("%d")` and `std::stoi` recognise: blanks, an optional sign, at least one digit. */
  function Scan(s: string): Option<int> {
    var t := SkipSpaces(s);
    var sign := if t != "" && t[0] == '-' then -1 else 1;
    var u := if t != "" && (t[0] == '-' || t[0] == '+') then t[1..] else t;
    if u == "" || !IsDigit(u[0]) then None
    else Some(sign * Value(u, 0))
  }

  /** The values of the source's `int`. */
  predicate IsInt(n: int) { -0x8000_0000 <= n <= 0x7FFF_FFFF }

  /** A sum whose overflow the language leaves undefined. */
  function Plus(a: int, b: int): int
    requires IsInt(a + b)
  {
    a + b
  }

  function Minus(a: int, b: int): int
    requires IsInt(a - b)
  {
    a - b
  }

  /** `sscanf("%d")` is defined: a recognised number is an `int`. */
  predicate Readable(s: string) { Scan(s).Some? ==> IsInt(Scan(s).value) }

  /** `std::stoi`; `None` where it throws, on text that is no number and on numbers that are no `int`. */
  function Stoi(s: string): (r: Option<int>)
    ensures r.Some? ==> Readable(s) && r == Scan(s)
    ensures r.None? ==> Scan(s).None? || !Readable(s)
  {
    if Readable(s) then Scan(s) else None
  }

  /** The macro `read_int_or_default`. */
  function ReadInt(buf: string, default: int): int {
    if buf == "" then default else Scan(buf).GetOr(0)
  }

  /** The macro where `sscanf` is defined. */
  function ReadDefined(buf: string, default: int): (n: int)
    requires buf != "" ==> Readable(buf)
    requires IsInt(default)
    ensures n == ReadInt(buf, default) && IsInt(n)
  {
    ReadInt(buf, default)
  }

  /** `%d` of a number that is not negative. */
  function Dec(n: nat): (r: string)
    ensures r != "" && forall i :: 0 <= i < |r| ==> IsDigit(r[i])
  {
    if n < 10 then [DigitOf(n)] else Dec(n / 10) + [DigitOf(n % 10)]
  }

  lemma {:induction false} ValueAppend(s: string, c: char, acc: nat)
    requires forall i :: 0 <= i < |s| ==> IsDigit(s[i])
    requires IsDigit(c)
    ensures Value(s + [c], acc) == Value(s, acc) * 10 + (c as int - '0' as int)
  {
    if s == "" {
      assert (s + [c])[1..] == "";
    } else {
      assert (s + [c])[1..] == s[1..] + [c];
      ValueAppend(s[1..], c, acc * 10 + (s[0] as int - '0' as int));
    }
  }

  lemma {:induction false} ValueDec(n: nat)
    ensures Value(Dec(n), 0) == n
  {
    if n < 10 {
      assert Dec(n)[1..] == "";
    } else {
      ValueDec(n / 10);
      ValueAppend(Dec(n / 10), DigitOf(n % 10), 0);
    }
  }

  /** Reading a printed number gives it back. */
  lemma ScanDec(n: nat)
    ensures Scan(Dec(n)) == Some(n)
  {
    ValueDec(n);
    var d := Dec(n);
    assert IsDigit(d[0]);
  }

  function Pow10(n: nat): nat { if n == 0 then 1 else 10 * Pow10(n - 1) }

  lemma {:induction false} ValueBound(s: string, acc: nat)
    ensures Value(s, acc) < (acc + 1) * Pow10(|s|)
  {
    if s != "" && IsDigit(s[0]) {
      var d := s[0] as int - '0' as int;
      ValueBound(s[1..], acc * 10 + d);
      Regroup(acc, d, Pow10(|s| - 1));
    } else {
      PowPositive(|s|);
      Scale(1, Pow10(|s|), acc + 1);
    }
  }

  lemma Regroup(acc: nat, d: nat, p: nat)
    requires d < 10
    ensures (acc * 10 + d + 1) * p <= (acc + 1) * (10 * p)
  {
    Scale(acc * 10 + d + 1, (acc + 1) * 10, p);
    assert (acc + 1) * 10 * p == (acc + 1) * (10 * p);
  }

  lemma Scale(a: nat, b: nat, p: nat)
    requires a <= b
    ensures a * p <= b * p
  {
  }

  lemma {:induction false} PowPositive(n: nat)
    ensures Pow10(n) >= 1
  {
    if n > 0 {
      PowPositive(n - 1);
    }
  }

  lemma {:induction false} SkipSpacesShorter(s: string)
    ensures |SkipSpaces(s)| <= |s|
  {
    if s != "" && IsSpace(s[0]) {
      SkipSpacesShorter(s[1..]);
    }
  }

  lemma {:induction false} PowMonotone(m: nat, n: nat)
    requires m <= n
    ensures Pow10(m) <= Pow10(n)
    decreases n
  {
    if m < n {
      PowMonotone(m, n - 1);
    }
  }

  /** Parameters of at most nine characters stay below 10^9, well inside a 32-bit `int`. */
  lemma ScanFits(s: string)
    requires |s| <= 9
    ensures Scan(s).Some? ==> -1_000_000_000 < Scan(s).value < 1_000_000_000
  {
    SkipSpacesShorter(s);
    var t := SkipSpaces(s);
    var u := if t != "" && (t[0] == '-' || t[0] == '+') then t[1..] else t;
    ValueBound(u, 0);
    PowMonotone(|u|, 9);
    assert Pow10(9) == 1_000_000_000 by {
      assert Pow10(3) == 1000;
      assert Pow10(6) == 1_000_000;
    }
  }

  lemma {:induction false} ValuePrefix(u: string, v: string, acc: nat)
    requires v != "" && !IsDigit(v[0])
    ensures Value(u + v, acc) == Value(u, acc)
  {
    if u == "" {
      assert u + v == v;
    } else {
      assert (u + v)[0] == u[0] && (u + v)[1..] == u[1..] + v;
      if IsDigit(u[0]) {
        ValuePrefix(u[1..], v, acc * 10 + (u[0] as int - '0' as int));
      }
    }
  }

  lemma {:induction false} SkipSpacesPrefix(u: string, v: string)
    requires v != "" && !IsSpace(v[0])
    ensures SkipSpaces(u + v) == SkipSpaces(u) + v
  {
    if u == "" {
      assert u + v == v;
    } else {
      assert (u + v)[0] == u[0] && (u + v)[1..] == u[1..] + v;
      if IsSpace(u[0]) {
        SkipSpacesPrefix(u[1..], v);
      }
    }
  }

  /** A number ends where the parameter ends. */
  lemma ScanFirst(a: string, b: string)
    ensures Scan(a + ";" + b) == Scan(a)
  {
    var v := ";" + b;
    assert a + ";" + b == a + v;
    SkipSpacesPrefix(a, v);
    var t := SkipSpaces(a);
    assert t != "" ==> (t + v)[0] == t[0] && (t + v)[1..] == t[1..] + v;
    ValuePrefix(t, v, 0);
    if t != "" {
      ValuePrefix(t[1..], v, 0);
    }
  }

  /** The first parameter decides what a whole parameter text reads as. */
  lemma ScanHead(buf: string)
    ensures Scan(buf) == Scan(Split(buf, ";")[0])
  {
    hide Scan;
    if ';' in buf {
      var a, b := FirstOf(buf, ';');
      SplitHead(a, ';', b);
      ScanFirst(a, b);
    } else {
      SplitNone(buf, ';');
    }
  }
}
