/** Text helpers shared by every component: Python's white space, searching, splitting and
    joining on a character, and decimal numerals. Strings are sequences of Unicode scalar values. */
module Text {

  datatype Option<+T> = None | Some(value: T)

  /** Python's `str.isspace`, which is also what `\s` and `str.strip()` use. */
  predicate IsSpace(c: char) {
    || '\t' <= c <= '\r' || '\U{1c}' <= c <= ' ' || c == '\U{85}' || c == '\U{a0}' || c == '\U{1680}'
    || '\U{2000}' <= c <= '\U{200a}' || c == '\U{2028}' || c == '\U{2029}' || c == '\U{202f}'
    || c == '\U{205f}' || c == '\U{3000}'
  }

  predicate AllSpace(s: string) {
    forall i :: 0 <= i < |s| ==> IsSpace(s[i])
  }

  /** The end of the white space that starts at i. */
  function SpaceEnd(s: string, i: nat): (r: nat)
    requires i <= |s|
    ensures i <= r <= |s| && (r < |s| ==> !IsSpace(s[r]))
    ensures forall k :: i <= k < r ==> IsSpace(s[k])
    decreases |s| - i
  {
    if i < |s| && IsSpace(s[i]) then SpaceEnd(s, i + 1) else i
  }

  /** The start of the white space that ends at i. */
  function SpaceStart(s: string, i: nat): (r: nat)
    requires i <= |s|
    ensures r <= i && (r > 0 ==> !IsSpace(s[r - 1]))
    ensures forall k :: r <= k < i ==> IsSpace(s[k])
  {
    if i > 0 && IsSpace(s[i - 1]) then SpaceStart(s, i - 1) else i
  }

  function RStrip(s: string): (r: string)
    ensures r <= s
    ensures AllSpace(s[|r|..])
    ensures r == "" || !IsSpace(r[|r| - 1])
  {
    s[..SpaceStart(s, |s|)]
  }

  function Strip(s: string): (r: string)
    ensures |r| <= |s|
    ensures r == "" <==> AllSpace(s)
  {
    var a, b := SpaceEnd(s, 0), SpaceStart(s, |s|);
    if a < b then s[a..b] else ""
  }

  /** White space is stripped up to the first and the last other character. */
  lemma StripBetween(s: string, a: nat, b: nat)
    requires a < b <= |s| && !IsSpace(s[a]) && !IsSpace(s[b - 1])
    requires (forall k :: 0 <= k < a ==> IsSpace(s[k])) && (forall k :: b <= k < |s| ==> IsSpace(s[k]))
    ensures Strip(s) == s[a..b]
  {
    assert SpaceEnd(s, 0) == a;
    assert SpaceStart(s, |s|) == b;
  }

  /** Stripping twice is stripping once. */
  lemma StripTwice(s: string)
    ensures Strip(Strip(s)) == Strip(s)
  {
    var t := Strip(s);
    if t != "" {
      var a, b := SpaceEnd(s, 0), SpaceStart(s, |s|);
      assert t[0] == s[a] && t[|t| - 1] == s[b - 1];
      StripBetween(t, 0, |t|);
      assert t[0..|t|] == t;
    }
  }

  lemma Assoc<T>(a: seq<T>, b: seq<T>, c: seq<T>)
    ensures a + (b + c) == a + b + c
  {
  }

  ghost predicate Every<T>(p: T -> bool, s: seq<T>) { forall i :: 0 <= i < |s| ==> p(s[i]) }

  lemma EveryAppend<T>(p: T -> bool, a: seq<T>, b: seq<T>)
    requires Every(p, a) && Every(p, b)
    ensures Every(p, a + b)
  {
  }

  lemma EveryPrefix<T>(p: T -> bool, a: seq<T>, b: seq<T>)
    requires Every(p, b) && a <= b
    ensures Every(p, a)
  {
  }

  /** The texts of the parts, one behind the other. */
  function Concat<P>(f: P -> string, parts: seq<P>): string {
    if parts == [] then "" else f(parts[0]) + Concat(f, parts[1..])
  }

  lemma ConcatOne<P>(f: P -> string, p: P)
    ensures Concat(f, [p]) == f(p)
  {
    assert [p][1..] == [] && f(p) + "" == f(p);
  }

  lemma {:induction false} ConcatAppend<P>(f: P -> string, a: seq<P>, b: seq<P>)
    ensures Concat(f, a + b) == Concat(f, a) + Concat(f, b)
  {
    if a == [] {
      assert a + b == b;
    } else {
      assert (a + b)[0] == a[0] && (a + b)[1..] == a[1..] + b;
      ConcatAppend(f, a[1..], b);
      Assoc(f(a[0]), Concat(f, a[1..]), Concat(f, b));
    }
  }

  lemma SliceJoin<T>(s: seq<T>, a: nat, b: nat, c: nat)
    requires a <= b <= c <= |s|
    ensures s[a..b] + s[b..c] == s[a..c]
  {
  }

  lemma SliceTail<T>(s: seq<T>, a: nat, b: nat)
    requires a <= b <= |s|
    ensures s[a..b] + s[b..] == s[a..]
  {
  }

  predicate StartsAt(s: string, i: int, p: string) {
    0 <= i <= |s| - |p| && s[i..i + |p|] == p
  }

  lemma StartsAtChars(s: string, i: int, p: string)
    requires StartsAt(s, i, p)
    ensures forall k :: 0 <= k < |p| ==> s[i + k] == p[k]
  {
    var w := s[i..i + |p|];
    assert forall k :: 0 <= k < |w| ==> w[k] == s[i + k];
  }

  /** `p in s` for strings. */
  predicate Occurs(p: string, s: string) {
    exists i :: 0 <= i <= |s| && StartsAt(s, i, p)
  }

  /** `s.find(p, from)`: the least index at or after `from`, or None for -1. */
  function Find(s: string, p: string, from: nat): (r: Option<nat>)
    ensures r.Some? ==> from <= r.value && StartsAt(s, r.value, p)
    ensures r.Some? ==> forall i :: from <= i < r.value ==> !StartsAt(s, i, p)
    ensures r.None? ==> forall i :: from <= i ==> !StartsAt(s, i, p)
    decreases |s| - from
  {
    if from > |s| - |p| then None
    else if s[from..from + |p|] == p then Some(from)
    else Find(s, p, from + 1)
  }

  // ------------------------------------------------------------------ counting a character

  function CountChar(s: string, c: char): nat {
    if s == "" then 0 else (if s[0] == c then 1 else 0) + CountChar(s[1..], c)
  }

  lemma {:induction false} CountAppend(a: string, b: string, c: char)
    ensures CountChar(a + b, c) == CountChar(a, c) + CountChar(b, c)
  {
    if a == "" {
      assert a + b == b;
    } else {
      assert (a + b)[0] == a[0] && (a + b)[1..] == a[1..] + b;
      CountAppend(a[1..], b, c);
    }
  }

  lemma {:induction false} CountZero(s: string, c: char)
    ensures CountChar(s, c) == 0 <==> c !in s
  {
    if s != "" {
      CountZero(s[1..], c);
      assert s == [s[0]] + s[1..];
    }
  }

  // ------------------------------------------------------------------ split and join on a character

  function Split(s: string, c: char): (parts: seq<string>)
    ensures |parts| >= 1
  {
    if s == "" then [""]
    else
      var rest := Split(s[1..], c);
      if s[0] == c then [""] + rest else [[s[0]] + rest[0]] + rest[1..]
  }

  function Join(parts: seq<string>, c: char): string {
    if |parts| == 0 then "" else if |parts| == 1 then parts[0]
    else parts[0] + [c] + Join(parts[1..], c)
  }

  lemma {:induction false} SplitPartsClean(s: string, c: char)
    ensures forall i :: 0 <= i < |Split(s, c)| ==> c !in Split(s, c)[i]
  {
    if s != "" { SplitPartsClean(s[1..], c); }
  }

  lemma {:induction false} JoinSplit(s: string, c: char)
    ensures Join(Split(s, c), c) == s
  {
    if s != "" {
      JoinSplit(s[1..], c);
      var rest := Split(s[1..], c);
      if s[0] == c {
        assert ([""] + rest)[1..] == rest;
      } else {
        var parts := [[s[0]] + rest[0]] + rest[1..];
        if |rest| > 1 { assert parts[1..] == rest[1..]; }
      }
    }
  }

  lemma {:induction false} SplitPrefix(p: string, s: string, c: char)
    requires c !in p
    ensures Split(p + s, c) == [p + Split(s, c)[0]] + Split(s, c)[1..]
  {
    if p == "" {
      assert p + s == s && p + Split(s, c)[0] == Split(s, c)[0];
    } else {
      SplitPrefix(p[1..], s, c);
      assert (p + s)[1..] == p[1..] + s;
      assert p == [p[0]] + p[1..];
      assert [p[0]] + (p[1..] + Split(s, c)[0]) == p + Split(s, c)[0];
    }
  }

  lemma {:induction false} SplitJoin(parts: seq<string>, c: char)
    requires |parts| >= 1
    requires forall i :: 0 <= i < |parts| ==> c !in parts[i]
    ensures Split(Join(parts, c), c) == parts
  {
    if |parts| == 1 {
      SplitPrefix(parts[0], "", c);
      assert parts[0] + "" == parts[0];
    } else {
      SplitJoin(parts[1..], c);
      var tail := [c] + Join(parts[1..], c);
      SplitPrefix(parts[0], tail, c);
      assert tail[1..] == Join(parts[1..], c);
      assert parts[0] + [c] + Join(parts[1..], c) == parts[0] + tail;
      assert Split(tail, c) == [""] + parts[1..] && parts[0] + "" == parts[0];
    }
  }

  // ------------------------------------------------------------------ decimal numerals

  predicate IsDigit(c: char) { '0' <= c <= '9' }

  predicate AllDigits(s: string) {
    forall i :: 0 <= i < |s| ==> IsDigit(s[i])
  }

  function DigitOf(d: nat): (c: char)
    requires d < 10
    ensures IsDigit(c) && c as int == '0' as int + d
  {
    (('0' as int) + d) as char
  }

  function Decimal(n: nat): (s: string)
    ensures |s| >= 1 && AllDigits(s)
    ensures s[0] == '0' ==> n == 0
  {
    if n < 10 then [DigitOf(n)] else Decimal(n / 10) + [DigitOf(n % 10)]
  }

  function NumeralValue(s: string): nat
    requires AllDigits(s)
  {
    if s == "" then 0 else 10 * NumeralValue(s[..|s| - 1]) + (s[|s| - 1] as int - '0' as int)
  }

  lemma {:induction false} ValueOfDecimal(n: nat)
    ensures NumeralValue(Decimal(n)) == n
  {
    if n >= 10 {
      ValueOfDecimal(n / 10);
      assert Decimal(n)[..|Decimal(n)| - 1] == Decimal(n / 10);
    }
  }

  lemma DecimalInjective(m: nat, n: nat)
    requires Decimal(m) == Decimal(n)
    ensures m == n
  {
    ValueOfDecimal(m);
    ValueOfDecimal(n);
  }

  /** A numeral without a superfluous leading zero is the rendering of its value. */
  lemma {:induction false} DecimalOfValue(s: string)
    requires |s| >= 1 && AllDigits(s) && (s[0] != '0' || |s| == 1)
    ensures Decimal(NumeralValue(s)) == s
    ensures s[0] != '0' ==> NumeralValue(s) > 0
  {
    var front, d := s[..|s| - 1], s[|s| - 1] as int - '0' as int;
    if |s| == 1 {
      assert NumeralValue(s) == d;
    } else {
      DecimalOfValue(front);
      var v := NumeralValue(front);
      assert v > 0 && NumeralValue(s) == 10 * v + d;
      assert (10 * v + d) / 10 == v && (10 * v + d) % 10 == d;
      assert s == front + [s[|s| - 1]];
    }
  }
}
