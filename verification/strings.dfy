/** String helpers shared by the modules of the model: prefix, suffix and
    substring tests, ASCII case mapping, decimal rendering and the
    code-point order Python uses to compare `str` values. */
module Strings {

  predicate StartsWith<T(==)>(s: seq<T>, prefix: seq<T>) {
    |prefix| <= |s| && s[..|prefix|] == prefix
  }

  predicate EndsWith<T(==)>(s: seq<T>, suffix: seq<T>) {
    |suffix| <= |s| && s[|s| - |suffix|..] == suffix
  }

  /** Python's `needle in hay` for `str` and `bytes`. */
  predicate Contains<T(==)>(hay: seq<T>, needle: seq<T>)
    decreases |hay|
  {
    StartsWith(hay, needle) || (|hay| > 0 && Contains(hay[1..], needle))
  }

  /** Index of the first `x` in `s`, or `|s|` when there is none. */
  function IndexOf<T(==)>(s: seq<T>, x: T): (i: nat)
    ensures i <= |s|
    ensures i < |s| ==> s[i] == x
    ensures forall j :: 0 <= j < i ==> s[j] != x
  {
    if |s| == 0 then 0 else if s[0] == x then 0 else 1 + IndexOf(s[1..], x)
  }

  /** The first `x` of `a + b` is the first of `a`, or else the first of
      `b` shifted past `a`. */
  lemma {:induction false} IndexOfAppend<T>(a: seq<T>, b: seq<T>, x: T)
    ensures IndexOf(a + b, x) == if IndexOf(a, x) < |a| then IndexOf(a, x) else |a| + IndexOf(b, x)
    decreases |a|
  {
    if |a| == 0 {
      assert a + b == b;
    } else if a[0] != x {
      assert (a + b)[1..] == a[1..] + b;
      IndexOfAppend(a[1..], b, x);
    }
  }

  /** `s.split(c)`. */
  function SplitOn(s: string, c: char): (parts: seq<string>)
    ensures |parts| >= 1
    ensures forall i :: 0 <= i < |parts| ==> c !in parts[i]
    ensures c !in s ==> parts == [s]
    decreases |s|
  {
    var k := IndexOf(s, c);
    if k == |s| then [s]
    else
      assert c !in s[..k] by { assert forall j :: 0 <= j < k ==> s[..k][j] == s[j]; }
      [s[..k]] + SplitOn(s[k + 1..], c)
  }

  /** Splitting `dir + c + name` splits `dir` and adds `name` as the last part. */
  lemma {:induction false} SplitOnAppend(dir: string, c: char, name: string)
    requires c !in name
    ensures SplitOn(dir + [c] + name, c) == SplitOn(dir, c) + [name]
    decreases |dir|
  {
    var s := dir + [c] + name;
    var k := IndexOf(dir, c);
    IndexOfAppend(dir, [c] + name, c);
    assert s == dir + ([c] + name);
    if k == |dir| {
      assert IndexOf(s, c) == |dir|;
      assert s[..|dir|] == dir && s[|dir| + 1..] == name;
    } else {
      assert IndexOf(s, c) == k;
      assert s[..k] == dir[..k];
      assert s[k + 1..] == dir[k + 1..] + [c] + name;
      SplitOnAppend(dir[k + 1..], c, name);
      ConcatAssoc([dir[..k]], SplitOn(dir[k + 1..], c), [name]);
    }
  }

  /** Python's `s.rstrip(c)` for a single character `c`. */
  function TrimEnd(s: string, c: char): (r: string)
    ensures |r| <= |s| && r == s[..|r|]
    ensures forall i :: |r| <= i < |s| ==> s[i] == c
    ensures |r| == 0 || r[|r| - 1] != c
  {
    if |s| > 0 && s[|s| - 1] == c then TrimEnd(s[..|s| - 1], c) else s
  }

  /** `rstrip(c)` changes nothing exactly when `c` does not end the string. */
  lemma TrimEndFixed(s: string, c: char)
    ensures TrimEnd(s, c) == s <==> s == [] || s[|s| - 1] != c
  {
    var r := TrimEnd(s, c);
    if |s| > 0 && s[|s| - 1] == c {
      assert r[..|r|] == r;
      assert |r| < |s|;
    }
  }

  lemma ConcatAssoc<T>(a: seq<T>, b: seq<T>, c: seq<T>)
    ensures (a + b) + c == a + (b + c)
  {
  }

  /** `n` copies of `x`. */
  function Repeat<T>(x: T, n: nat): (r: seq<T>)
    ensures |r| == n
    ensures forall i :: 0 <= i < n ==> r[i] == x
  {
    if n == 0 then [] else [x] + Repeat(x, n - 1)
  }

  // ---------------------------------------------------------------------
  // ASCII classes and case mapping

  predicate IsDigit(c: char) {
    '0' <= c <= '9'
  }

  predicate AllDigits(s: string) {
    forall i :: 0 <= i < |s| ==> IsDigit(s[i])
  }

  predicate IsAsciiLetter(c: char) {
    ('A' <= c <= 'Z') || ('a' <= c <= 'z')
  }

  predicate IsAsciiAlnum(c: char) {
    IsAsciiLetter(c) || IsDigit(c)
  }

  /** `str.lower()` restricted to ASCII letters. */
  function LowerChar(c: char): (r: char)
    ensures 'A' <= c <= 'Z' ==> 'a' <= r <= 'z' && r as int == c as int + 32
    ensures !('A' <= c <= 'Z') ==> r == c
  {
    if 'A' <= c <= 'Z' then (c as int + 32) as char else c
  }

  function Lower(s: string): (r: string)
    ensures |r| == |s|
    ensures forall i :: 0 <= i < |s| ==> r[i] == LowerChar(s[i])
  {
    seq(|s|, i requires 0 <= i < |s| => LowerChar(s[i]))
  }

  // ---------------------------------------------------------------------
  // Decimal numbers

  function DigitChar(d: nat): (c: char)
    requires d < 10
    ensures IsDigit(c)
  {
    ('0' as int + d) as char
  }

  function DigitValue(c: char): nat
    requires IsDigit(c)
  {
    c as int - '0' as int
  }

  /** The number a string of decimal digits denotes, leading zeros allowed. */
  function DigitsValue(s: string): nat
    requires AllDigits(s)
  {
    if |s| == 0 then 0 else 10 * DigitsValue(s[..|s| - 1]) + DigitValue(s[|s| - 1])
  }

  /** Python's `str(n)` for a non-negative integer. */
  function NatToString(n: nat): (r: string)
    ensures |r| > 0 && AllDigits(r)
    ensures r[0] == '0' ==> n == 0
  {
    if n < 10 then [DigitChar(n)] else NatToString(n / 10) + [DigitChar(n % 10)]
  }

  /** `str(n)` reads back as `n`. */
  lemma {:induction false} NatToStringValue(n: nat)
    ensures DigitsValue(NatToString(n)) == n
  {
    if n >= 10 {
      var r := NatToString(n);
      NatToStringValue(n / 10);
      assert r[..|r| - 1] == NatToString(n / 10);
    }
  }

  lemma {:induction false} NatToStringMonotone(n: nat, m: nat)
    requires n <= m
    ensures |NatToString(n)| <= |NatToString(m)|
    decreases m
  {
    if n >= 10 {
      NatToStringMonotone(n / 10, m / 10);
    }
  }

  function Pow10(k: nat): (p: nat)
    ensures p >= 1
  {
    if k == 0 then 1 else 10 * Pow10(k - 1)
  }

  lemma {:induction false} DigitsValueBound(s: string)
    requires AllDigits(s)
    ensures DigitsValue(s) < Pow10(|s|)
  {
    if |s| > 0 {
      DigitsValueBound(s[..|s| - 1]);
    }
  }

  /** Reading a digit string from the front: the first digit weighs `10^(|s|-1)`. */
  lemma {:induction false} DigitsValueFront(s: string)
    requires |s| > 0 && AllDigits(s)
    ensures DigitsValue(s) == DigitValue(s[0]) * Pow10(|s| - 1) + DigitsValue(s[1..])
  {
    if |s| > 1 {
      var t := s[..|s| - 1];
      var u := s[1..];
      DigitsValueFront(t);
      assert t[1..] == u[..|u| - 1];
      assert t[0] == s[0] && u[|u| - 1] == s[|s| - 1];
      var a: int, p: int, b: int, d: int := DigitValue(s[0]), Pow10(|t| - 1), DigitsValue(t[1..]), DigitValue(s[|s| - 1]);
      assert DigitsValue(t) == a * p + b;
      assert DigitsValue(s) == 10 * DigitsValue(t) + d;
      assert DigitsValue(u) == 10 * b + d;
      assert Pow10(|s| - 1) == 10 * p;
      ShiftDigit(a, p, b, d);
    } else {
      assert s[1..] == [];
      assert s[..0] == [];
    }
  }

  lemma ShiftDigit(a: int, p: int, b: int, d: int)
    ensures 10 * (a * p + b) + d == a * (10 * p) + (10 * b + d)
  {
    assert 10 * (a * p) == a * (10 * p);
  }

  lemma {:induction false} LeadingZerosValue(k: nat, s: string)
    requires AllDigits(s)
    ensures AllDigits(Repeat('0', k) + s)
    ensures DigitsValue(Repeat('0', k) + s) == DigitsValue(s)
  {
    var z := Repeat('0', k) + s;
    assert AllDigits(z);
    if k > 0 {
      LeadingZerosValue(k - 1, s);
      DigitsValueFront(z);
      assert Repeat('0', k) == ['0'] + Repeat('0', k - 1);
      assert z[1..] == Repeat('0', k - 1) + s;
      assert DigitValue(z[0]) == 0;
      assert DigitsValue(z) == 0 * Pow10(|z| - 1) + DigitsValue(z[1..]);
      assert DigitsValue(z) == DigitsValue(z[1..]);
    } else {
      assert z == s;
    }
  }

  // ---------------------------------------------------------------------
  // Python's ordering of `str` values: lexicographic on code points

  predicate LexLess(a: string, b: string)
    decreases |a|
  {
    |b| > 0 && (|a| == 0 || a[0] < b[0] || (a[0] == b[0] && LexLess(a[1..], b[1..])))
  }

  lemma {:induction false} LexLessIrreflexive(a: string)
    ensures !LexLess(a, a)
    decreases |a|
  {
    if |a| > 0 {
      LexLessIrreflexive(a[1..]);
    }
  }

  lemma {:induction false} LexLessTransitive(a: string, b: string, c: string)
    requires LexLess(a, b) && LexLess(b, c)
    ensures LexLess(a, c)
    decreases |a|
  {
    if |a| > 0 && a[0] == b[0] && b[0] == c[0] {
      LexLessTransitive(a[1..], b[1..], c[1..]);
    }
  }

  lemma {:induction false} LexLessTotal(a: string, b: string)
    ensures a == b || LexLess(a, b) || LexLess(b, a)
    decreases |a|
  {
    if |a| > 0 && |b| > 0 && a[0] == b[0] {
      LexLessTotal(a[1..], b[1..]);
      if a[1..] == b[1..] {
        assert a == [a[0]] + a[1..] && b == [b[0]] + b[1..];
      }
    }
  }

  lemma LexLessAsymmetric(a: string, b: string)
    ensures !(LexLess(a, b) && LexLess(b, a))
  {
    if LexLess(a, b) && LexLess(b, a) {
      LexLessTransitive(a, b, a);
      LexLessIrreflexive(a);
    }
  }

  /** Two equally long digit strings compare as strings exactly as the
      numbers they denote compare. */
  lemma {:induction false} DigitOrderIsNumericOrder(a: string, b: string)
    requires |a| == |b| && AllDigits(a) && AllDigits(b)
    ensures LexLess(a, b) <==> DigitsValue(a) < DigitsValue(b)
    decreases |a|
  {
    if |a| > 0 {
      DigitsValueFront(a);
      DigitsValueFront(b);
      DigitsValueBound(a[1..]);
      DigitsValueBound(b[1..]);
      var p := Pow10(|a| - 1);
      if a[0] == b[0] {
        DigitOrderIsNumericOrder(a[1..], b[1..]);
      } else if a[0] < b[0] {
        FirstDigitDecides(DigitValue(a[0]), DigitValue(b[0]), p, DigitsValue(a[1..]), DigitsValue(b[1..]));
      } else {
        FirstDigitDecides(DigitValue(b[0]), DigitValue(a[0]), p, DigitsValue(b[1..]), DigitsValue(a[1..]));
      }
    }
  }

  lemma FirstDigitDecides(da: nat, db: nat, p: nat, ra: nat, rb: nat)
    requires da < db && ra < p
    ensures da * p + ra < db * p + rb
  {
    var k := db - da - 1;
    assert db == da + k + 1;
    assert db * p == da * p + k * p + p;
    assert k * p >= 0;
  }

  /** A difference inside two equally long prefixes decides the order of
      the whole strings, whatever follows. */
  lemma {:induction false} LexLessExtend(a: string, b: string, x: string, y: string)
    requires |a| == |b| && LexLess(a, b)
    ensures LexLess(a + x, b + y)
    decreases |a|
  {
    if a[0] == b[0] {
      LexLessExtend(a[1..], b[1..], x, y);
      assert (a + x)[1..] == a[1..] + x;
      assert (b + y)[1..] == b[1..] + y;
    }
  }
}
