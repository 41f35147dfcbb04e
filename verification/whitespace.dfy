/** Python's whitespace handling as the scripts use it: `str.strip()`, the
    regular-expression class `\s`, and the `normalize` helper that both
    `text_aggregate.py` and `llm_translate_mapping.py` define identically
    (`re.sub(r"\s+", " ", s.strip())`). */
module Whitespace {
  import opened Strings

  /** The characters Python's `str.isspace()` accepts; `\s` and
      `str.strip()` with no argument use the same set on `str` values. */
  predicate IsSpace(c: char) {
    || c == ' '
    || ('\t' <= c <= '\r')
    || ('\U{1C}' <= c <= '\U{1F}')
    || c == '\U{85}' || c == '\U{A0}' || c == '\U{1680}'
    || ('\U{2000}' <= c <= '\U{200A}')
    || c == '\U{2028}' || c == '\U{2029}' || c == '\U{202F}'
    || c == '\U{205F}' || c == '\U{3000}'
  }

  predicate AllSpace(s: string) {
    forall i :: 0 <= i < |s| ==> IsSpace(s[i])
  }

  predicate NoSpace(s: string) {
    forall i :: 0 <= i < |s| ==> !IsSpace(s[i])
  }

  /** Number of whitespace characters that open `s`. */
  function LeadingSpaces(s: string): (n: nat)
    ensures n <= |s|
    ensures forall i :: 0 <= i < n ==> IsSpace(s[i])
    ensures n < |s| ==> !IsSpace(s[n])
  {
    if |s| > 0 && IsSpace(s[0]) then 1 + LeadingSpaces(s[1..]) else 0
  }

  /** Number of whitespace characters that close `s`. */
  function TrailingSpaces(s: string): (n: nat)
    ensures n <= |s|
    ensures forall i :: |s| - n <= i < |s| ==> IsSpace(s[i])
    ensures n < |s| ==> !IsSpace(s[|s| - n - 1])
  {
    if |s| > 0 && IsSpace(s[|s| - 1]) then 1 + TrailingSpaces(s[..|s| - 1]) else 0
  }

  /** `s.lstrip()`. */
  function LStrip(s: string): (r: string)
    ensures r == [] || !IsSpace(r[0])
  {
    s[LeadingSpaces(s)..]
  }

  /** `s.rstrip()`. */
  function RStrip(s: string): (r: string)
    ensures r == [] || !IsSpace(r[|r| - 1])
  {
    s[..|s| - TrailingSpaces(s)]
  }

  /** `s.strip()`. */
  function Strip(s: string): (r: string)
    ensures r == [] || (!IsSpace(r[0]) && !IsSpace(r[|r| - 1]))
    ensures r == [] <==> AllSpace(s)
    ensures |r| <= |s|
  {
    var t := LStrip(s);
    var r := RStrip(t);
    assert s == s[..LeadingSpaces(s)] + t;
    assert t == r + t[|r|..];
    r
  }

  /** Every whitespace character is a plain space and no two are adjacent. */
  predicate SingleSpaced(r: string) {
    && (forall i :: 0 <= i < |r| && IsSpace(r[i]) ==> r[i] == ' ')
    && (forall i, j :: 0 <= i < |r| && 0 <= j < |r| && j == i + 1 ==> !(IsSpace(r[i]) && IsSpace(r[j])))
  }

  /** What `normalize` promises of its output. */
  predicate IsNormal(r: string) {
    SingleSpaced(r) && (r == [] || (!IsSpace(r[0]) && !IsSpace(r[|r| - 1])))
  }

  /** `strip()` leaves a text that neither starts nor ends with whitespace
      as it is. */
  lemma StripOfTrimmed(s: string)
    requires s == [] || (!IsSpace(s[0]) && !IsSpace(s[|s| - 1]))
    ensures Strip(s) == s
  {
    if |s| > 0 {
      var n := LeadingSpaces(s);
      assert n == 0;
      var t := LStrip(s);
      assert t == s;
      var m := TrailingSpaces(t);
      assert m == 0;
      assert t[..|t|] == t;
    }
  }

  /** `strip()` removes exactly the whitespace around a text that has
      none at either end: what lies between is kept as it is. */
  lemma StripOfPadded(a: string, t: string, b: string)
    requires AllSpace(a) && AllSpace(b)
    requires t == [] || (!IsSpace(t[0]) && !IsSpace(t[|t| - 1]))
    ensures Strip(a + t + b) == t
  {
    var s := a + t + b;
    if t == [] {
      assert AllSpace(s) by {
        assert s == a + b;
        forall i | 0 <= i < |s| ensures IsSpace(s[i]) {
          if i < |a| { assert s[i] == a[i]; } else { assert s[i] == b[i - |a|]; }
        }
      }
    } else {
      var n := LeadingSpaces(s);
      assert s[|a|] == t[0];
      assert n == |a|;
      var u := LStrip(s);
      assert u == t + b;
      var m := TrailingSpaces(u);
      assert u[|t| - 1] == t[|t| - 1];
      assert m == |b|;
      assert RStrip(u) == t;
    }
  }

  /** `re.sub(r"\s+", " ", s)`: every maximal whitespace run becomes one space. */
  function Collapse(s: string): (r: string)
    ensures SingleSpaced(r)
    ensures |r| == 0 <==> |s| == 0
    ensures |s| > 0 ==> (IsSpace(r[0]) <==> IsSpace(s[0]))
    ensures |s| > 0 ==> (IsSpace(r[|r| - 1]) <==> IsSpace(s[|s| - 1]))
    decreases |s|
  {
    if |s| == 0 then []
    else if IsSpace(s[0]) then
      var t := LStrip(s);
      assert s[..|s|] == s;
      " " + Collapse(t)
    else [s[0]] + Collapse(s[1..])
  }

  /** `normalize(s)` of both scripts. */
  function Normalize(s: string): (r: string)
    ensures IsNormal(r)
    ensures r == [] <==> AllSpace(s)
  {
    Collapse(Strip(s))
  }

  // ---------------------------------------------------------------------
  // The reference definition: the words of a string, joined by one space

  /** Length of the run of non-whitespace characters that starts `s`. */
  function WordLength(s: string): (n: nat)
    ensures n <= |s|
    ensures NoSpace(s[..n])
    ensures n < |s| ==> IsSpace(s[n])
  {
    if |s| > 0 && !IsSpace(s[0]) then
      var n := 1 + WordLength(s[1..]);
      assert s[..n] == [s[0]] + s[1..][..n - 1];
      n
    else 0
  }

  /** The whitespace-separated words of `s`, as Python's `s.split()` returns them. */
  function Words(s: string): (ws: seq<string>)
    ensures ws == [] <==> AllSpace(s)
    decreases |s|
  {
    var k := LeadingSpaces(s);
    var t := LStrip(s);
    assert t == s[k..];
    if |t| == 0 then
      []
    else
      var n := WordLength(t);
      assert !AllSpace(s) by {
        assert s[k] == t[0];
      }
      [t[..n]] + Words(t[n..])
  }

  /** Every word is non-empty and holds no whitespace. */
  lemma {:induction false} WordsShape(s: string)
    ensures forall i :: 0 <= i < |Words(s)| ==> |Words(s)[i]| > 0 && NoSpace(Words(s)[i])
    decreases |s|
  {
    var t := LStrip(s);
    if |t| > 0 {
      var n := WordLength(t);
      assert n > 0;
      var w, rest := t[..n], Words(t[n..]);
      WordsShape(t[n..]);
      var ws := Words(s);
      assert ws == [w] + rest;
      forall i | 0 <= i < |ws| ensures |ws[i]| > 0 && NoSpace(ws[i]) {
        if i > 0 {
          assert ws[i] == rest[i - 1];
        }
      }
    }
  }

  /** `" ".join(ws)`. */
  function JoinWords(ws: seq<string>): string {
    if |ws| == 0 then []
    else if |ws| == 1 then ws[0]
    else ws[0] + " " + JoinWords(ws[1..])
  }

  lemma LStripOfUnspaced(s: string)
    requires s == [] || !IsSpace(s[0])
    ensures LStrip(s) == s
  {
  }

  lemma WordsOfLStrip(s: string)
    ensures Words(LStrip(s)) == Words(s)
  {
    var t := LStrip(s);
    LStripOfUnspaced(t);
    assert LeadingSpaces(t) == 0;
    assert t[0..] == t;
  }

  lemma WordsOfSpaceThen(y: string)
    ensures Words(" " + y) == Words(y)
  {
    assert (" " + y)[1..] == y;
    assert LStrip(" " + y) == LStrip(y);
  }

  lemma {:induction false} WordLengthOfWordThen(w: string, y: string)
    requires NoSpace(w)
    requires y == [] || IsSpace(y[0])
    ensures WordLength(w + y) == |w|
    decreases |w|
  {
    if |w| > 0 {
      assert (w + y)[0] == w[0];
      assert (w + y)[1..] == w[1..] + y;
      WordLengthOfWordThen(w[1..], y);
    } else {
      assert w + y == y;
    }
  }

  /** A word followed by nothing or by whitespace is the first word. */
  lemma WordsOfWordThen(w: string, y: string)
    requires |w| > 0 && NoSpace(w)
    requires y == [] || IsSpace(y[0])
    ensures Words(w + y) == [w] + Words(y)
  {
    var s := w + y;
    assert s[0] == w[0];
    assert LeadingSpaces(s) == 0;
    assert LStrip(s) == s;
    WordLengthOfWordThen(w, y);
    assert s[..|w|] == w && s[|w|..] == y;
  }

  lemma {:induction false} CollapseOfWord(w: string, y: string)
    requires NoSpace(w)
    ensures Collapse(w + y) == w + Collapse(y)
    decreases |w|
  {
    if |w| > 0 {
      var tail := w[1..] + y;
      assert w + y == [w[0]] + tail;
      assert NoSpace(w[1..]) by {
        forall i | 0 <= i < |w[1..]| ensures !IsSpace(w[1..][i]) {
          assert w[1..][i] == w[i + 1];
        }
      }
      CollapseOfWord(w[1..], y);
      assert !IsSpace(w[0]);
      CollapseCons(w[0], tail);
      assert w == [w[0]] + w[1..];
      ConcatAssoc([w[0]], w[1..], Collapse(y));
    } else {
      assert w + y == y;
    }
  }

  lemma CollapseCons(x: char, t: string)
    requires !IsSpace(x)
    ensures Collapse([x] + t) == [x] + Collapse(t)
  {
    assert ([x] + t)[0] == x && ([x] + t)[1..] == t;
  }

  lemma {:induction false} WordsOfCollapse(x: string)
    ensures Words(Collapse(x)) == Words(x)
    decreases |x|
  {
    if |x| == 0 {
    } else if IsSpace(x[0]) {
      var t := LStrip(x);
      WordsOfSpaceThen(Collapse(t));
      WordsOfCollapse(t);
      WordsOfLStrip(x);
    } else {
      var n := WordLength(x);
      var w, y := x[..n], x[n..];
      assert x == w + y;
      CollapseOfWord(w, y);
      WordsOfWordThen(w, Collapse(y));
      WordsOfCollapse(y);
      WordsOfWordThen(w, y);
    }
  }

  lemma {:induction false} LStripOfAppend(x: string, y: string)
    requires !AllSpace(x)
    ensures LStrip(x + y) == LStrip(x) + y
    decreases |x|
  {
    assert |x| > 0;
    assert (x + y)[0] == x[0];
    if IsSpace(x[0]) {
      assert !AllSpace(x[1..]) by {
        var i :| 0 <= i < |x| && !IsSpace(x[i]);
        assert x[1..][i - 1] == x[i];
      }
      LStripOfAppend(x[1..], y);
      assert (x + y)[1..] == x[1..] + y;
      LStripStep(x + y);
      LStripStep(x);
    } else {
      LStripOfUnspaced(x);
      LStripOfUnspaced(x + y);
    }
  }

  /** A leading whitespace character is the first thing `lstrip` removes. */
  lemma LStripStep(s: string)
    requires |s| > 0 && IsSpace(s[0])
    ensures LStrip(s) == LStrip(s[1..])
  {
    var n := LeadingSpaces(s[1..]);
    assert LeadingSpaces(s) == 1 + n;
    assert s[1 + n..] == s[1..][n..];
  }

  lemma LStripNotAllSpace(x: string)
    requires !AllSpace(x)
    ensures |LStrip(x)| > 0
  {
    assert x[..|x|] == x;
  }

  lemma AllSpaceAppend(x: string, sp: string)
    requires AllSpace(x) && AllSpace(sp)
    ensures AllSpace(x + sp)
  {
    forall i | 0 <= i < |x + sp| ensures IsSpace((x + sp)[i]) {
      if i < |x| { assert (x + sp)[i] == x[i]; } else { assert (x + sp)[i] == sp[i - |x|]; }
    }
  }

  /** The first word of a string that does not open with whitespace, and what follows it. */
  lemma SplitFirstWord(t: string) returns (w: string, y: string)
    requires |t| > 0 && !IsSpace(t[0])
    ensures t == w + y && |w| > 0 && NoSpace(w) && (y == [] || IsSpace(y[0]))
    ensures |y| < |t|
    ensures Words(t) == [w] + Words(y)
  {
    var n := WordLength(t);
    w, y := t[..n], t[n..];
    assert t == w + y;
    WordsOfWordThen(w, y);
  }

  lemma {:induction false} WordsOfSpaceAfter(x: string, sp: string)
    requires AllSpace(sp)
    ensures Words(x + sp) == Words(x)
    decreases |x|
  {
    if AllSpace(x) {
      AllSpaceAppend(x, sp);
    } else {
      var t := LStrip(x);
      LStripOfAppend(x, sp);
      WordsOfLStrip(x + sp);
      WordsOfLStrip(x);
      LStripNotAllSpace(x);
      var w, y := SplitFirstWord(t);
      ConcatAssoc(w, y, sp);
      WordsOfWordThen(w, y + sp);
      WordsOfSpaceAfter(y, sp);
    }
  }

  lemma WordsOfStrip(s: string)
    ensures Words(Strip(s)) == Words(s)
  {
    var t := LStrip(s);
    var r := RStrip(t);
    assert t == r + t[|r|..];
    WordsOfSpaceAfter(r, t[|r|..]);
    WordsOfLStrip(s);
  }

  /** In a normal string, whitespace after a word is a single space
      followed by a normal remainder. */
  lemma NormalAfterWord(r: string, w: string, y: string)
    requires IsNormal(r) && r == w + y && |w| > 0
    requires y != [] && IsSpace(y[0])
    ensures |y| >= 2 && y == " " + y[1..]
    ensures IsNormal(y[1..]) && !IsSpace(y[1])
  {
    var k := |w|;
    assert r[k] == y[0];
    assert y[|y| - 1] == r[|r| - 1];
    assert r[k + 1] == y[1];
    var rest := y[1..];
    forall i | 0 <= i < |rest| && IsSpace(rest[i]) ensures rest[i] == ' ' {
      assert rest[i] == r[k + 1 + i];
    }
    forall i, j | 0 <= i < |rest| && 0 <= j < |rest| && j == i + 1
      ensures !(IsSpace(rest[i]) && IsSpace(rest[j]))
    {
      assert rest[i] == r[k + 1 + i] && rest[j] == r[k + 1 + j];
    }
    assert rest[|rest| - 1] == r[|r| - 1];
  }

  lemma JoinWordsCons(w: string, ws: seq<string>)
    requires ws != []
    ensures JoinWords([w] + ws) == w + " " + JoinWords(ws)
  {
    assert ([w] + ws)[1..] == ws;
  }

  lemma {:induction false} JoinOfNormalWords(r: string)
    requires IsNormal(r)
    ensures JoinWords(Words(r)) == r
    decreases |r|
  {
    if |r| > 0 {
      var w, y := SplitFirstWord(r);
      if y == [] {
        assert Words(y) == [];
        assert r == w;
      } else {
        NormalAfterWord(r, w, y);
        var rest := y[1..];
        WordsOfSpaceThen(rest);
        JoinOfNormalWords(rest);
        assert !AllSpace(rest);
        JoinWordsCons(w, Words(rest));
        ConcatAssoc(w, " ", rest);
      }
    }
  }

  /** `normalize(s)` is `" ".join(s.split())`: the words of `s`, in order,
      separated by exactly one space. */
  lemma NormalizeIsJoinedWords(s: string)
    ensures Normalize(s) == JoinWords(Words(s))
  {
    var r := Normalize(s);
    JoinOfNormalWords(r);
    WordsOfCollapse(Strip(s));
    WordsOfStrip(s);
  }

  /** `normalize` leaves its own output unchanged. */
  lemma NormalizeIdempotent(s: string)
    ensures Normalize(Normalize(s)) == Normalize(s)
  {
    NormalizeIsJoinedWords(s);
    NormalizeIsJoinedWords(Normalize(s));
    WordsOfCollapse(Strip(s));
    WordsOfStrip(s);
    WordsOfCollapse(Strip(Normalize(s)));
    WordsOfStrip(Normalize(s));
  }

  /** A normal string is its own normal form. */
  lemma NormalFixedPoint(r: string)
    requires IsNormal(r)
    ensures Normalize(r) == r
  {
    NormalizeIsJoinedWords(r);
    JoinOfNormalWords(r);
  }
}
