/** `slugify` and the tail of `parse_chapter_label` in
    `scripts/grab_webtoon.py`: how an episode title becomes the slug at the
    end of a chapter label, and how the label is put together. */
module Slug {
  import opened Strings
  import opened Whitespace

  /** The class `[\s_]`. */
  predicate IsSep(c: char) {
    IsSpace(c) || c == '_'
  }

  /** The class `[A-Za-z0-9\-]`. */
  predicate IsSlugChar(c: char) {
    IsAsciiAlnum(c) || c == '-'
  }

  predicate AllSlugChars(s: string) {
    forall i :: 0 <= i < |s| ==> IsSlugChar(s[i])
  }

  /** No two dashes side by side. */
  predicate NoDoubleDash(s: string) {
    forall i, j :: 0 <= i < |s| && 0 <= j < |s| && j == i + 1 ==> !(s[i] == '-' && s[j] == '-')
  }

  /** The ASCII letters and digits of `s`, in order. */
  function Alnums(s: string): (r: string)
    ensures |r| <= |s|
    decreases |s|
  {
    if |s| == 0 then [] else (if IsAsciiAlnum(s[0]) then [s[0]] else []) + Alnums(s[1..])
  }

  lemma {:induction false} AlnumsAppend(a: string, b: string)
    ensures Alnums(a + b) == Alnums(a) + Alnums(b)
    decreases |a|
  {
    if |a| == 0 {
      assert a + b == b;
    } else {
      assert (a + b)[1..] == a[1..] + b;
      AlnumsAppend(a[1..], b);
      ConcatAssoc(if IsAsciiAlnum(a[0]) then [a[0]] else [], Alnums(a[1..]), Alnums(b));
    }
  }

  lemma {:induction false} AlnumsNone(s: string)
    requires forall i :: 0 <= i < |s| ==> !IsAsciiAlnum(s[i])
    ensures Alnums(s) == []
    decreases |s|
  {
    if |s| > 0 {
      AlnumsNone(s[1..]);
    }
  }

  /** Removing a leading run without letters or digits keeps the letters
      and digits. */
  lemma AlnumsAfter(s: string, n: nat)
    requires n <= |s|
    requires forall i :: 0 <= i < n ==> !IsAsciiAlnum(s[i])
    ensures Alnums(s[n..]) == Alnums(s)
  {
    assert s == s[..n] + s[n..];
    AlnumsAppend(s[..n], s[n..]);
    AlnumsNone(s[..n]);
  }

  /** Removing a trailing run without letters or digits keeps them too. */
  lemma AlnumsBefore(s: string, n: nat)
    requires n <= |s|
    requires forall i :: n <= i < |s| ==> !IsAsciiAlnum(s[i])
    ensures Alnums(s[..n]) == Alnums(s)
  {
    assert s == s[..n] + s[n..];
    AlnumsAppend(s[..n], s[n..]);
    AlnumsNone(s[n..]);
  }

  // ---------------------------------------------------------------------
  // The stages of slugify

  function LeadingSeps(s: string): (n: nat)
    ensures n <= |s|
    ensures forall i :: 0 <= i < n ==> IsSep(s[i])
    ensures n < |s| ==> !IsSep(s[n])
    decreases |s|
  {
    if |s| > 0 && IsSep(s[0]) then 1 + LeadingSeps(s[1..]) else 0
  }

  function LeadingDashes(s: string): (n: nat)
    ensures n <= |s|
    ensures forall i :: 0 <= i < n ==> s[i] == '-'
    ensures n < |s| ==> s[n] != '-'
    decreases |s|
  {
    if |s| > 0 && s[0] == '-' then 1 + LeadingDashes(s[1..]) else 0
  }

  /** `re.sub(r"[\s_]+", "-", s)`. */
  function DashSeps(s: string): (r: string)
    ensures forall i :: 0 <= i < |r| ==> !IsSep(r[i])
    ensures Alnums(r) == Alnums(s)
    decreases |s|
  {
    if |s| == 0 then []
    else if IsSep(s[0]) then
      var n := LeadingSeps(s);
      AlnumsAfter(s, n);
      "-" + DashSeps(s[n..])
    else
      [s[0]] + DashSeps(s[1..])
  }

  /** Separators are counted from the front exactly. */
  lemma {:induction false} LeadingSepsOf(sep: string, b: string)
    requires forall i :: 0 <= i < |sep| ==> IsSep(sep[i])
    requires b == [] || !IsSep(b[0])
    ensures LeadingSeps(sep + b) == |sep|
    ensures (sep + b)[|sep|..] == b
    decreases |sep|
  {
    if |sep| > 0 {
      assert (sep + b)[0] == sep[0];
      assert (sep + b)[1..] == sep[1..] + b;
      LeadingSepsOf(sep[1..], b);
    }
  }

  lemma {:induction false} LeadingDashesOf(d: string, b: string)
    requires forall i :: 0 <= i < |d| ==> d[i] == '-'
    requires b == [] || b[0] != '-'
    ensures LeadingDashes(d + b) == |d|
    ensures (d + b)[|d|..] == b
    decreases |d|
  {
    if |d| > 0 {
      assert (d + b)[0] == d[0];
      assert (d + b)[1..] == d[1..] + b;
      LeadingDashesOf(d[1..], b);
    }
  }

  /** A run of separators between a separator-free text and the rest
      becomes one dash. */
  lemma DashSepsJoin(a: string, sep: string, b: string)
    requires forall i :: 0 <= i < |a| ==> !IsSep(a[i])
    requires |sep| > 0 && forall i :: 0 <= i < |sep| ==> IsSep(sep[i])
    requires b == [] || !IsSep(b[0])
    ensures DashSeps(a + sep + b) == a + "-" + DashSeps(b)
  {
    ConcatAssoc(a, sep, b);
    DashSepsPrefix(a, sep + b);
    DashSepsOfRun(sep, b);
    ConcatAssoc(a, "-", DashSeps(b));
  }

  /** Separator-free text in front passes through unchanged. */
  lemma {:induction false} DashSepsPrefix(a: string, t: string)
    requires forall i :: 0 <= i < |a| ==> !IsSep(a[i])
    ensures DashSeps(a + t) == a + DashSeps(t)
    decreases |a|
  {
    if |a| > 0 {
      var tail := a[1..] + t;
      assert a + t == [a[0]] + tail;
      DashSepsCons(a[0], tail);
      DashSepsPrefix(a[1..], t);
      ConcatAssoc([a[0]], a[1..], DashSeps(t));
      assert a == [a[0]] + a[1..];
    } else {
      assert a + t == t;
    }
  }

  lemma DashSepsOfRun(sep: string, b: string)
    requires |sep| > 0 && forall i :: 0 <= i < |sep| ==> IsSep(sep[i])
    requires b == [] || !IsSep(b[0])
    ensures DashSeps(sep + b) == "-" + DashSeps(b)
  {
    LeadingSepsOf(sep, b);
    assert (sep + b)[0] == sep[0];
  }

  lemma DashSepsCons(x: char, t: string)
    requires !IsSep(x)
    ensures DashSeps([x] + t) == [x] + DashSeps(t)
  {
    assert ([x] + t)[0] == x && ([x] + t)[1..] == t;
  }

  /** `re.sub(r"[^A-Za-z0-9\-]+", "", s)`. */
  function KeepSlugChars(s: string): (r: string)
    ensures AllSlugChars(r)
    ensures Alnums(r) == Alnums(s)
    ensures (forall i :: 0 <= i < |s| ==> !IsSlugChar(s[i])) ==> r == []
    decreases |s|
  {
    if |s| == 0 then []
    else
      var h := if IsSlugChar(s[0]) then [s[0]] else [];
      AlnumsAppend(h, KeepSlugChars(s[1..]));
      assert s == [s[0]] + s[1..];
      h + KeepSlugChars(s[1..])
  }

  /** The filter works character by character: the kept characters of
      `a + b` are those of `a` followed by those of `b`. */
  lemma {:induction false} KeepSlugCharsAppend(a: string, b: string)
    ensures KeepSlugChars(a + b) == KeepSlugChars(a) + KeepSlugChars(b)
    decreases |a|
  {
    if |a| == 0 {
      assert a + b == b;
    } else {
      assert (a + b)[0] == a[0] && (a + b)[1..] == a[1..] + b;
      KeepSlugCharsAppend(a[1..], b);
      ConcatAssoc(if IsSlugChar(a[0]) then [a[0]] else [], KeepSlugChars(a[1..]), KeepSlugChars(b));
    }
  }

  /** `re.sub(r"-+", "-", s)`. */
  function CollapseDashes(s: string): (r: string)
    ensures NoDoubleDash(r)
    ensures AllSlugChars(s) ==> AllSlugChars(r)
    ensures Alnums(r) == Alnums(s)
    ensures |r| == 0 <==> |s| == 0
    ensures |s| > 0 ==> (r[0] == '-' <==> s[0] == '-')
    decreases |s|
  {
    if |s| == 0 then []
    else if s[0] == '-' then
      var n := LeadingDashes(s);
      AlnumsAfter(s, n);
      "-" + CollapseDashes(s[n..])
    else
      [s[0]] + CollapseDashes(s[1..])
  }

  /** A run of dashes between a dash-free text and the rest becomes one
      dash. */
  lemma CollapseDashesJoin(a: string, d: string, b: string)
    requires forall i :: 0 <= i < |a| ==> a[i] != '-'
    requires |d| > 0 && forall i :: 0 <= i < |d| ==> d[i] == '-'
    requires b == [] || b[0] != '-'
    ensures CollapseDashes(a + d + b) == a + "-" + CollapseDashes(b)
    decreases |a|
  {
    ConcatAssoc(a, d, b);
    CollapseDashesPrefix(a, d + b);
    CollapseDashesOfRun(d, b);
    ConcatAssoc(a, "-", CollapseDashes(b));
  }

  /** Dash-free text in front passes through unchanged. */
  lemma {:induction false} CollapseDashesPrefix(a: string, t: string)
    requires forall i :: 0 <= i < |a| ==> a[i] != '-'
    ensures CollapseDashes(a + t) == a + CollapseDashes(t)
    decreases |a|
  {
    if |a| > 0 {
      var tail := a[1..] + t;
      assert a + t == [a[0]] + tail;
      CollapseDashesCons(a[0], tail);
      CollapseDashesPrefix(a[1..], t);
      ConcatAssoc([a[0]], a[1..], CollapseDashes(t));
      assert a == [a[0]] + a[1..];
    } else {
      assert a + t == t;
    }
  }

  lemma CollapseDashesOfRun(d: string, b: string)
    requires |d| > 0 && forall i :: 0 <= i < |d| ==> d[i] == '-'
    requires b == [] || b[0] != '-'
    ensures CollapseDashes(d + b) == "-" + CollapseDashes(b)
  {
    LeadingDashesOf(d, b);
    assert (d + b)[0] == d[0];
  }

  lemma CollapseDashesCons(x: char, t: string)
    requires x != '-'
    ensures CollapseDashes([x] + t) == [x] + CollapseDashes(t)
  {
    assert ([x] + t)[0] == x && ([x] + t)[1..] == t;
  }

  /** `s.strip("-")`. */
  function TrimDashes(s: string): (r: string)
    ensures LeadingDashes(s) + |r| <= |s| && r == s[LeadingDashes(s)..LeadingDashes(s) + |r|]
    ensures forall i :: LeadingDashes(s) + |r| <= i < |s| ==> s[i] == '-'
    ensures r == [] || (r[0] != '-' && r[|r| - 1] != '-')
    ensures AllSlugChars(s) ==> AllSlugChars(r)
    ensures NoDoubleDash(s) ==> NoDoubleDash(r)
    ensures Alnums(r) == Alnums(s)
  {
    var a := LeadingDashes(s);
    var t := s[a..];
    var r := TrimEnd(t, '-');
    TrimDashesAlnums(s, a, t, r);
    SliceKeepsShape(s, a, a + |r|);
    TrimDashesSlice(s, a, t, r);
    r
  }

  lemma TrimDashesSlice(s: string, a: nat, t: string, r: string)
    requires a <= |s| && t == s[a..] && |r| <= |t| && r == t[..|r|]
    requires forall i :: |r| <= i < |t| ==> t[i] == '-'
    ensures a + |r| <= |s| && r == s[a..a + |r|]
    ensures forall i :: a + |r| <= i < |s| ==> s[i] == '-'
  {
    forall i | a + |r| <= i < |s| ensures s[i] == '-' {
      assert s[i] == t[i - a];
    }
  }

  lemma TrimDashesAlnums(s: string, a: nat, t: string, r: string)
    requires a <= |s| && t == s[a..] && |r| <= |t| && r == t[..|r|]
    requires forall i :: 0 <= i < a ==> s[i] == '-'
    requires forall i :: |r| <= i < |t| ==> t[i] == '-'
    ensures Alnums(r) == Alnums(s)
  {
    AlnumsAfter(s, a);
    AlnumsBefore(t, |r|);
  }

  /** What `slugify` keeps before the cut to 80 characters. */
  function SlugCore(s: string): (t: string)
    ensures AllSlugChars(t) && NoDoubleDash(t)
    ensures t == [] || (t[0] != '-' && t[|t| - 1] != '-')
    ensures Alnums(t) == Alnums(s)
  {
    var a := Strip(s);
    StripKeepsAlnums(s);
    var b := DashSeps(a);
    var c := KeepSlugChars(b);
    var d := CollapseDashes(c);
    assert AllSlugChars(d) && NoDoubleDash(d);
    TrimDashes(d)
  }

  const SlugLimit: nat := 80

  /** `t[:80]`. */
  function Cut(t: string): (r: string)
    ensures |r| <= SlugLimit && |r| <= |t| && r == t[..|r|]
    ensures |t| <= SlugLimit ==> r == t
    ensures |t| > SlugLimit ==> |r| == SlugLimit
    ensures |Alnums(r)| <= |Alnums(t)| && Alnums(r) == Alnums(t)[..|Alnums(r)|]
  {
    if |t| <= SlugLimit then t
    else
      var r := t[..SlugLimit];
      assert t == r + t[SlugLimit..];
      AlnumsAppend(r, t[SlugLimit..]);
      r
  }

  /** `slugify(s)`: letters, digits and single dashes, no dash in front,
      at most 80 characters; a dash can end it only when the cut to 80
      characters fell right after one. Its letters and digits are the
      first ones of `s`, and all of them unless the cut removed some. */
  function Slugify(s: string): (r: string)
    ensures AllSlugChars(r) && NoDoubleDash(r)
    ensures r == [] || r[0] != '-'
    ensures |r| <= SlugLimit
    ensures r != [] && r[|r| - 1] == '-' ==> |r| == SlugLimit
    ensures |Alnums(r)| <= |Alnums(s)| && Alnums(r) == Alnums(s)[..|Alnums(r)|]
    ensures |r| < SlugLimit ==> Alnums(r) == Alnums(s)
  {
    var t := SlugCore(s);
    var r := Cut(t);
    PrefixKeepsShape(t, |r|);
    r
  }

  lemma PrefixKeepsShape(t: string, n: nat)
    requires n <= |t| && AllSlugChars(t) && NoDoubleDash(t)
    ensures AllSlugChars(t[..n]) && NoDoubleDash(t[..n])
  {
    SliceKeepsShape(t, 0, n);
    assert t[..n] == t[0..n];
  }

  /** A piece of a string keeps its characters and its single dashes. */
  lemma SliceKeepsShape(t: string, i: nat, j: nat)
    requires i <= j <= |t|
    ensures AllSlugChars(t) ==> AllSlugChars(t[i..j])
    ensures NoDoubleDash(t) ==> NoDoubleDash(t[i..j])
  {
    var r := t[i..j];
    assert forall k :: 0 <= k < |r| ==> r[k] == t[i + k];
  }

  /** `strip()` removes only white space, never a letter or digit. */
  lemma StripKeepsAlnums(s: string)
    ensures Alnums(Strip(s)) == Alnums(s)
  {
    var a := LeadingSpaces(s);
    var t := LStrip(s);
    AlnumsAfter(s, a);
    var b := |t| - TrailingSpaces(t);
    AlnumsBefore(t, b);
  }

  // ---------------------------------------------------------------------
  // Slugify on its own output

  /** A string of letters, digits and single dashes with no dash in front. */
  predicate IsSlugShaped(t: string) {
    AllSlugChars(t) && NoDoubleDash(t) && (t == [] || t[0] != '-')
  }

  /** Text without whitespace or underscores is left as it is. */
  lemma {:induction false} DashSepsOfPlain(t: string)
    requires forall i :: 0 <= i < |t| ==> !IsSep(t[i])
    ensures DashSeps(t) == t
    decreases |t|
  {
    if |t| > 0 {
      DashSepsOfPlain(t[1..]);
      assert t == [t[0]] + t[1..];
    }
  }

  /** From the text with every run of separators replaced, the later
      stages of a slug whose dashes are single give back that text
      without a dash at its end. */
  lemma SlugCoreOfDashed(s: string, u: string)
    requires Strip(s) == s && DashSeps(s) == u && IsSlugShaped(u)
    ensures SlugCore(s) == TrimEnd(u, '-')
  {
    KeepSlugCharsOfSlug(u);
    CollapseDashesOfSlug(u);
    assert SlugCore(s) == TrimDashes(u);
    TrimDashesOfSlug(u);
  }

  lemma {:induction false} DashSepsOfSlug(t: string)
    requires AllSlugChars(t)
    ensures DashSeps(t) == t
    decreases |t|
  {
    if |t| > 0 {
      assert !IsSep(t[0]);
      DashSepsOfSlug(t[1..]);
      assert t == [t[0]] + t[1..];
    }
  }

  lemma {:induction false} KeepSlugCharsOfSlug(t: string)
    requires AllSlugChars(t)
    ensures KeepSlugChars(t) == t
    decreases |t|
  {
    if |t| > 0 {
      KeepSlugCharsOfSlug(t[1..]);
      assert t == [t[0]] + t[1..];
    }
  }

  lemma {:induction false} CollapseDashesOfSlug(t: string)
    requires NoDoubleDash(t)
    ensures CollapseDashes(t) == t
    decreases |t|
  {
    if |t| > 0 {
      assert NoDoubleDash(t[1..]) by {
        forall i, j | 0 <= i < |t| - 1 && 0 <= j < |t| - 1 && j == i + 1
          ensures !(t[1..][i] == '-' && t[1..][j] == '-')
        {
          assert t[1..][i] == t[i + 1] && t[1..][j] == t[j + 1];
        }
      }
      CollapseDashesOfSlug(t[1..]);
      assert t == [t[0]] + t[1..];
      if t[0] == '-' {
        assert |t| == 1 || t[1] != '-';
        assert LeadingDashes(t) == 1;
      }
    }
  }

  /** On a slug-shaped string every stage before the cut is the identity,
      except `strip("-")`, which takes off a dash at the end. */
  lemma SlugCoreOfSlug(t: string)
    requires IsSlugShaped(t)
    ensures SlugCore(t) == TrimEnd(t, '-')
  {
    if |t| > 0 {
      assert !IsSpace(t[0]) && !IsSpace(t[|t| - 1]);
    }
    StripOfTrimmed(t);
    DashSepsOfSlug(t);
    KeepSlugCharsOfSlug(t);
    CollapseDashesOfSlug(t);
    assert LeadingDashes(t) == 0;
    assert t[0..] == t;
  }

  /** Slugifying a slug-shaped string of at most 80 characters only drops a
      dash at its end: a slug is a fixed point exactly when it does not end
      with a dash. */
  lemma SlugifyOfSlug(t: string)
    requires IsSlugShaped(t) && |t| <= SlugLimit
    ensures Slugify(t) == TrimEnd(t, '-')
    ensures Slugify(t) == t <==> t == [] || t[|t| - 1] != '-'
  {
    var c := SlugCore(t);
    SlugCoreOfSlug(t);
    assert |c| <= SlugLimit;
    assert Slugify(t) == Cut(c) == c;
    TrimEndFixed(t, '-');
  }

  /** Two words of letters and digits separated by a run of whitespace or
      underscores slugify to the words joined by one dash, as long as the
      result fits in 80 characters. */
  lemma SlugifyOfWords(w: string, sep: string, v: string)
    requires |w| > 0 && forall i :: 0 <= i < |w| ==> IsAsciiAlnum(w[i])
    requires |v| > 0 && forall i :: 0 <= i < |v| ==> IsAsciiAlnum(v[i])
    requires |sep| > 0 && forall i :: 0 <= i < |sep| ==> IsSep(sep[i])
    requires |w| + |v| + 1 <= SlugLimit
    ensures Slugify(w + sep + v) == w + "-" + v
  {
    SlugCoreOfWords(w, sep, v);
    WordsEnd(w, v);
  }

  lemma SlugCoreOfWords(w: string, sep: string, v: string)
    requires |w| > 0 && forall i :: 0 <= i < |w| ==> IsAsciiAlnum(w[i])
    requires |v| > 0 && forall i :: 0 <= i < |v| ==> IsAsciiAlnum(v[i])
    requires |sep| > 0 && forall i :: 0 <= i < |sep| ==> IsSep(sep[i])
    ensures SlugCore(w + sep + v) == TrimEnd(w + "-" + v, '-')
  {
    var s := w + sep + v;
    var u := w + "-" + v;
    WordsAreStripped(w, sep, v);
    AlnumsArePlain(w);
    AlnumsArePlain(v);
    DashSepsJoin(w, sep, v);
    DashSepsOfPlain(v);
    assert DashSeps(s) == u;
    AlnumsDashShape(w, v);
    SlugCoreOfDashed(s, u);
  }

  lemma AlnumsArePlain(w: string)
    requires forall i :: 0 <= i < |w| ==> IsAsciiAlnum(w[i])
    ensures forall i :: 0 <= i < |w| ==> !IsSep(w[i])
  {
  }

  /** Two words of letters and digits joined by a run of dashes slugify to
      the words joined by one dash, as long as the result fits in 80
      characters. */
  lemma SlugifyOfDashedWords(w: string, d: string, v: string)
    requires |w| > 0 && forall i :: 0 <= i < |w| ==> IsAsciiAlnum(w[i])
    requires |v| > 0 && forall i :: 0 <= i < |v| ==> IsAsciiAlnum(v[i])
    requires |d| > 0 && forall i :: 0 <= i < |d| ==> d[i] == '-'
    requires |w| + |v| + 1 <= SlugLimit
    ensures Slugify(w + d + v) == w + "-" + v
  {
    var s := w + d + v;
    var u := w + "-" + v;
    WordsAreStripped(w, d, v);
    assert AllSlugChars(s);
    CollapseDashesJoin(w, d, v);
    CollapseDashesOfSlug(v);
    AlnumsDashShape(w, v);
    SlugCoreOfCollapsed(s, u);
    WordsEnd(w, v);
  }

  lemma WordsAreStripped(w: string, x: string, v: string)
    requires |w| > 0 && IsAsciiAlnum(w[0])
    requires |v| > 0 && IsAsciiAlnum(v[|v| - 1])
    ensures Strip(w + x + v) == w + x + v
  {
    var s := w + x + v;
    assert s[0] == w[0] && s[|s| - 1] == v[|v| - 1];
    StripOfTrimmed(s);
  }

  /** `w + "-" + v` is its own slug when it fits. */
  lemma WordsEnd(w: string, v: string)
    requires |v| > 0 && IsAsciiAlnum(v[|v| - 1])
    requires |w| + |v| + 1 <= SlugLimit
    ensures TrimEnd(w + "-" + v, '-') == w + "-" + v
    ensures Cut(w + "-" + v) == w + "-" + v
  {
    var u := w + "-" + v;
    assert u[|u| - 1] == v[|v| - 1];
    TrimEndFixed(u, '-');
  }

  /** From the text with every run of dashes collapsed, the last stage of a
      slug of letters, digits and single dashes gives back that text
      without a dash at its end. */
  lemma SlugCoreOfCollapsed(s: string, u: string)
    requires Strip(s) == s && AllSlugChars(s) && CollapseDashes(s) == u && IsSlugShaped(u)
    ensures SlugCore(s) == TrimEnd(u, '-')
  {
    DashSepsOfSlug(s);
    KeepSlugCharsOfSlug(s);
    assert SlugCore(s) == TrimDashes(u);
    TrimDashesOfSlug(u);
  }

  lemma TrimDashesOfSlug(u: string)
    requires u == [] || u[0] != '-'
    ensures TrimDashes(u) == TrimEnd(u, '-')
  {
    assert LeadingDashes(u) == 0;
    assert u[0..] == u;
  }

  /** `slugify(slugify(s))` is `slugify(s)` without its trailing dash, so
      `slugify` is idempotent exactly on the inputs whose slug does not end
      with a dash, and a third application changes nothing. */
  lemma SlugifyIdempotent(s: string)
    ensures Slugify(Slugify(s)) == TrimEnd(Slugify(s), '-')
    ensures Slugify(Slugify(s)) == Slugify(s) <==> Slugify(s) == [] || Slugify(s)[|Slugify(s)| - 1] != '-'
    ensures Slugify(Slugify(Slugify(s))) == Slugify(Slugify(s))
  {
    var r := Slugify(s);
    SlugifyOfSlug(r);
    var r2 := Slugify(r);
    SlugifyOfSlug(r2);
  }

  /** The cut to 80 characters can land right after a dash: 79 letters or
      digits, a dash and one more character slugify to the 79 characters
      and the dash, and a second `slugify` drops that dash. */
  lemma CutCanEndWithDash(w: string, c: char)
    requires |w| == SlugLimit - 1 && IsAsciiAlnum(c)
    requires forall i :: 0 <= i < |w| ==> IsAsciiAlnum(w[i])
    ensures Slugify(w + "-" + [c]) == w + "-"
    ensures Slugify(Slugify(w + "-" + [c])) == w
  {
    CutAfterDash(w, c);
    TrailingDashDropped(w);
  }

  lemma CutAfterDash(w: string, c: char)
    requires |w| == SlugLimit - 1 && IsAsciiAlnum(c)
    requires forall i :: 0 <= i < |w| ==> IsAsciiAlnum(w[i])
    ensures Slugify(w + "-" + [c]) == w + "-"
  {
    var t := w + "-" + [c];
    AlnumsDashShape(w, [c]);
    SlugCoreOfSlug(t);
    assert TrimEnd(t, '-') == t;
    assert Cut(t) == t[..SlugLimit];
    assert t[..SlugLimit] == w + "-";
  }

  lemma TrailingDashDropped(w: string)
    requires |w| == SlugLimit - 1
    requires forall i :: 0 <= i < |w| ==> IsAsciiAlnum(w[i])
    ensures Slugify(w + "-") == w
  {
    var d := w + "-";
    AlnumsDashShape(w, []);
    assert w + "-" + [] == d;
    SlugifyOfSlug(d);
    assert w[|w| - 1] != '-';
    TrimOneDash(w);
  }

  /** `rstrip("-")` of a string that ends in one dash drops just it. */
  lemma TrimOneDash(w: string)
    requires |w| > 0 && w[|w| - 1] != '-'
    ensures TrimEnd(w + "-", '-') == w
  {
    var d := w + "-";
    assert TrimEnd(d, '-') == TrimEnd(w, '-') by {
      assert d[|d| - 1] == '-' && d[..|d| - 1] == w;
    }
    TrimEndFixed(w, '-');
  }

  /** Letters and digits, one dash, then letters and digits: slug-shaped. */
  lemma AlnumsDashShape(w: string, v: string)
    requires |w| > 0
    requires forall i :: 0 <= i < |w| ==> IsAsciiAlnum(w[i])
    requires forall i :: 0 <= i < |v| ==> IsAsciiAlnum(v[i])
    ensures IsSlugShaped(w + "-" + v)
  {
    var t := w + "-" + v;
    assert forall i :: 0 <= i < |w| ==> t[i] == w[i];
    assert forall i :: |w| < i < |t| ==> t[i] == v[i - |w| - 1];
  }

  // ---------------------------------------------------------------------
  // Dropping a trailing "-<digits>" from the slug

  /** How many ASCII digits end `s`. */
  function TrailingDigits(s: string): (n: nat)
    ensures n <= |s|
    ensures forall i :: |s| - n <= i < |s| ==> IsDigit(s[i])
    ensures n < |s| ==> !IsDigit(s[|s| - n - 1])
    decreases |s|
  {
    if |s| > 0 && IsDigit(s[|s| - 1]) then 1 + TrailingDigits(s[..|s| - 1]) else 0
  }

  /** `re.search(r"-\d+$", s)` finds a match. */
  predicate HasNumberTail(s: string) {
    var n := TrailingDigits(s);
    0 < n < |s| && s[|s| - n - 1] == '-'
  }

  /** `re.sub(r"-\d+$", "", s)`: the dash and the digits after it go, when
      the string ends that way. */
  function DropNumberTail(s: string): (r: string)
    ensures |r| <= |s| && r == s[..|r|]
    ensures HasNumberTail(s) <==> |r| < |s|
    ensures |r| < |s| ==> s[|r|] == '-' && AllDigits(s[|r| + 1..]) && |r| + 1 < |s|
  {
    if HasNumberTail(s) then s[..|s| - TrailingDigits(s) - 1] else s
  }

  /** The pattern `-\d+$` matches at `k` exactly when `k` is where the
      number tail starts, so the match, when there is one, is unique. */
  lemma NumberTailMatch(s: string, k: nat)
    requires k < |s|
    ensures (s[k] == '-' && k + 1 < |s| && AllDigits(s[k + 1..]))
        <==> (HasNumberTail(s) && k == |s| - TrailingDigits(s) - 1)
  {
    if s[k] == '-' && k + 1 < |s| && AllDigits(s[k + 1..]) {
      NumberTailFound(s, k);
    }
    if HasNumberTail(s) && k == |s| - TrailingDigits(s) - 1 {
      NumberTailAt(s, k);
    }
  }

  lemma NumberTailFound(s: string, k: nat)
    requires k + 1 < |s| && s[k] == '-' && AllDigits(s[k + 1..])
    ensures HasNumberTail(s) && k == |s| - TrailingDigits(s) - 1
  {
    var n := TrailingDigits(s);
    assert forall j :: k < j < |s| ==> s[j] == s[k + 1..][j - k - 1];
    assert !IsDigit(s[k]);
    assert n <= |s| - k - 1;
    assert n >= |s| - k - 1;
  }

  lemma NumberTailAt(s: string, k: nat)
    requires HasNumberTail(s) && k == |s| - TrailingDigits(s) - 1
    ensures s[k] == '-' && k + 1 < |s| && AllDigits(s[k + 1..])
  {
    var t := s[k + 1..];
    assert forall j :: 0 <= j < |t| ==> t[j] == s[k + 1 + j];
  }

  /** Only one tail goes: a title ending in two numbers keeps the first. */
  lemma DropsOneNumberTail(w: string, d1: string, d2: string)
    requires |d1| > 0 && AllDigits(d1) && |d2| > 0 && AllDigits(d2)
    ensures DropNumberTail(w + "-" + d1 + "-" + d2) == w + "-" + d1
  {
    var u := w + "-" + d1;
    var s := u + "-" + d2;
    assert s[|u|] == '-' && s[|u| + 1..] == d2;
    NumberTailMatch(s, |u|);
    assert s[..|u|] == u;
  }

  /** Dropping the number tail of a non-empty slug leaves a non-empty slug,
      and one that does not end with a dash when something was dropped. */
  lemma DropNumberTailOfSlug(s: string)
    requires IsSlugShaped(s) && s != []
    ensures IsSlugShaped(DropNumberTail(s)) && DropNumberTail(s) != []
    ensures HasNumberTail(s) ==> DropNumberTail(s)[|DropNumberTail(s)| - 1] != '-'
  {
    var r := DropNumberTail(s);
    PrefixKeepsShape(s, |r|);
    if HasNumberTail(s) {
      assert s[|r|] == '-';
      assert |r| > 0;
      assert r[|r| - 1] == s[|r| - 1];
    }
  }

  // ---------------------------------------------------------------------
  // The chapter label

  /** The slug of `parse_chapter_label`, `""` standing for `None` (the
      label treats the two alike): the slugified base, without a number
      tail, when the base and its slug are non-empty. */
  function EpisodeSlug(slugBase: string): (slug: string)
    ensures IsSlugShaped(slug) && |slug| <= SlugLimit
    ensures slugBase == [] ==> slug == []
    ensures slug == [] <==> Slugify(slugBase) == []
    ensures StartsWith(Slugify(slugBase), slug)
    ensures slugBase != [] ==> slug == DropNumberTail(Slugify(slugBase))
  {
    if slugBase == [] then []
    else
      var t := Slugify(slugBase);
      if t == [] then []
      else
        DropNumberTailOfSlug(t);
        DropNumberTail(t)
  }

  /** `(ep_no_text or '') or no`: the number shown on the page wins over
      the `no` query value. */
  function ChapterNo(epNoText: string, no: string): (c: string)
    ensures epNoText != [] ==> c == epNoText
    ensures epNoText == [] ==> c == no
    ensures c == [] <==> epNoText == [] && no == []
  {
    if epNoText != [] then epNoText else no
  }

  /** The label `parse_chapter_label` returns: `naver_<titleId>_<chapter>`
      when either part is known, else the slug or `episode`, followed by
      `_<slug>` when there is a slug. */
  function ChapterLabel(titleId: string, no: string, epNoText: string, slugBase: string): (name: string)
    ensures name != []
    ensures EpisodeSlug(slugBase) != [] ==> EndsWith(name, "_" + EpisodeSlug(slugBase))
    ensures titleId != [] || ChapterNo(epNoText, no) != [] ==>
      StartsWith(name, "naver_" + titleId + "_" + ChapterNo(epNoText, no))
    ensures epNoText != [] ==> StartsWith(name, "naver_" + titleId + "_" + epNoText)
  {
    ComposeLabel(titleId, ChapterNo(epNoText, no), EpisodeSlug(slugBase))
  }

  /** The label from its three parts. */
  function ComposeLabel(titleId: string, chapter: string, slug: string): (name: string)
    ensures name != []
    ensures slug != [] ==> EndsWith(name, "_" + slug)
    ensures titleId != [] || chapter != [] ==> StartsWith(name, "naver_" + titleId + "_" + chapter)
    ensures titleId == [] && chapter == [] ==> StartsWith(name, if slug != [] then slug else "episode")
    ensures titleId == [] && chapter == [] ==> name == if slug != [] then slug + "_" + slug else "episode"
  {
    var head := if titleId != [] || chapter != [] then "naver_" + titleId + "_" + chapter
                else if slug != [] then slug else "episode";
    if slug != [] then
      var name := head + "_" + slug;
      assert name[|name| - |slug| - 1..] == "_" + slug;
      assert name[..|head|] == head;
      name
    else
      assert head[..|head|] == head;
      head
  }

  /** With a title id or a chapter number the label splits on `_` into
      `naver`, the id, the chapter and, when there is one, the slug, as
      long as neither id nor chapter holds an underscore. */
  lemma LabelFields(titleId: string, no: string, epNoText: string, slugBase: string)
    requires titleId != [] || ChapterNo(epNoText, no) != []
    requires '_' !in titleId && '_' !in ChapterNo(epNoText, no)
    ensures var slug := EpisodeSlug(slugBase);
      SplitOn(ChapterLabel(titleId, no, epNoText, slugBase), '_')
        == ["naver", titleId, ChapterNo(epNoText, no)] + (if slug != [] then [slug] else [])
  {
    var slug := EpisodeSlug(slugBase);
    SlugSeparators(slug);
    ComposedFields(titleId, ChapterNo(epNoText, no), slug);
  }

  /** A slug holds neither of the label's separators. */
  lemma SlugSeparators(slug: string)
    requires IsSlugShaped(slug)
    ensures '_' !in slug && '/' !in slug
  {
    assert forall i :: 0 <= i < |slug| ==> IsSlugChar(slug[i]);
  }

  lemma ComposedFields(titleId: string, chapter: string, slug: string)
    requires titleId != [] || chapter != []
    requires '_' !in titleId && '_' !in chapter && '_' !in slug
    ensures SplitOn(ComposeLabel(titleId, chapter, slug), '_')
        == ["naver", titleId, chapter] + (if slug != [] then [slug] else [])
  {
    var b := "naver" + ['_'] + titleId + ['_'] + chapter;
    LabelWithIds(titleId, chapter, slug, b);
    HeadFields(titleId, chapter);
    if slug != [] {
      SplitOnAppend(b, '_', slug);
    }
  }

  lemma HeadFields(titleId: string, chapter: string)
    requires '_' !in titleId && '_' !in chapter
    ensures SplitOn("naver" + ['_'] + titleId + ['_'] + chapter, '_') == ["naver", titleId, chapter]
  {
    NaverField(titleId);
    SplitOnAppend("naver" + ['_'] + titleId, '_', chapter);
  }

  lemma NaverField(titleId: string)
    requires '_' !in titleId
    ensures SplitOn("naver" + ['_'] + titleId, '_') == ["naver", titleId]
  {
    assert '_' !in "naver";
    SplitOnAppend("naver", '_', titleId);
  }

  lemma LabelWithIds(titleId: string, chapter: string, slug: string, b: string)
    requires titleId != [] || chapter != []
    requires b == "naver" + ['_'] + titleId + ['_'] + chapter
    ensures ComposeLabel(titleId, chapter, slug) == if slug != [] then b + ['_'] + slug else b
  {
    assert b == "naver_" + titleId + "_" + chapter;
  }

  /** Without title id and chapter number the label is `episode`, or the
      slug twice, joined by `_`. */
  lemma LabelWithoutIds(titleId: string, no: string, epNoText: string, slugBase: string)
    requires titleId == [] && epNoText == [] && no == []
    ensures var slug := EpisodeSlug(slugBase);
      ChapterLabel(titleId, no, epNoText, slugBase) == if slug == [] then "episode" else slug + "_" + slug
  {
  }

  /** The label holds a `/` only when the title id or the chapter does, so
      it is a single path component. */
  lemma LabelHasNoSlash(titleId: string, no: string, epNoText: string, slugBase: string)
    requires '/' !in titleId && '/' !in ChapterNo(epNoText, no)
    ensures '/' !in ChapterLabel(titleId, no, epNoText, slugBase)
  {
    var slug := EpisodeSlug(slugBase);
    SlugSeparators(slug);
    ComposedNoSlash(titleId, ChapterNo(epNoText, no), slug);
  }

  lemma ComposedNoSlash(titleId: string, chapter: string, slug: string)
    requires '/' !in titleId && '/' !in chapter && '/' !in slug
    ensures '/' !in ComposeLabel(titleId, chapter, slug)
  {
    var head := if titleId != [] || chapter != [] then "naver_" + titleId + "_" + chapter
                else if slug != [] then slug else "episode";
    assert '/' !in head;
    if slug != [] {
      assert ComposeLabel(titleId, chapter, slug) == head + "_" + slug;
    } else {
      assert ComposeLabel(titleId, chapter, slug) == head;
    }
  }
}
