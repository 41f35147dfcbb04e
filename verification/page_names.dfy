/** The names `download_images` in `scripts/grab_webtoon.py` gives the
    pages it saves: the 1-based page number, zero-padded to at least three
    digits and to the width of the page count, followed by the extension
    guessed from the image URL. */
module PageNames {
  import opened Strings
  import opened NaverUrl

  /** `pad = max(3, len(str(total)))`. */
  function Width(total: nat): (w: nat)
    ensures w >= 3 && w >= |NatToString(total)|
    ensures w == 3 || w == |NatToString(total)|
  {
    var d := |NatToString(total)|;
    if d > 3 then d else 3
  }

  /** `f"{n:0{w}d}"`: the decimal digits of `n`, with zeros in front up to
      width `w`. */
  function ZeroPad(n: nat, w: nat): (s: string)
    ensures |s| == if |NatToString(n)| < w then w else |NatToString(n)|
    ensures AllDigits(s)
  {
    var d := NatToString(n);
    if |d| < w then
      LeadingZerosValue(w - |d|, d);
      Repeat('0', w - |d|) + d
    else d
  }

  /** The padded digits read back as the number that was padded. */
  lemma ZeroPadValue(n: nat, w: nat)
    ensures DigitsValue(ZeroPad(n, w)) == n
  {
    var d := NatToString(n);
    NatToStringValue(n);
    if |d| < w {
      LeadingZerosValue(w - |d|, d);
      assert ZeroPad(n, w) == Repeat('0', w - |d|) + d;
    } else {
      assert ZeroPad(n, w) == d;
    }
  }

  /** `f"{idx:0{pad}d}{ext}"`. For a page number up to the total the name
      is exactly `pad` digits that read back as the page number, then the
      extension. */
  function FileName(idx: nat, total: nat, ext: string): (name: string)
    ensures idx <= total ==>
      var w := Width(total);
      && |name| == w + |ext|
      && AllDigits(name[..w]) && DigitsValue(name[..w]) == idx
      && name[w..] == ext
  {
    PaddedNameShape(idx, total, ext);
    ZeroPad(idx, Width(total)) + ext
  }

  lemma PaddedNameShape(idx: nat, total: nat, ext: string)
    ensures idx <= total ==>
      var w := Width(total);
      var name := ZeroPad(idx, w) + ext;
      && |name| == w + |ext|
      && AllDigits(name[..w]) && DigitsValue(name[..w]) == idx
      && name[w..] == ext
  {
    if idx <= total {
      var d := ZeroPad(idx, Width(total));
      PageNumberWidth(idx, total);
      ZeroPadValue(idx, Width(total));
      assert (d + ext)[..|d|] == d && (d + ext)[|d|..] == ext;
    }
  }

  /** No page number up to the page count needs more than the width. */
  lemma PageNumberWidth(idx: nat, total: nat)
    requires idx <= total
    ensures |ZeroPad(idx, Width(total))| == Width(total)
  {
    NatToStringMonotone(idx, total);
  }

  /** Names of earlier pages sort before names of later pages, whatever
      their extensions: the point of the zero padding. */
  lemma FileNamesInPageOrder(i: nat, j: nat, total: nat, e1: string, e2: string)
    requires i < j <= total
    ensures LexLess(FileName(i, total, e1), FileName(j, total, e2))
  {
    NamesInPageOrder(i, j, total, e1, e2, FileName(i, total, e1), FileName(j, total, e2));
  }

  lemma NamesInPageOrder(i: nat, j: nat, total: nat, e1: string, e2: string, n1: string, n2: string)
    requires i < j <= total
    requires n1 == FileName(i, total, e1) && n2 == FileName(j, total, e2)
    ensures LexLess(n1, n2)
  {
    var a, b := ZeroPad(i, Width(total)), ZeroPad(j, Width(total));
    PageNumberWidth(i, total);
    PageNumberWidth(j, total);
    ZeroPadValue(i, Width(total));
    ZeroPadValue(j, Width(total));
    DigitOrderIsNumericOrder(a, b);
    LexLessExtend(a, b, e1, e2);
  }

  /** Guessing the extension from a saved name gives back the extension it
      was saved with. */
  lemma InferExtOfFileName(idx: nat, total: nat, ext: string, fallback: string)
    requires ext in Exts
    ensures InferExt(FileName(idx, total, ext), fallback) == ext
  {
    var name := FileName(idx, total, ext);
    var digits := ZeroPad(idx, Width(total));
    assert Lower(name) == name by {
      forall i | 0 <= i < |name| ensures Lower(name)[i] == name[i] {
        if i < |digits| { assert IsDigit(digits[i]); } else { assert name[i] == ext[i - |digits|]; }
      }
    }
    assert EndsWith(Lower(name), ext) by { assert name[|name| - |ext|..] == ext; }
    var r := InferExt(name, fallback);
    InferExtSpec(name, fallback);
    var k :| 0 <= k < |Exts| && Exts[k] == ext;
    var m :| 0 <= m < |Exts| && Exts[m] == r;
    if k < m { ExtsExclusive(name, k, m); }
    if m < k { ExtsExclusive(name, m, k); }
  }

  /** The names of all pages, in page order, for the URL paths of the
      pages. */
  function PageFileNames(paths: seq<string>): (names: seq<string>)
    ensures |names| == |paths|
    ensures forall k :: 0 <= k < |paths| ==> names[k] == FileName(k + 1, |paths|, InferExt(paths[k], ".jpg"))
    ensures forall i, j :: 0 <= i < j < |names| ==> LexLess(names[i], names[j])
  {
    var exts := seq(|paths|, k requires 0 <= k < |paths| => InferExt(paths[k], ".jpg"));
    var names := seq(|paths|, k requires 0 <= k < |paths| => FileName(k + 1, |paths|, exts[k]));
    PageNamesOrdered(exts, names);
    names
  }

  /** Names numbered in order sort in order, whatever their extensions. */
  lemma PageNamesOrdered(exts: seq<string>, names: seq<string>)
    requires |names| == |exts|
    requires forall k :: 0 <= k < |exts| ==> names[k] == FileName(k + 1, |exts|, exts[k])
    ensures forall i, j :: 0 <= i < j < |names| ==> LexLess(names[i], names[j])
  {
    forall i, j | 0 <= i < j < |names| ensures LexLess(names[i], names[j]) {
      NamesInPageOrder(i + 1, j + 1, |exts|, exts[i], exts[j], names[i], names[j]);
    }
  }
}
