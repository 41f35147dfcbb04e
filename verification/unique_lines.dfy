/** The counting, ordering and formatting part of `write_outputs` in
    `scripts/text_aggregate.py`: the normalized texts of all items are
    counted (a `Counter`), sorted by descending count and then ascending
    text, and written as `count TAB text` lines to `unique_lines.txt`. */
module UniqueLines {
  import opened Optional
  import opened Strings
  import opened Whitespace
  import opened Lines
  import opened DumpParser

  /** One `(text, count)` pair of the counter. */
  datatype Entry = Entry(text: string, count: nat)

  /** The key under which an item is counted and later looked up:
      `normalize(item.get("text", "") or "")`. */
  function ItemKey(it: Item): (k: string)
    ensures IsNormal(k)
  {
    Normalize(it.text.GetOr(""))
  }

  /** `[normalize(it["text"]) for it in items if it.get("text")]`. */
  function ItemTexts(items: seq<Item>): (ts: seq<string>)
    ensures forall i :: 0 <= i < |ts| ==> IsNormal(ts[i])
    decreases |items|
  {
    if |items| == 0 then []
    else
      (match items[0].text case Some(t) => if t != "" then [Normalize(t)] else [] case None => [])
      + ItemTexts(items[1..])
  }

  /** The list comprehension `texts` over all records, in record order. */
  function CollectTexts(records: seq<Record>): (ts: seq<string>)
    ensures forall i :: 0 <= i < |ts| ==> IsNormal(ts[i])
    decreases |records|
  {
    if |records| == 0 then [] else ItemTexts(records[0].items) + CollectTexts(records[1..])
  }

  /** `[t for t in ts if t]`. */
  function NonEmpty(ts: seq<string>): (r: seq<string>)
    ensures forall i :: 0 <= i < |r| ==> r[i] != ""
    ensures forall t :: t in r <==> t in ts && t != ""
    ensures forall t :: t != "" ==> multiset(r)[t] == multiset(ts)[t]
    decreases |ts|
  {
    if |ts| == 0 then []
    else
      assert ts == [ts[0]] + ts[1..];
      (if ts[0] != "" then [ts[0]] else []) + NonEmpty(ts[1..])
  }

  /** The non-empty keys of all items, record by record, item by item. */
  function Keys(records: seq<Record>): seq<string>
    decreases |records|
  {
    if |records| == 0 then [] else ItemKeys(records[0].items) + Keys(records[1..])
  }

  function ItemKeys(items: seq<Item>): seq<string>
    decreases |items|
  {
    if |items| == 0 then []
    else (if ItemKey(items[0]) != "" then [ItemKey(items[0])] else []) + ItemKeys(items[1..])
  }

  lemma {:induction false} NonEmptyAppend(a: seq<string>, b: seq<string>)
    ensures NonEmpty(a + b) == NonEmpty(a) + NonEmpty(b)
    decreases |a|
  {
    if |a| == 0 {
      assert a + b == b;
    } else {
      assert (a + b)[0] == a[0] && (a + b)[1..] == a[1..] + b;
      NonEmptyAppend(a[1..], b);
      ConcatAssoc(if a[0] != "" then [a[0]] else [], NonEmpty(a[1..]), NonEmpty(b));
    }
  }

  lemma {:induction false} ItemTextsAreKeys(items: seq<Item>)
    ensures NonEmpty(ItemTexts(items)) == ItemKeys(items)
    decreases |items|
  {
    if |items| > 0 {
      var h := match items[0].text case Some(t) => if t != "" then [Normalize(t)] else [] case None => [];
      NonEmptyAppend(h, ItemTexts(items[1..]));
      ItemTextsAreKeys(items[1..]);
      assert Normalize("") == "" by { assert AllSpace(""); }
    }
  }

  /** The texts the counter sees are exactly the non-empty item keys: the
      two filters of `write_outputs` (raw text present, normalized text
      non-empty) together keep the items whose key is non-empty. */
  lemma {:induction false} CountedAreKeys(records: seq<Record>)
    ensures NonEmpty(CollectTexts(records)) == Keys(records)
    decreases |records|
  {
    if |records| > 0 {
      NonEmptyAppend(ItemTexts(records[0].items), CollectTexts(records[1..]));
      ItemTextsAreKeys(records[0].items);
      CountedAreKeys(records[1..]);
    }
  }

  // ---------------------------------------------------------------------
  // Counting

  /** The texts of the entries, in order. */
  function Texts(es: seq<Entry>): (ts: seq<string>)
    ensures |ts| == |es|
    ensures forall i :: 0 <= i < |es| ==> ts[i] == es[i].text
    decreases |es|
  {
    if |es| == 0 then [] else [es[0].text] + Texts(es[1..])
  }

  /** No text has two entries. */
  predicate Distinct(es: seq<Entry>)
    decreases |es|
  {
    |es| == 0 || (es[0].text !in Texts(es[1..]) && Distinct(es[1..]))
  }

  /** The count recorded for `y`, zero when it has no entry. */
  function CountOf(es: seq<Entry>, y: string): nat
    decreases |es|
  {
    if |es| == 0 then 0 else if es[0].text == y then es[0].count else CountOf(es[1..], y)
  }

  function SumCounts(es: seq<Entry>): nat
    decreases |es|
  {
    if |es| == 0 then 0 else es[0].count + SumCounts(es[1..])
  }

  /** `counter[x] += 1`: the entry for `x` grows by one, or a new entry
      `(x, 1)` goes to the end, as a `Counter` orders its keys. */
  function Bump(es: seq<Entry>, x: string): (r: seq<Entry>)
    ensures forall y :: y in Texts(r) <==> y in Texts(es) || y == x
    ensures SumCounts(r) == SumCounts(es) + 1
    ensures x !in Texts(es) ==> r == es + [Entry(x, 1)]
    decreases |es|
  {
    if |es| == 0 then [Entry(x, 1)]
    else
      assert Texts(es) == [es[0].text] + Texts(es[1..]);
      if es[0].text == x then
        var r := [Entry(x, es[0].count + 1)] + es[1..];
        assert r[1..] == es[1..];
        r
      else
        var rest := Bump(es[1..], x);
        var r := [es[0]] + rest;
        assert r[1..] == rest;
        assert Texts(r) == [es[0].text] + Texts(rest);
        assert x !in Texts(es) ==> r == es + [Entry(x, 1)] by {
          if x !in Texts(es) {
            assert es == [es[0]] + es[1..];
            ConcatAssoc([es[0]], es[1..], [Entry(x, 1)]);
          }
        }
        r
  }

  /** Bumping adds one to the count of `x` and to no other. */
  lemma {:induction false} BumpCount(es: seq<Entry>, x: string, y: string)
    ensures CountOf(Bump(es, x), y) == CountOf(es, y) + (if y == x then 1 else 0)
    decreases |es|
  {
    if |es| > 0 && es[0].text != x && es[0].text != y {
      BumpCount(es[1..], x, y);
      assert Bump(es, x)[1..] == Bump(es[1..], x);
    }
  }

  /** Bumping keeps one entry per text. */
  lemma {:induction false} BumpDistinct(es: seq<Entry>, x: string)
    requires Distinct(es)
    ensures Distinct(Bump(es, x))
    decreases |es|
  {
    if |es| > 0 {
      var r := Bump(es, x);
      assert Texts(es) == [es[0].text] + Texts(es[1..]);
      if es[0].text == x {
        assert r[1..] == es[1..];
        assert Texts(es[1..]) == Texts(r[1..]);
      } else {
        BumpDistinct(es[1..], x);
        assert r[1..] == Bump(es[1..], x);
      }
    }
  }

  /** The count of a text is the count of its entry. */
  lemma {:induction false} CountOfEntry(es: seq<Entry>, e: Entry)
    requires Distinct(es) && e in es
    ensures CountOf(es, e.text) == e.count
    decreases |es|
  {
    if es[0] != e {
      assert e in es[1..];
      assert e.text in Texts(es[1..]) by {
        var i :| 0 <= i < |es[1..]| && es[1..][i] == e;
        assert Texts(es[1..])[i] == e.text;
      }
      CountOfEntry(es[1..], e);
    }
  }

  /** `Counter(xs)`: one entry per distinct element, carrying the number of
      times it occurs, in order of first occurrence. */
  function Tally(xs: seq<string>): (t: seq<Entry>)
    ensures Distinct(t)
    ensures forall y :: y in Texts(t) <==> y in xs
    ensures forall y :: CountOf(t, y) == multiset(xs)[y]
    ensures SumCounts(t) == |xs|
    decreases |xs|
  {
    if |xs| == 0 then []
    else
      var init, x := xs[..|xs| - 1], xs[|xs| - 1];
      assert xs == init + [x];
      BumpDistinct(Tally(init), x);
      forall y ensures CountOf(Bump(Tally(init), x), y) == multiset(xs)[y] {
        BumpCount(Tally(init), x, y);
      }
      Bump(Tally(init), x)
  }

  // ---------------------------------------------------------------------
  // Ordering: `sorted(counter.items(), key=lambda x: (-x[1], x[0]))`

  /** `a` may precede `b`: a higher count, or an equal count and a text
      that is not greater. */
  predicate Ranked(a: Entry, b: Entry) {
    a.count > b.count || (a.count == b.count && (a.text == b.text || LexLess(a.text, b.text)))
  }

  predicate RankedAll(a: Entry, es: seq<Entry>) {
    forall e :: e in es ==> Ranked(a, e)
  }

  /** Every entry may precede every later one. */
  predicate Sorted(es: seq<Entry>)
    decreases |es|
  {
    |es| == 0 || (RankedAll(es[0], es[1..]) && Sorted(es[1..]))
  }

  lemma RankedTotal(a: Entry, b: Entry)
    ensures Ranked(a, b) || Ranked(b, a)
  {
    LexLessTotal(a.text, b.text);
  }

  lemma RankedTransitive(a: Entry, b: Entry, c: Entry)
    requires Ranked(a, b) && Ranked(b, c)
    ensures Ranked(a, c)
  {
    if a.count == b.count == c.count && a.text != b.text && b.text != c.text {
      LexLessTransitive(a.text, b.text, c.text);
    }
  }

  lemma RankedAntisymmetric(a: Entry, b: Entry)
    requires Ranked(a, b) && Ranked(b, a)
    ensures a == b
  {
    LexLessAsymmetric(a.text, b.text);
  }

  /** Places `x` before the first entry it may precede. */
  function Insert(x: Entry, s: seq<Entry>): (r: seq<Entry>)
    requires Sorted(s)
    ensures Sorted(r)
    ensures multiset(r) == multiset(s) + multiset{x}
    decreases |s|
  {
    if |s| == 0 then [x]
    else if Ranked(x, s[0]) then
      InsertInFront(x, s);
      [x] + s
    else
      var tail := Insert(x, s[1..]);
      InsertBehind(x, s, tail);
      [s[0]] + tail
  }

  lemma InsertInFront(x: Entry, s: seq<Entry>)
    requires Sorted(s) && |s| > 0 && Ranked(x, s[0])
    ensures Sorted([x] + s)
  {
    var r := [x] + s;
    assert r[1..] == s;
    assert RankedAll(x, s) by {
      forall e | e in s ensures Ranked(x, e) {
        if e != s[0] { RankedTransitive(x, s[0], e); }
      }
    }
  }

  lemma InsertBehind(x: Entry, s: seq<Entry>, tail: seq<Entry>)
    requires Sorted(s) && |s| > 0 && !Ranked(x, s[0])
    requires Sorted(tail) && multiset(tail) == multiset(s[1..]) + multiset{x}
    ensures Sorted([s[0]] + tail)
    ensures multiset([s[0]] + tail) == multiset(s) + multiset{x}
  {
    var r := [s[0]] + tail;
    RankedTotal(x, s[0]);
    assert r[1..] == tail;
    assert RankedAll(s[0], tail) by {
      forall e | e in tail ensures Ranked(s[0], e) {
        assert e in multiset(tail);
      }
    }
    assert s == [s[0]] + s[1..];
  }

  /** Inserting keeps the other texts and adds the counts. */
  lemma {:induction false} InsertTexts(x: Entry, s: seq<Entry>)
    requires Sorted(s)
    ensures forall y :: y in Texts(Insert(x, s)) <==> y in Texts(s) || y == x.text
    ensures SumCounts(Insert(x, s)) == SumCounts(s) + x.count
    decreases |s|
  {
    if |s| > 0 {
      var r := Insert(x, s);
      assert Texts(s) == [s[0].text] + Texts(s[1..]);
      if Ranked(x, s[0]) {
        assert r[1..] == s;
      } else {
        InsertTexts(x, s[1..]);
        assert r[1..] == Insert(x, s[1..]);
        assert Texts(r) == [s[0].text] + Texts(r[1..]);
      }
    }
  }

  /** Inserting a new text keeps one entry per text. */
  lemma {:induction false} InsertDistinct(x: Entry, s: seq<Entry>)
    requires Sorted(s) && Distinct(s) && x.text !in Texts(s)
    ensures Distinct(Insert(x, s))
    decreases |s|
  {
    if |s| > 0 {
      var r := Insert(x, s);
      assert Texts(s) == [s[0].text] + Texts(s[1..]);
      if Ranked(x, s[0]) {
        assert r[1..] == s;
      } else {
        InsertDistinct(x, s[1..]);
        InsertTexts(x, s[1..]);
        assert r[1..] == Insert(x, s[1..]);
      }
    }
  }

  /** Insertion sort by `Ranked`. */
  function SortEntries(s: seq<Entry>): (r: seq<Entry>)
    ensures Sorted(r)
    ensures multiset(r) == multiset(s)
    ensures forall y :: y in Texts(r) <==> y in Texts(s)
    ensures SumCounts(r) == SumCounts(s)
    ensures Distinct(s) ==> Distinct(r)
    decreases |s|
  {
    if |s| == 0 then []
    else
      var rest := SortEntries(s[1..]);
      SortStep(s, rest);
      Insert(s[0], rest)
  }

  /** Inserting the first entry into the sorted rest sorts the whole. */
  lemma SortStep(s: seq<Entry>, rest: seq<Entry>)
    requires |s| > 0 && Sorted(rest)
    requires multiset(rest) == multiset(s[1..])
    requires forall y :: y in Texts(rest) <==> y in Texts(s[1..])
    requires SumCounts(rest) == SumCounts(s[1..])
    requires Distinct(s[1..]) ==> Distinct(rest)
    ensures multiset(Insert(s[0], rest)) == multiset(s)
    ensures forall y :: y in Texts(Insert(s[0], rest)) <==> y in Texts(s)
    ensures SumCounts(Insert(s[0], rest)) == SumCounts(s)
    ensures Distinct(s) ==> Distinct(Insert(s[0], rest))
  {
    SortStepEntries(s, rest);
    SortStepTexts(s, rest);
    SortStepDistinct(s, rest);
  }

  lemma SortStepEntries(s: seq<Entry>, rest: seq<Entry>)
    requires |s| > 0 && Sorted(rest)
    requires multiset(rest) == multiset(s[1..])
    ensures multiset(Insert(s[0], rest)) == multiset(s)
  {
    assert s == [s[0]] + s[1..];
  }

  lemma SortStepDistinct(s: seq<Entry>, rest: seq<Entry>)
    requires |s| > 0 && Sorted(rest)
    requires forall y :: y in Texts(rest) <==> y in Texts(s[1..])
    requires Distinct(s[1..]) ==> Distinct(rest)
    ensures Distinct(s) ==> Distinct(Insert(s[0], rest))
  {
    if Distinct(s) {
      InsertDistinct(s[0], rest);
    }
  }

  lemma SortStepTexts(s: seq<Entry>, rest: seq<Entry>)
    requires |s| > 0 && Sorted(rest)
    requires forall y :: y in Texts(rest) <==> y in Texts(s[1..])
    requires SumCounts(rest) == SumCounts(s[1..])
    ensures forall y :: y in Texts(Insert(s[0], rest)) <==> y in Texts(s)
    ensures SumCounts(Insert(s[0], rest)) == SumCounts(s)
  {
    assert Texts(s) == [s[0].text] + Texts(s[1..]);
    InsertTexts(s[0], rest);
  }

  /** Two sorted lists holding the same entries start with the same entry. */
  lemma SortedHeadsAgree(a: seq<Entry>, b: seq<Entry>)
    requires Sorted(a) && Sorted(b) && multiset(a) == multiset(b) && |a| > 0
    ensures |b| > 0 && a[0] == b[0]
  {
    assert a == [a[0]] + a[1..];
    assert a[0] in multiset(b);
    assert b == [b[0]] + b[1..];
    assert b[0] in multiset(a);
    assert Ranked(b[0], a[0]) by { if a[0] != b[0] { assert a[0] in b[1..]; } }
    assert Ranked(a[0], b[0]) by { if a[0] != b[0] { assert b[0] in a[1..]; } }
    RankedAntisymmetric(a[0], b[0]);
  }

  /** Sorting cannot depend on the order the counter met its keys: two
      sorted lists holding the same entries are the same list. */
  lemma {:induction false} SortedPermutationUnique(a: seq<Entry>, b: seq<Entry>)
    requires Sorted(a) && Sorted(b) && multiset(a) == multiset(b)
    ensures a == b
    decreases |a|
  {
    assert |a| == |multiset(a)| == |multiset(b)| == |b|;
    if |a| > 0 {
      SortedHeadsAgree(a, b);
      assert a == [a[0]] + a[1..] && b == [b[0]] + b[1..];
      assert multiset(a[1..]) == multiset(a) - multiset{a[0]};
      assert multiset(b[1..]) == multiset(b) - multiset{b[0]};
      SortedPermutationUnique(a[1..], b[1..]);
    }
  }

  /** The pairwise reading of `Sorted` and `Distinct`: of two positions,
      the earlier has the higher count, or the same count and the smaller
      text. */
  lemma {:induction false} StrictlyOrdered(es: seq<Entry>)
    requires Sorted(es) && Distinct(es)
    ensures forall i, j :: 0 <= i < j < |es| ==>
      es[i].count > es[j].count || (es[i].count == es[j].count && LexLess(es[i].text, es[j].text))
    decreases |es|
  {
    if |es| > 0 {
      StrictlyOrdered(es[1..]);
      forall i, j | 0 <= i < j < |es|
        ensures es[i].count > es[j].count || (es[i].count == es[j].count && LexLess(es[i].text, es[j].text))
      {
        if i == 0 {
          assert es[j] == es[1..][j - 1];
          assert es[j] in es[1..];
          assert Texts(es[1..])[j - 1] == es[j].text;
        } else {
          assert es[i] == es[1..][i - 1] && es[j] == es[1..][j - 1];
        }
      }
    }
  }

  /** The pairwise reading of `Distinct`. */
  lemma {:induction false} DistinctPairs(es: seq<Entry>)
    requires Distinct(es)
    ensures forall i, j :: 0 <= i < j < |es| ==> es[i].text != es[j].text
    decreases |es|
  {
    if |es| > 0 {
      DistinctPairs(es[1..]);
      forall i, j | 0 <= i < j < |es| ensures es[i].text != es[j].text {
        assert es[j] == es[1..][j - 1];
        if i == 0 {
          assert Texts(es[1..])[j - 1] == es[j].text;
        } else {
          assert es[i] == es[1..][i - 1];
        }
      }
    }
  }

  // ---------------------------------------------------------------------
  // The unique list

  /** `unique_sorted` of `write_outputs`: sorted, one entry per text, and
      the texts are exactly the non-empty item keys. */
  function UniqueList(records: seq<Record>): (u: seq<Entry>)
    ensures Sorted(u) && Distinct(u)
    ensures forall y :: y in Texts(u) <==> y in Keys(records)
  {
    CountedAreKeys(records);
    SortEntries(Tally(NonEmpty(CollectTexts(records))))
  }

  /** Each distinct non-empty item key appears exactly once, with the
      number of items carrying it, and nothing else appears; the counts add
      up to the number of such items. */
  lemma UniqueListCounts(records: seq<Record>)
    ensures var u := UniqueList(records);
      && Distinct(u)
      && (forall y :: y in Texts(u) <==> y in Keys(records))
      && (forall e :: e in u ==> e.count == multiset(Keys(records))[e.text])
      && SumCounts(u) == |Keys(records)|
  {
    CountedAreKeys(records);
    var t := Tally(NonEmpty(CollectTexts(records)));
    var u := SortEntries(t);
    forall e | e in u ensures e.count == multiset(Keys(records))[e.text] {
      assert e in multiset(u);
      assert e in t;
      CountOfEntry(t, e);
    }
  }

  /** Every text of the list is non-empty and already normalized. */
  lemma UniqueListTexts(records: seq<Record>)
    ensures var u := UniqueList(records);
      forall i :: 0 <= i < |u| ==> u[i].text != "" && IsNormal(u[i].text)
  {
    var xs := CollectTexts(records);
    var u := UniqueList(records);
    forall i | 0 <= i < |u| ensures u[i].text != "" && IsNormal(u[i].text) {
      var y := u[i].text;
      assert y == Texts(u)[i];
      assert y in NonEmpty(xs);
      var k :| 0 <= k < |xs| && xs[k] == y;
    }
  }

  /** The list is ordered by descending count and then by ascending text,
      and that order is the only one the entries admit. */
  lemma UniqueListOrder(records: seq<Record>, other: seq<Entry>)
    requires Sorted(other)
    requires multiset(other) == multiset(Tally(NonEmpty(CollectTexts(records))))
    ensures var u := UniqueList(records);
      && (forall i, j :: 0 <= i < j < |u| ==>
            u[i].count > u[j].count || (u[i].count == u[j].count && LexLess(u[i].text, u[j].text)))
      && other == u
  {
    StrictlyOrdered(UniqueList(records));
    SortedPermutationUnique(other, UniqueList(records));
  }

  // ---------------------------------------------------------------------
  // Output lines

  /** `f"{c}\t{t}"`: digits, a tab, and the text at the end. */
  function FormatLine(e: Entry): (line: string)
    ensures |line| > |e.text| + 1
    ensures EndsWith(line, "\t" + e.text)
    ensures AllDigits(line[..|line| - |e.text| - 1])
  {
    var c := NatToString(e.count);
    var line := c + "\t" + e.text;
    assert line[|c|..] == "\t" + e.text;
    assert line[..|c|] == c;
    line
  }

  function FormatLines(es: seq<Entry>): (ls: seq<string>)
    ensures |ls| == |es|
    ensures forall i :: 0 <= i < |es| ==> ls[i] == FormatLine(es[i])
  {
    seq(|es|, i requires 0 <= i < |es| => FormatLine(es[i]))
  }

  /** The content of `unique_lines.txt`: read back in text mode, it gives
      one line per entry when every text is normal. */
  function RenderUnique(es: seq<Entry>): (content: string)
    ensures (forall i :: 0 <= i < |es| ==> IsNormal(es[i].text)) ==> FileLines(content) == FormatLines(es)
  {
    ReadBackFormatLines(es);
    Terminated(FormatLines(es))
  }

  lemma ReadBackFormatLines(es: seq<Entry>)
    ensures (forall i :: 0 <= i < |es| ==> IsNormal(es[i].text)) ==>
      FileLines(Terminated(FormatLines(es))) == FormatLines(es)
  {
    if forall i :: 0 <= i < |es| ==> IsNormal(es[i].text) {
      FormatLinesPlain(es);
      FileLinesOfTerminated(FormatLines(es));
    }
  }

  /** The lines of a list of normal texts hold no line ending. */
  lemma FormatLinesPlain(es: seq<Entry>)
    requires forall i :: 0 <= i < |es| ==> IsNormal(es[i].text)
    ensures forall i :: 0 <= i < |es| ==> '\n' !in FormatLines(es)[i] && '\r' !in FormatLines(es)[i]
  {
    var ls := FormatLines(es);
    forall i | 0 <= i < |ls| ensures '\n' !in ls[i] && '\r' !in ls[i] {
      NormalHasNoControl(es[i].text);
      var c := NatToString(es[i].count);
      assert forall j :: 0 <= j < |c| ==> IsDigit(c[j]);
      assert ls[i] == c + "\t" + es[i].text;
    }
  }

  /** A normal text holds no tab, newline or carriage return. */
  lemma NormalHasNoControl(t: string)
    requires IsNormal(t)
    ensures '\t' !in t && '\n' !in t && '\r' !in t
  {
    forall i | 0 <= i < |t| ensures t[i] != '\t' && t[i] != '\n' && t[i] != '\r' {
      if IsSpace(t[i]) { assert t[i] == ' '; }
    }
  }

  /** A line of the list reads back: the digits before the first tab are
      the count, and the rest after the tab is the text. */
  lemma FormatLineParses(e: Entry)
    requires IsNormal(e.text)
    ensures var line := FormatLine(e);
      var k := IndexOf(line, '\t');
      && k < |line|
      && AllDigits(line[..k]) && DigitsValue(line[..k]) == e.count
      && line[k + 1..] == e.text
  {
    NormalHasNoControl(e.text);
    var c := NatToString(e.count);
    NatToStringValue(e.count);
    var line := FormatLine(e);
    assert line[..|c|] == c;
    assert line[|c| + 1..] == e.text;
    assert forall j :: 0 <= j < |c| ==> IsDigit(line[j]);
    assert IndexOf(line, '\t') == |c| by {
      assert line[|c|] == '\t';
    }
  }
}
