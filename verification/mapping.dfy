/** `scripts/llm_translate_mapping.py`: the unique list and its translation,
    written line for line, are zipped into a source-to-translation map, and
    every image of the dump gets the list of its items' translations. */
module Mapping {
  import opened Strings
  import opened Whitespace
  import opened Lines
  import opened DumpParser
  import opened UniqueLines

  // ---------------------------------------------------------------------
  // load_unique_pairs

  /** The text part of one line of `unique_lines.txt`: what follows the
      first tab (the whole line when there is none), stripped. */
  function SourceText(line: string): (t: string)
    ensures |t| <= |line|
    ensures t == [] || (!IsSpace(t[0]) && !IsSpace(t[|t| - 1]))
  {
    var k := IndexOf(line, '\t');
    if k < |line| then Strip(line[k + 1..]) else Strip(line)
  }

  /** The source texts in file order; empty lines are skipped, but a line
      of blanks is kept and yields the empty text. */
  function SourceTexts(lines: seq<string>): (src: seq<string>)
    ensures |src| <= |lines|
    ensures |src| == |lines| <== (forall i :: 0 <= i < |lines| ==> lines[i] != "")
    decreases |lines|
  {
    if |lines| == 0 then []
    else (if lines[0] == "" then [] else [SourceText(lines[0])]) + SourceTexts(lines[1..])
  }

  /** On a line with a tab, the text is what follows the first tab, stripped. */
  lemma SourceTextAfterTab(d: string, x: string)
    requires '\t' !in d
    ensures SourceText(d + "\t" + x) == Strip(x)
  {
    var t := "\t" + x;
    var line := d + t;
    assert line == d + "\t" + x;
    IndexOfAppend(d, t, '\t');
    assert IndexOf(d, '\t') == |d|;
    assert IndexOf(t, '\t') == 0 by { assert t[0] == '\t'; }
    assert line[|d| + 1..] == x;
  }

  /** On a line without a tab, the text is the whole line, stripped. */
  lemma SourceTextWithoutTab(x: string)
    requires '\t' !in x
    ensures SourceText(x) == Strip(x)
  {
    assert IndexOf(x, '\t') == |x|;
  }

  /** An empty line gives no text; any other line gives its one text. */
  lemma SourceTextsOfLine(l: string)
    ensures SourceTexts([l]) == if l == "" then [] else [SourceText(l)]
  {
    assert [l][1..] == [];
  }

  /** The texts of two blocks of lines are the texts of each, in order. */
  lemma {:induction false} SourceTextsAppend(a: seq<string>, b: seq<string>)
    ensures SourceTexts(a + b) == SourceTexts(a) + SourceTexts(b)
    decreases |a|
  {
    if |a| > 0 {
      var ab := a + b;
      assert ab[0] == a[0] && ab[1..] == a[1..] + b;
      var h := if a[0] == "" then [] else [SourceText(a[0])];
      assert SourceTexts(ab) == h + SourceTexts(a[1..] + b);
      assert SourceTexts(a) == h + SourceTexts(a[1..]);
      SourceTextsAppend(a[1..], b);
      ConcatAssoc(h, SourceTexts(a[1..]), SourceTexts(b));
    } else {
      assert a + b == b;
    }
  }

  /** The translated lines brought to length `n`: padded with empty
      strings, or cut. */
  function Align(n: nat, en: seq<string>): (r: seq<string>)
    ensures |r| == n
    ensures forall i :: 0 <= i < n && i < |en| ==> r[i] == en[i]
    ensures forall i :: |en| <= i < n ==> r[i] == ""
  {
    if |en| < n then en + Repeat("", n - |en|) else en[..n]
  }

  /** The last position of `ks` that holds `ks[i]` is `i`. */
  predicate LastAt<K(==)>(ks: seq<K>, i: nat)
    requires i < |ks|
  {
    forall j :: i < j < |ks| ==> ks[j] != ks[i]
  }

  /** `{k: v for k, v in zip(ks, vs)}`: every key is bound, and to the
      value paired with its last occurrence. */
  function ZipToMap<K(==), V>(ks: seq<K>, vs: seq<V>): (m: map<K, V>)
    requires |ks| == |vs|
    ensures m.Keys == set k | k in ks
    ensures forall i :: 0 <= i < |ks| && LastAt(ks, i) ==> m[ks[i]] == vs[i]
    decreases |ks|
  {
    if |ks| == 0 then map[]
    else
      var n := |ks| - 1;
      var prev := ZipToMap(ks[..n], vs[..n]);
      ZipStep(ks, vs, prev, n);
      prev[ks[n] := vs[n]]
  }

  /** Binding the last key to the last value extends the map of the
      pairs before it to the map of all pairs. */
  lemma ZipStep<K, V>(ks: seq<K>, vs: seq<V>, prev: map<K, V>, n: nat)
    requires n + 1 == |ks| == |vs|
    requires prev.Keys == set k | k in ks[..n]
    requires forall i :: 0 <= i < n && LastAt(ks[..n], i) ==> prev[ks[..n][i]] == vs[..n][i]
    ensures prev[ks[n] := vs[n]].Keys == set k | k in ks
    ensures forall i :: 0 <= i < |ks| && LastAt(ks, i) ==> prev[ks[n] := vs[n]][ks[i]] == vs[i]
  {
    var m := prev[ks[n] := vs[n]];
    assert ks == ks[..n] + [ks[n]];
    forall i | 0 <= i < |ks| && LastAt(ks, i) ensures m[ks[i]] == vs[i] {
      if i < n {
        assert ks[..n][i] == ks[i] && vs[..n][i] == vs[i];
        assert ks[i] != ks[n];
        assert LastAt(ks[..n], i);
      }
    }
  }

  /** The map `load_unique_pairs` returns, from the contents of the source
      and translation files: it binds every source text, to the translation
      line at the position of its last occurrence, or to `""` when the
      translation file has no line there. */
  function LoadUniquePairs(srcContent: string, dstContent: string): (m: map<string, string>)
    ensures var src := SourceTexts(FileLines(srcContent));
      m.Keys == set t | t in src
    ensures var src, dst := SourceTexts(FileLines(srcContent)), FileLines(dstContent);
      forall i :: 0 <= i < |src| && LastAt(src, i) ==>
        m[src[i]] == if i < |dst| then dst[i] else ""
  {
    var src := SourceTexts(FileLines(srcContent));
    ZipToMap(src, Align(|src|, FileLines(dstContent)))
  }

  /** A line written as `count TAB text` gives back its text. */
  lemma SourceTextOfFormatLine(e: Entry)
    requires IsNormal(e.text)
    ensures SourceText(FormatLine(e)) == e.text
  {
    FormatLineParses(e);
    StripOfTrimmed(e.text);
  }

  /** Reading the lines of the unique list gives back its texts, in order. */
  lemma {:induction false} SourceTextsOfUnique(es: seq<Entry>)
    requires forall i :: 0 <= i < |es| ==> IsNormal(es[i].text)
    ensures SourceTexts(FormatLines(es)) == Texts(es)
    decreases |es|
  {
    if |es| > 0 {
      var ls := FormatLines(es);
      assert ls[1..] == FormatLines(es[1..]);
      SourceTextOfFormatLine(es[0]);
      assert ls[0] != "" by { assert ls[0][|NatToString(es[0].count)|] == '\t'; }
      SourceTextsOfUnique(es[1..]);
    }
  }

  // ---------------------------------------------------------------------
  // Path(img_path).name

  /** The components pathlib keeps: empty ones and `.` are dropped. */
  function Components(parts: seq<string>): (cs: seq<string>)
    ensures forall i :: 0 <= i < |cs| ==> cs[i] in parts && cs[i] != "" && cs[i] != "."
    decreases |parts|
  {
    if |parts| == 0 then []
    else (if parts[0] == "" || parts[0] == "." then [] else [parts[0]]) + Components(parts[1..])
  }

  /** `PurePosixPath(p).name`: the last component, or the empty string
      when there is none. */
  function Basename(p: string): (name: string)
    ensures '/' !in name && name != "."
    ensures p != "" && p != "." && '/' !in p ==> name == p
  {
    var cs := Components(SplitOn(p, '/'));
    if |cs| == 0 then "" else cs[|cs| - 1]
  }

  lemma {:induction false} ComponentsAppend(a: seq<string>, b: seq<string>)
    ensures Components(a + b) == Components(a) + Components(b)
    decreases |a|
  {
    if |a| == 0 {
      assert a + b == b;
    } else {
      assert (a + b)[1..] == a[1..] + b;
      ComponentsAppend(a[1..], b);
      ConcatAssoc(if a[0] == "" || a[0] == "." then [] else [a[0]], Components(a[1..]), Components(b));
    }
  }

  /** The name of `dir/name` is `name`, whatever the directory. */
  lemma BasenameOfJoin(dir: string, name: string)
    requires name != "" && name != "." && '/' !in name
    ensures Basename(dir + "/" + name) == name
  {
    SplitOnAppend(dir, '/', name);
    ComponentsAppend(SplitOn(dir, '/'), [name]);
    assert Components([name]) == [name];
  }

  // ---------------------------------------------------------------------
  // build_per_image

  /** The translation an item gets: empty for an item without text, the
      mapped translation otherwise, empty when the text is not mapped. */
  function TranslateItem(m: map<string, string>, it: Item): (t: string)
    ensures t == "" || t in m.Values
  {
    var src := ItemKey(it);
    if src == "" then "" else if src in m then m[src] else ""
  }

  function TranslateItems(m: map<string, string>, items: seq<Item>): (out: seq<string>)
    ensures |out| == |items|
    ensures forall i :: 0 <= i < |items| ==> out[i] == TranslateItem(m, items[i])
  {
    seq(|items|, i requires 0 <= i < |items| => TranslateItem(m, items[i]))
  }

  function Names(records: seq<Record>): (ns: seq<string>)
    ensures |ns| == |records|
    ensures forall i :: 0 <= i < |records| ==> ns[i] == Basename(records[i].imagePath)
  {
    seq(|records|, i requires 0 <= i < |records| => Basename(records[i].imagePath))
  }

  /** `build_per_image`: one array per image name, holding one translation
      per item in item order; a later record whose image has the same name
      replaces the earlier one's array. */
  function BuildPerImage(records: seq<Record>, m: map<string, string>): (per: map<string, seq<string>>)
    ensures per.Keys == set n | n in Names(records)
    ensures forall i :: 0 <= i < |records| && LastAt(Names(records), i) ==>
      per[Names(records)[i]] == TranslateItems(m, records[i].items)
  {
    ZipToMap(Names(records), seq(|records|, i requires 0 <= i < |records| => TranslateItems(m, records[i].items)))
  }

  /** Two items with the same normalized text get the same translation,
      wherever they are: in one image's array or in two different ones. */
  lemma EqualKeysSameTranslation(records: seq<Record>, m: map<string, string>, i1: nat, k1: nat, i2: nat, k2: nat)
    requires i1 < |records| && LastAt(Names(records), i1) && k1 < |records[i1].items|
    requires i2 < |records| && LastAt(Names(records), i2) && k2 < |records[i2].items|
    requires ItemKey(records[i1].items[k1]) == ItemKey(records[i2].items[k2])
    ensures var per := BuildPerImage(records, m);
      var n1, n2 := Basename(records[i1].imagePath), Basename(records[i2].imagePath);
      && n1 in per && n2 in per
      && |per[n1]| == |records[i1].items| && |per[n2]| == |records[i2].items|
      && per[n1][k1] == per[n2][k2]
  {
    var per := BuildPerImage(records, m);
    var n1, n2 := Names(records)[i1], Names(records)[i2];
    assert per[n1] == TranslateItems(m, records[i1].items);
    assert per[n2] == TranslateItems(m, records[i2].items);
    assert per[n1][k1] == TranslateItem(m, records[i1].items[k1]);
    assert per[n2][k2] == TranslateItem(m, records[i2].items[k2]);
  }

  // ---------------------------------------------------------------------
  // The round trip

  /** An item is looked up under its key, and keys outside the map or
      items without text get the empty string. */
  lemma TranslateItemSpec(m: map<string, string>, it: Item)
    ensures ItemKey(it) == "" ==> TranslateItem(m, it) == ""
    ensures ItemKey(it) != "" && ItemKey(it) in m ==> TranslateItem(m, it) == m[ItemKey(it)]
    ensures ItemKey(it) !in m ==> TranslateItem(m, it) == ""
  {
  }

  /** The written unique list, read back line by line, gives its texts. */
  lemma {:induction false} ReadBackUnique(es: seq<Entry>)
    requires forall i :: 0 <= i < |es| ==> IsNormal(es[i].text)
    ensures SourceTexts(FileLines(RenderUnique(es))) == Texts(es)
  {
    assert FileLines(RenderUnique(es)) == FormatLines(es);
    SourceTextsOfUnique(es);
  }

  /** The map read back from a written list pairs the list's texts with
      the aligned translation lines. */
  lemma ReadBackMap(es: seq<Entry>, dstContent: string)
    requires forall i :: 0 <= i < |es| ==> IsNormal(es[i].text)
    ensures LoadUniquePairs(RenderUnique(es), dstContent)
         == ZipToMap(Texts(es), Align(|es|, FileLines(dstContent)))
  {
    ReadBackUnique(es);
    LoadUniquePairsOfTexts(RenderUnique(es), dstContent, Texts(es));
  }

  /** The map of two files, given the source texts read from the first. */
  lemma LoadUniquePairsOfTexts(srcContent: string, dstContent: string, src: seq<string>)
    requires src == SourceTexts(FileLines(srcContent))
    ensures LoadUniquePairs(srcContent, dstContent) == ZipToMap(src, Align(|src|, FileLines(dstContent)))
  {
  }

  /** The map built from a written list of distinct normal texts and any
      translation file binds exactly those texts, each to the translation
      line at its own position, or to the empty string when the file is too
      short. */
  lemma LoadUniquePairsOfList(es: seq<Entry>, dstContent: string)
    requires forall i :: 0 <= i < |es| ==> IsNormal(es[i].text)
    requires forall i, j :: 0 <= i < j < |es| ==> es[i].text != es[j].text
    ensures var m := LoadUniquePairs(RenderUnique(es), dstContent);
      var en := FileLines(dstContent);
      && (forall y :: y in m <==> y in Texts(es))
      && (forall j :: 0 <= j < |es| ==> es[j].text in m && m[es[j].text] == (if j < |en| then en[j] else ""))
  {
    var src := Texts(es);
    var en := FileLines(dstContent);
    var al := Align(|src|, en);
    var m := ZipToMap(src, al);
    ReadBackMap(es, dstContent);
    assert m.Keys == set k | k in src;
    forall j | 0 <= j < |es| ensures es[j].text in m && m[es[j].text] == (if j < |en| then en[j] else "") {
      assert src[j] == es[j].text;
      assert LastAt(src, j);
      assert m[src[j]] == al[j];
    }
  }

  /** An item of the last record with its image name gets, at its own
      position in that image's array, the translation line at the position
      of its key in the written list, or the empty string when the file is
      too short; an item without text gets the empty string. */
  lemma PerImageOfList(records: seq<Record>, es: seq<Entry>, dstContent: string, i: nat, k: nat, j: nat)
    requires forall i :: 0 <= i < |es| ==> IsNormal(es[i].text)
    requires forall i, j :: 0 <= i < j < |es| ==> es[i].text != es[j].text
    requires i < |records| && LastAt(Names(records), i)
    requires k < |records[i].items|
    requires ItemKey(records[i].items[k]) != "" ==> j < |es| && es[j].text == ItemKey(records[i].items[k])
    ensures var per := BuildPerImage(records, LoadUniquePairs(RenderUnique(es), dstContent));
      var en := FileLines(dstContent);
      var name := Basename(records[i].imagePath);
      && name in per && |per[name]| == |records[i].items|
      && per[name][k] == (if ItemKey(records[i].items[k]) == "" then ""
                          else if j < |en| then en[j] else "")
  {
    var m := LoadUniquePairs(RenderUnique(es), dstContent);
    LoadUniquePairsOfList(es, dstContent);
    var per := BuildPerImage(records, m);
    var name := Names(records)[i];
    assert per[name] == TranslateItems(m, records[i].items);
    assert per[name][k] == TranslateItem(m, records[i].items[k]);
  }

  /** The whole round trip from the dump to the per-image arrays, for the
      unique list the dump itself produces. */
  lemma PipelineRoundTrip(records: seq<Record>, dstContent: string, i: nat, k: nat, j: nat)
    requires i < |records| && LastAt(Names(records), i)
    requires k < |records[i].items|
    requires ItemKey(records[i].items[k]) != "" ==>
      j < |UniqueList(records)| && UniqueList(records)[j].text == ItemKey(records[i].items[k])
    ensures var u := UniqueList(records);
      var per := BuildPerImage(records, LoadUniquePairs(RenderUnique(u), dstContent));
      var en := FileLines(dstContent);
      var name := Basename(records[i].imagePath);
      && name in per && |per[name]| == |records[i].items|
      && per[name][k] == (if ItemKey(records[i].items[k]) == "" then ""
                          else if j < |en| then en[j] else "")
  {
    var u := UniqueList(records);
    UniqueListTexts(records);
    UniqueListCounts(records);
    DistinctPairs(u);
    PerImageOfList(records, u, dstContent, i, k, j);
  }

  /** Every non-empty key of the dump has a position in the unique list, so
      the round trip above covers every item. */
  lemma EveryKeyListed(records: seq<Record>, i: nat, k: nat)
    requires i < |records| && k < |records[i].items|
    requires ItemKey(records[i].items[k]) != ""
    ensures exists j :: 0 <= j < |UniqueList(records)| && UniqueList(records)[j].text == ItemKey(records[i].items[k])
  {
    KeyOfItemInKeys(records, i, k);
    UniqueListCounts(records);
    var u := UniqueList(records);
    var j := IndexOf(Texts(u), ItemKey(records[i].items[k]));
    assert u[j].text == Texts(u)[j];
  }

  lemma {:induction false} KeyOfItemInItemKeys(items: seq<Item>, k: nat)
    requires k < |items| && ItemKey(items[k]) != ""
    ensures ItemKey(items[k]) in ItemKeys(items)
    decreases |items|
  {
    var key := ItemKey(items[k]);
    var head := if ItemKey(items[0]) != "" then [ItemKey(items[0])] else [];
    var rest := ItemKeys(items[1..]);
    assert ItemKeys(items) == head + rest;
    if k > 0 {
      assert items[1..][k - 1] == items[k];
      KeyOfItemInItemKeys(items[1..], k - 1);
      assert key in rest;
    } else {
      assert head == [key];
    }
  }

  lemma {:induction false} KeyOfItemInKeys(records: seq<Record>, i: nat, k: nat)
    requires i < |records| && k < |records[i].items| && ItemKey(records[i].items[k]) != ""
    ensures ItemKey(records[i].items[k]) in Keys(records)
    decreases |records|
  {
    if i == 0 {
      KeyOfItemInItemKeys(records[0].items, k);
    } else {
      KeyOfItemInKeys(records[1..], i - 1, k);
      assert records[1..][i - 1] == records[i];
    }
  }
}
