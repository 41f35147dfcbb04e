/** `parse_records` of `scripts/text_aggregate.py`: the line-driven state
    machine that turns OCR text dumps into per-image records.

    A dump is a sequence of blocks. A header line `[<image path>]` opens a
    record; a line starting with `-- ` opens a new (empty) item of that
    record; `color: `, `text: `, `trans: ` and `coords: ` lines fill a field
    of the record's last item. The parser is a fold of `Step` over the
    lines of each readable file, and its state is reset at every file end. */
module DumpParser {
  import opened Optional
  import opened Strings
  import opened Whitespace
  import opened Lines

  datatype Field = Color | Text | Trans | Coords

  /** One text region; a field stays `None` until a line sets it. */
  datatype Item = Item(color: Option<string>, text: Option<string>, trans: Option<string>, coords: Option<string>)

  const EmptyItem: Item := Item(None, None, None, None)

  /** `{"image_path": ..., "items": [...]}`. */
  datatype Record = Record(imagePath: string, items: seq<Item>)

  /** Records already closed, and the record being filled (`cur`). */
  datatype State = State(done: seq<Record>, cur: Option<Record>)

  datatype LineKind = Blank | Header(path: string) | Marker | FieldLine(field: Field, value: string) | Other

  function Prefix(f: Field): string {
    match f
    case Color => "color: "
    case Text => "text: "
    case Trans => "trans: "
    case Coords => "coords: "
  }

  function GetField(it: Item, f: Field): Option<string> {
    match f
    case Color => it.color
    case Text => it.text
    case Trans => it.trans
    case Coords => it.coords
  }

  /** `item[f] = v`: only field `f` changes. */
  function SetField(it: Item, f: Field, v: string): (r: Item)
    ensures GetField(r, f) == Some(v)
    ensures forall g :: g != f ==> GetField(r, g) == GetField(it, g)
  {
    match f
    case Color => it.(color := Some(v))
    case Text => it.(text := Some(v))
    case Trans => it.(trans := Some(v))
    case Coords => it.(coords := Some(v))
  }

  /** The match of `^\[(?P<path>.*)\]\s*$` against a line: the line opens
      with `[`, its last non-whitespace character is `]`, and the text in
      between, which `.` must cover, holds no `"\n"`. */
  function HeaderPath(line: string): (r: Option<string>)
    ensures r.Some? ==> '\n' !in r.value && StartsWith(line, "[" + r.value + "]")
  {
    var t := RStrip(line);
    if |t| >= 2 && t[0] == '[' && t[|t| - 1] == ']' && '\n' !in t[1..|t| - 1] then
      assert t == line[..|t|];
      assert line[..|t|] == "[" + t[1..|t| - 1] + "]";
      Some(t[1..|t| - 1])
    else None
  }

  /** How the loop body of `parse_records` treats one line. */
  function Classify(raw: string): (k: LineKind)
    ensures k.FieldLine? ==> k.value == [] || (!IsSpace(k.value[0]) && !IsSpace(k.value[|k.value| - 1]))
  {
    var line := TrimEnd(raw, '\n');
    if |line| == 0 then Blank
    else if HeaderPath(line).Some? then Header(HeaderPath(line).value)
    else if StartsWith(line, "-- ") then Marker
    else if StartsWith(line, Prefix(Color)) then FieldLine(Color, Strip(line[|Prefix(Color)|..]))
    else if StartsWith(line, Prefix(Text)) then FieldLine(Text, Strip(line[|Prefix(Text)|..]))
    else if StartsWith(line, Prefix(Trans)) then FieldLine(Trans, Strip(line[|Prefix(Trans)|..]))
    else if StartsWith(line, Prefix(Coords)) then FieldLine(Coords, Strip(line[|Prefix(Coords)|..]))
    else Other
  }

  /** The records produced so far, counting the open one. */
  function Flush(st: State): seq<Record> {
    st.done + (if st.cur.Some? then [st.cur.value] else [])
  }

  /** `if not cur["items"]: cur["items"].append({})`. */
  function WithItem(items: seq<Item>): seq<Item> {
    if |items| == 0 then [EmptyItem] else items
  }

  /** One iteration of the inner loop of `parse_records`. Only a header
      line closes a record or opens one; before the first header nothing
      changes, and after it the open record keeps its path and never loses
      an item. */
  function Step(st: State, raw: string): (r: State)
    ensures !Classify(raw).Header? ==>
      && r.done == st.done
      && (r.cur.Some? <==> st.cur.Some?)
      && (r.cur.Some? ==> r.cur.value.imagePath == st.cur.value.imagePath
                          && |r.cur.value.items| >= |st.cur.value.items|)
    ensures st.cur.None? && !Classify(raw).Header? ==> r == st
    ensures Classify(raw).Header? ==> r.done == Flush(st) && r.cur.Some? && r.cur.value.items == []
  {
    match Classify(raw)
    case Blank => st
    case Header(p) => State(Flush(st), Some(Record(p, [])))
    case Marker =>
      if st.cur.None? then st
      else State(st.done, Some(st.cur.value.(items := st.cur.value.items + [EmptyItem])))
    case FieldLine(f, v) =>
      if st.cur.None? then st
      else
        var its := WithItem(st.cur.value.items);
        var last := |its| - 1;
        State(st.done, Some(st.cur.value.(items := its[last := SetField(its[last], f, v)])))
    case Other =>
      if st.cur.None? then st
      else State(st.done, Some(st.cur.value.(items := WithItem(st.cur.value.items))))
  }

  function ParseLines(st: State, lines: seq<string>): State
    decreases |lines|
  {
    if |lines| == 0 then st else ParseLines(Step(st, lines[0]), lines[1..])
  }

  /** One readable file: its lines are folded from a state with no open
      record, and the record still open at the end is closed. */
  function ParseFile(done: seq<Record>, text: string): (rs: seq<Record>)
    ensures Paths(rs) == Paths(done) + LineHeaders(SplitLines(text))
  {
    ParseLinesPaths(State(done, None), SplitLines(text));
    Flush(ParseLines(State(done, None), SplitLines(text)))
  }

  /** The outer loop; `None` stands for a file that could not be read,
      which is skipped. */
  function ParseFiles(acc: seq<Record>, files: seq<Option<string>>): (rs: seq<Record>)
    ensures Paths(rs) == Paths(acc) + FileHeaders(files)
    decreases |files|
  {
    if |files| == 0 then acc
    else
      var acc' := match files[0] case Some(t) => ParseFile(acc, t) case None => acc;
      var h := match files[0] case Some(t) => LineHeaders(SplitLines(t)) case None => [];
      assert Paths(acc') == Paths(acc) + h;
      ConcatAssoc(Paths(acc), h, FileHeaders(files[1..]));
      ParseFiles(acc', files[1..])
  }

  /** `parse_records(paths)`, given each path's content (or `None`): one
      record per header line of every readable file, in file order and then
      line order, each carrying the text between the brackets. */
  function ParseRecords(files: seq<Option<string>>): (rs: seq<Record>)
    ensures |rs| == |FileHeaders(files)|
    ensures forall i :: 0 <= i < |rs| ==> rs[i].imagePath == FileHeaders(files)[i]
  {
    var rs := ParseFiles([], files);
    PathsFromNothing(rs, FileHeaders(files));
    rs
  }

  /** Records whose paths, after none collected before, are `hs`. */
  lemma PathsFromNothing(rs: seq<Record>, hs: seq<string>)
    requires Paths(rs) == Paths([]) + hs
    ensures |rs| == |hs|
    ensures forall i :: 0 <= i < |rs| ==> rs[i].imagePath == hs[i]
  {
    assert Paths([]) + hs == hs;
    assert forall i :: 0 <= i < |rs| ==> Paths(rs)[i] == rs[i].imagePath;
  }

  // ---------------------------------------------------------------------
  // Header lines

  /** The header-line regex accepts exactly `[` path `]` followed by
      whitespace, for a path without `"\n"`. */
  lemma HeaderPathSound(line: string, p: string)
    requires HeaderPath(line) == Some(p)
    ensures '\n' !in p
    ensures line == "[" + p + "]" + line[|p| + 2..]
    ensures AllSpace(line[|p| + 2..])
  {
    var t := RStrip(line);
    assert line == t + line[|t|..];
    assert t == "[" + p + "]";
  }

  lemma HeaderPathComplete(p: string, ws: string)
    requires '\n' !in p && AllSpace(ws)
    ensures HeaderPath("[" + p + "]" + ws) == Some(p)
  {
    var line := "[" + p + "]" + ws;
    var n := TrailingSpaces(line);
    assert n == |ws| by {
      assert line[|line| - |ws|..] == ws;
      TrailingSpacesOfSpaceRun(line, |ws|);
    }
    assert RStrip(line) == "[" + p + "]";
  }

  /** `TrailingSpaces` counts exactly the whitespace run before a non-space. */
  lemma {:induction false} TrailingSpacesOfSpaceRun(s: string, k: nat)
    requires k < |s| && AllSpace(s[|s| - k..]) && !IsSpace(s[|s| - k - 1])
    ensures TrailingSpaces(s) == k
    decreases k
  {
    if k > 0 {
      var s' := s[..|s| - 1];
      assert s'[|s'| - (k - 1)..] == s[|s| - k..|s| - 1];
      assert s'[|s'| - (k - 1) - 1] == s[|s| - k - 1];
      TrailingSpacesOfSpaceRun(s', k - 1);
      assert IsSpace(s[|s| - 1]) by {
        assert s[|s| - 1] == s[|s| - k..][k - 1];
      }
    }
  }

  function LineHeaders(lines: seq<string>): seq<string>
    decreases |lines|
  {
    if |lines| == 0 then []
    else (match Classify(lines[0]) case Header(p) => [p] case _ => []) + LineHeaders(lines[1..])
  }

  /** The paths of all header lines of all readable files, in order. */
  function FileHeaders(files: seq<Option<string>>): seq<string>
    decreases |files|
  {
    if |files| == 0 then []
    else (match files[0] case Some(t) => LineHeaders(SplitLines(t)) case None => []) + FileHeaders(files[1..])
  }

  function Paths(rs: seq<Record>): (ps: seq<string>)
    ensures |ps| == |rs|
    ensures forall i :: 0 <= i < |rs| ==> ps[i] == rs[i].imagePath
  {
    seq(|rs|, i requires 0 <= i < |rs| => rs[i].imagePath)
  }

  lemma PathsAppend(a: seq<Record>, b: seq<Record>)
    ensures Paths(a + b) == Paths(a) + Paths(b)
  {
  }

  lemma StepPaths(st: State, raw: string)
    ensures Paths(Flush(Step(st, raw))) == Paths(Flush(st)) + (match Classify(raw) case Header(p) => [p] case _ => [])
  {
    match Classify(raw)
    case Header(p) =>
      PathsAppend(Flush(st), [Record(p, [])]);
    case _ =>
      if st.cur.Some? {
        PathsAppend(st.done, [st.cur.value]);
        PathsAppend(st.done, [Step(st, raw).cur.value]);
      }
  }

  lemma {:induction false} ParseLinesPaths(st: State, lines: seq<string>)
    ensures Paths(Flush(ParseLines(st, lines))) == Paths(Flush(st)) + LineHeaders(lines)
    decreases |lines|
  {
    if |lines| > 0 {
      StepPaths(st, lines[0]);
      ParseLinesPaths(Step(st, lines[0]), lines[1..]);
      var h := match Classify(lines[0]) case Header(p) => [p] case _ => [];
      ConcatAssoc(Paths(Flush(st)), h, LineHeaders(lines[1..]));
    }
  }

  // ---------------------------------------------------------------------
  // Line kinds, from the text of a line

  /** A line that opens with a character other than whitespace or `[`
      cannot be a header. */
  lemma NotHeader(line: string)
    requires |line| > 0 && !IsSpace(line[0]) && line[0] != '['
    ensures HeaderPath(line).None?
  {
    var n := TrailingSpaces(line);
    assert n < |line|;
    var t := RStrip(line);
    assert t[0] == line[0];
  }

  /** A line read from a dump has no `"\n"` to lose. */
  lemma NoNewlineKept(line: string)
    requires '\n' !in line
    ensures TrimEnd(line, '\n') == line
  {
    TrimEndFixed(line, '\n');
    if |line| > 0 { assert line[|line| - 1] in line; }
  }

  /** A line `[path]`, possibly followed by whitespace, is the header of
      `path`. */
  lemma ClassifyHeaderLine(p: string, ws: string)
    requires '\n' !in p && '\n' !in ws && AllSpace(ws)
    ensures Classify("[" + p + "]" + ws) == Header(p)
  {
    var line := "[" + p + "]" + ws;
    assert '\n' !in line by {
      forall i | 0 <= i < |line| ensures line[i] != '\n' {
        if 0 < i <= |p| { assert line[i] == p[i - 1]; }
        else if i > |p| + 1 { assert line[i] == ws[i - |p| - 2]; }
      }
    }
    NoNewlineKept(line);
    HeaderPathComplete(p, ws);
  }

  /** A line opening with `-- ` is a block marker. */
  lemma ClassifyMarkerLine(rest: string)
    requires '\n' !in rest
    ensures Classify("-- " + rest) == Marker
  {
    var line := "-- " + rest;
    assert '\n' !in line by {
      forall i | 0 <= i < |line| ensures line[i] != '\n' {
        if i >= 3 { assert line[i] == rest[i - 3]; }
      }
    }
    NoNewlineKept(line);
    NotHeader(line);
    assert line[..3] == "-- ";
  }

  /** A line `color: v`, `text: v`, `trans: v` or `coords: v` sets that
      field to `v` stripped. */
  lemma ClassifyFieldLine(f: Field, rest: string)
    requires '\n' !in rest
    ensures Classify(Prefix(f) + rest) == FieldLine(f, Strip(rest))
  {
    var line := Prefix(f) + rest;
    FieldLineIsPlain(f, rest, line);
    FieldLinePrefix(f, rest, line);
  }

  lemma FieldLineIsPlain(f: Field, rest: string, line: string)
    requires '\n' !in rest && line == Prefix(f) + rest
    ensures TrimEnd(line, '\n') == line
    ensures HeaderPath(line).None? && !StartsWith(line, "-- ")
  {
    var pre := Prefix(f);
    assert '\n' !in line by {
      forall i | 0 <= i < |line| ensures line[i] != '\n' {
        if i >= |pre| { assert line[i] == rest[i - |pre|]; } else { assert line[i] == pre[i]; }
      }
    }
    NoNewlineKept(line);
    assert line[0] == pre[0];
    NotHeader(line);
  }

  lemma FieldLinePrefix(f: Field, rest: string, line: string)
    requires line == Prefix(f) + rest
    requires TrimEnd(line, '\n') == line
    requires HeaderPath(line).None? && !StartsWith(line, "-- ")
    ensures Classify(line) == FieldLine(f, Strip(rest))
  {
    PrefixFacts(f, rest, line);
    ClassifyByPrefix(f, line);
  }

  /** A line made of a field prefix and a value starts with that prefix
      and with no prefix tried before it. */
  lemma PrefixFacts(f: Field, rest: string, line: string)
    requires line == Prefix(f) + rest
    ensures StartsWith(line, Prefix(f)) && line[|Prefix(f)|..] == rest
    ensures f != Color ==> !StartsWith(line, Prefix(Color))
    ensures f == Trans || f == Coords ==> !StartsWith(line, Prefix(Text))
    ensures f == Coords ==> !StartsWith(line, Prefix(Trans))
  {
    var pre := Prefix(f);
    assert line[..|pre|] == pre && line[|pre|..] == rest;
    match f
    case Color =>
    case Text =>
      DiffersAt(line, Prefix(Color), 0);
    case Trans =>
      DiffersAt(line, Prefix(Color), 0);
      DiffersAt(line, Prefix(Text), 1);
    case Coords =>
      DiffersAt(line, Prefix(Color), 2);
      DiffersAt(line, Prefix(Text), 0);
      DiffersAt(line, Prefix(Trans), 0);
  }

  /** The prefix chain of `Classify`: the first field prefix a plain line
      starts with decides its kind. */
  lemma ClassifyByPrefix(f: Field, line: string)
    requires TrimEnd(line, '\n') == line
    requires HeaderPath(line).None? && !StartsWith(line, "-- ")
    requires StartsWith(line, Prefix(f))
    requires f != Color ==> !StartsWith(line, Prefix(Color))
    requires f == Trans || f == Coords ==> !StartsWith(line, Prefix(Text))
    requires f == Coords ==> !StartsWith(line, Prefix(Trans))
    ensures Classify(line) == FieldLine(f, Strip(line[|Prefix(f)|..]))
  {
    assert |line| >= |Prefix(f)| > 0;
  }

  /** A string that differs from `p` at a position both have does not
      start with `p`. */
  lemma DiffersAt(s: string, p: string, i: nat)
    requires i < |p| && i < |s| && s[i] != p[i]
    ensures !StartsWith(s, p)
  {
    if |p| <= |s| { assert s[..|p|][i] == s[i]; }
  }

  // ---------------------------------------------------------------------
  // Files are parsed independently

  lemma StepShift(d: seq<Record>, e: seq<Record>, c: Option<Record>, raw: string)
    ensures Step(State(d + e, c), raw) == State(d + Step(State(e, c), raw).done, Step(State(e, c), raw).cur)
  {
    match Classify(raw)
    case Header(p) =>
      assert Flush(State(d + e, c)) == d + Flush(State(e, c));
    case _ =>
  }

  lemma {:induction false} ParseLinesShift(d: seq<Record>, e: seq<Record>, c: Option<Record>, lines: seq<string>)
    ensures ParseLines(State(d + e, c), lines)
         == State(d + ParseLines(State(e, c), lines).done, ParseLines(State(e, c), lines).cur)
    decreases |lines|
  {
    if |lines| > 0 {
      StepShift(d, e, c, lines[0]);
      var st := Step(State(e, c), lines[0]);
      ParseLinesShift(d, st.done, st.cur, lines[1..]);
    }
  }

  lemma ParseFileShift(acc: seq<Record>, text: string)
    ensures ParseFile(acc, text) == acc + ParseFile([], text)
  {
    ParseLinesShift(acc, [], None, SplitLines(text));
    assert acc + [] == acc;
  }

  lemma {:induction false} ParseFilesShift(acc: seq<Record>, files: seq<Option<string>>)
    ensures ParseFiles(acc, files) == acc + ParseFiles([], files)
    decreases |files|
  {
    if |files| > 0 {
      match files[0]
      case Some(t) =>
        var p, rest := ParseFile([], t), ParseFiles([], files[1..]);
        ParseFileShift(acc, t);
        ParseFilesShift(ParseFile(acc, t), files[1..]);
        ParseFilesShift(p, files[1..]);
        assert ParseFiles(acc, files) == (acc + p) + rest;
        assert ParseFiles([], files) == p + rest;
        ConcatAssoc(acc, p, rest);
      case None =>
        ParseFilesShift(acc, files[1..]);
        assert ParseFiles(acc, files) == ParseFiles(acc, files[1..]);
        assert ParseFiles([], files) == ParseFiles([], files[1..]);
    }
  }

  lemma {:induction false} ParseFilesAppend(acc: seq<Record>, f1: seq<Option<string>>, f2: seq<Option<string>>)
    ensures ParseFiles(acc, f1 + f2) == ParseFiles(ParseFiles(acc, f1), f2)
    decreases |f1|
  {
    if |f1| == 0 {
      assert f1 + f2 == f2;
    } else {
      assert (f1 + f2)[0] == f1[0] && (f1 + f2)[1..] == f1[1..] + f2;
      var acc' := match f1[0] case Some(t) => ParseFile(acc, t) case None => acc;
      ParseFilesAppend(acc', f1[1..], f2);
    }
  }

  /** The parser state is reset at each file end: the records of a list of
      files are the records of each file, concatenated, so no line of one
      file is ever attached to a record of an earlier file. */
  lemma FilesParseIndependently(f1: seq<Option<string>>, f2: seq<Option<string>>)
    ensures ParseRecords(f1 + f2) == ParseRecords(f1) + ParseRecords(f2)
  {
    ParseFilesAppend([], f1, f2);
    ParseFilesShift(ParseRecords(f1), f2);
  }

  // ---------------------------------------------------------------------
  // Lines before the first header

  lemma {:induction false} ParseLinesAppend(st: State, a: seq<string>, b: seq<string>)
    ensures ParseLines(st, a + b) == ParseLines(ParseLines(st, a), b)
    decreases |a|
  {
    if |a| == 0 {
      assert a + b == b;
    } else {
      assert (a + b)[0] == a[0] && (a + b)[1..] == a[1..] + b;
      ParseLinesAppend(Step(st, a[0]), a[1..], b);
    }
  }

  lemma {:induction false} NoHeaderNoRecord(d: seq<Record>, pre: seq<string>)
    requires LineHeaders(pre) == []
    ensures ParseLines(State(d, None), pre) == State(d, None)
    decreases |pre|
  {
    if |pre| > 0 {
      assert !Classify(pre[0]).Header?;
      NoHeaderNoRecord(d, pre[1..]);
    }
  }

  /** Lines that come before the first header of a file are ignored. */
  lemma LinesBeforeHeaderIgnored(done: seq<Record>, pre: seq<string>, rest: seq<string>)
    requires LineHeaders(pre) == []
    ensures ParseLines(State(done, None), pre + rest) == ParseLines(State(done, None), rest)
  {
    ParseLinesAppend(State(done, None), pre, rest);
    NoHeaderNoRecord(done, pre);
  }

  // ---------------------------------------------------------------------
  // Items of the open record

  /** A `-- ` line appends exactly one new, empty item. */
  lemma MarkerAppendsEmptyItem(d: seq<Record>, r: Record, raw: string)
    requires Classify(raw) == Marker
    ensures Step(State(d, Some(r)), raw) == State(d, Some(Record(r.imagePath, r.items + [EmptyItem])))
  {
  }

  /** A field line sets that field, and only that field, of the last item,
      creating the item first when the record has none. */
  lemma FieldLineSetsOnlyThatField(d: seq<Record>, r: Record, raw: string, f: Field, v: string)
    requires Classify(raw) == FieldLine(f, v)
    ensures var st := Step(State(d, Some(r)), raw);
      && st.done == d && st.cur.Some?
      && st.cur.value.imagePath == r.imagePath
      && |st.cur.value.items| == (if |r.items| == 0 then 1 else |r.items|)
      && (forall i :: 0 <= i < |r.items| - 1 ==> st.cur.value.items[i] == r.items[i])
      && st.cur.value.items[|st.cur.value.items| - 1]
           == SetField(if |r.items| == 0 then EmptyItem else r.items[|r.items| - 1], f, v)
  {
    var its := WithItem(r.items);
    var last := |its| - 1;
    var items := its[last := SetField(its[last], f, v)];
    assert Step(State(d, Some(r)), raw) == State(d, Some(r.(items := items)));
  }

  /** Setting a field twice keeps the later value. */
  lemma RepeatedFieldOverwrites(it: Item, f: Field, a: string, b: string)
    ensures SetField(SetField(it, f, a), f, b) == SetField(it, f, b)
  {
  }

  /** Any other line leaves every existing item as it was; it only creates
      the first item of a record that has none. */
  lemma OtherLineKeepsItems(d: seq<Record>, r: Record, raw: string)
    requires Classify(raw) == Other
    ensures var st := Step(State(d, Some(r)), raw);
      && st.done == d && st.cur.Some?
      && st.cur.value.imagePath == r.imagePath
      && st.cur.value.items == (if |r.items| == 0 then [EmptyItem] else r.items)
  {
  }

  function MarkerCount(lines: seq<string>): nat
    decreases |lines|
  {
    if |lines| == 0 then 0 else (if Classify(lines[0]) == Marker then 1 else 0) + MarkerCount(lines[1..])
  }

  /** Some field or other content line comes before the first `-- ` line. */
  predicate ContentBeforeMarker(lines: seq<string>)
    decreases |lines|
  {
    |lines| > 0 &&
    match Classify(lines[0])
    case Blank => ContentBeforeMarker(lines[1..])
    case Marker => false
    case _ => true
  }

  /** Within one record, the item count grows by one per `-- ` line, plus
      one when content arrives while the record still has no item; items
      before the last one that existed are never touched. */
  lemma {:induction false} ItemCount(d: seq<Record>, r: Record, lines: seq<string>)
    requires LineHeaders(lines) == []
    ensures var st := ParseLines(State(d, Some(r)), lines);
      && st.done == d && st.cur.Some?
      && st.cur.value.imagePath == r.imagePath
      && |st.cur.value.items| == |r.items| + MarkerCount(lines)
                                 + (if |r.items| == 0 && ContentBeforeMarker(lines) then 1 else 0)
      && forall i :: 0 <= i < |r.items| - 1 ==> st.cur.value.items[i] == r.items[i]
    decreases |lines|
  {
    if |lines| > 0 {
      var st1 := Step(State(d, Some(r)), lines[0]);
      assert !Classify(lines[0]).Header?;
      assert st1.done == d && st1.cur.Some? && st1.cur.value.imagePath == r.imagePath;
      ItemCount(d, st1.cur.value, lines[1..]);
    }
  }
}
