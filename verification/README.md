# OCR text round trip of manga-image-translator-wrapper, in Dafny

This project models the text round trip of manga-image-translator-wrapper
and the small helpers of its Naver Webtoon downloader:

- `scripts/text_aggregate.py` reads the OCR dumps the translator writes:
  a `[path]` header per image, `-- n --` block markers, and
  `color:`/`text:`/`trans:`/`coords:` field lines (`parse_records`). It
  normalizes each text, counts the distinct texts and writes
  `unique_lines.txt`, one `count<TAB>text` line each, most frequent first
  and alphabetical among equals (`write_outputs`).
- `scripts/llm_translate_mapping.py` reads that list back, along with a
  file holding one translated line per entry. It pairs the two line by
  line, padding or truncating the translations (`load_unique_pairs`). It
  then gives every item of every image the translation of its normalized
  text (`build_per_image`).
- `scripts/grab_webtoon.py` contributes:
  - the desktop-to-mobile rewrite of episode URLs (`normalize_naver_url`);
  - the extension guessed from an image URL (`infer_ext`);
  - the test that a response is really an image (`is_image_bytes`);
  - the zero-padded page file names of `download_images`;
  - `slugify`;
  - the composition of the chapter label at the end of
    `parse_chapter_label`.

Modules, one per concern:

| module | file | models |
|---|---|---|
| `Optional` | optional.dfy | a value that may be missing (`dict.get`, a missing header) |
| `Strings` | strings.dfy | `find`, `split`, `rstrip(c)`, ASCII `lower`, `str(n)`, code-point order |
| `Whitespace` | whitespace.dfy | `str.isspace`, `strip`, `re.sub(r"\s+", " ", ...)`, `split()`, `normalize` |
| `Lines` | lines.dfy | `str.splitlines()`, reading a text-mode file line by line, writing lines |
| `DumpParser` | dump_parser.dfy | `parse_records` |
| `UniqueLines` | unique_lines.dfy | the counter, the sort and the lines of `unique_lines.txt` |
| `Mapping` | mapping.dfy | `load_unique_pairs`, `Path(p).name`, `build_per_image`, the whole round trip |
| `NaverUrl` | naver_url.dfy | `normalize_naver_url`, `infer_ext` |
| `ImageBytes` | image_bytes.dfy | `is_image_bytes` |
| `PageNames` | page_names.dfy | the page file names of `download_images` |
| `Slug` | slug.dfy | `slugify` and the chapter label |

All operations are pure functions over `string` (`seq<char>`) and
`seq<byte>`.

Reading files, HTTP and `urlparse` are outside the model; their results
come in as parameters:
- a file's content is a string, or `None` when it cannot be read;
- `urlparse` is given as its six fields;
- the content type is an `Option<string>`.

## Where the code and its description differ

The model follows the code in each of these cases.

- **Order of `unique_lines.txt`.** The code sorts by descending count and
  then by text in code-point order (`key=lambda x: (-x[1], x[0])`). It
  does not keep first-occurrence order. `UniqueLines.UniqueListOrder`
  states the order the code produces.
- **Short translation files.** When the translation file is shorter than
  the list, the code pads it with empty strings, not with the source texts.
  A text whose translation line is missing is therefore mapped to `""`
  (`Mapping.LoadUniquePairsOfList`).

## Model

| member | source | states |
|---|---|---|
| Whitespace.Strip | scripts/text_aggregate.py:66 | the result neither starts nor ends with whitespace, is never longer than the input, and is empty exactly when the input is all whitespace |
| Whitespace.StripOfTrimmed | scripts/llm_translate_mapping.py:39 | `strip()` leaves a text that has no whitespace at either end unchanged |
| Whitespace.StripOfPadded | scripts/text_aggregate.py:66 | `strip()` of a text padded with whitespace on both sides gives back the text itself when it has no whitespace at either end |
| Whitespace.Collapse | scripts/text_aggregate.py:80 | after `re.sub(r"\s+", " ", s)` every whitespace character is a single space with no neighbour of its kind; the result is empty exactly when the input is, and it starts (ends) with whitespace exactly when the input does |
| Whitespace.Normalize | scripts/text_aggregate.py:79-80 | `normalize` yields a string with no whitespace at either end and only single spaces inside, empty exactly when the input is all whitespace |
| Whitespace.NormalizeIsJoinedWords | scripts/llm_translate_mapping.py:54-56 | `normalize(s)` equals `" ".join(s.split())`, an independent definition of the same function |
| Whitespace.WordsShape | scripts/text_aggregate.py:80 | every whitespace-separated word is non-empty and holds no whitespace |
| Whitespace.WordsOfCollapse | scripts/text_aggregate.py:80 | collapsing whitespace runs keeps the words of the string, in order |
| Whitespace.WordsOfStrip | scripts/text_aggregate.py:80 | stripping keeps the words of the string, in order |
| Whitespace.JoinOfNormalWords | scripts/text_aggregate.py:79-80 | a normalized string is the space-join of its words |
| Whitespace.NormalizeIdempotent | scripts/llm_translate_mapping.py:54-56 | normalizing twice gives the same result as normalizing once, so the key under which a text is counted is the key under which it is looked up |
| Whitespace.NormalFixedPoint | scripts/text_aggregate.py:79-80 | a string with `normalize`'s output shape is its own normal form |
| Strings.IndexOf | scripts/llm_translate_mapping.py:37 | the index is that of the first occurrence, or the length when there is none |
| Strings.SplitOn | scripts/llm_translate_mapping.py:64 | `split(c)` gives at least one part, and no part holds `c`; a string without `c` splits into itself alone |
| Strings.SplitOnAppend | scripts/llm_translate_mapping.py:64 | splitting `dir + c + name` on `c` splits `dir` and appends `name` |
| Strings.TrimEnd | scripts/text_aggregate.py:43 | `rstrip(c)` returns a prefix; everything it drops is `c`, and the prefix does not end with `c` |
| Strings.TrimEndFixed | scripts/grab_webtoon.py:204 | `rstrip(c)` changes nothing exactly when the string does not end with `c` |
| Strings.NatToString | scripts/text_aggregate.py:96 | `str(n)` is a non-empty run of decimal digits, with no leading zero unless `n` is 0 |
| Strings.NatToStringValue | scripts/text_aggregate.py:96 | `str(n)` reads back as `n` |
| Strings.DigitOrderIsNumericOrder | scripts/grab_webtoon.py:169-173 | two equally long digit strings compare as strings exactly as their numbers compare (both directions) |
| Strings.LeadingZerosValue | scripts/grab_webtoon.py:173 | zeros in front of digits do not change their value |
| Strings.LexLessTransitive | scripts/text_aggregate.py:93 | string order, as `sorted` uses it, is transitive |
| Strings.LexLessTotal | scripts/text_aggregate.py:93 | of two different strings one sorts before the other |
| Strings.Lower | scripts/grab_webtoon.py:78 | lower-casing maps each ASCII capital to its small letter and keeps every other character |
| Lines.SplitLines | scripts/text_aggregate.py:42 | no line `splitlines()` returns holds a line boundary |
| Lines.SplitLinesOfTerminated | scripts/text_aggregate.py:42 | lines written one per `"\n"` are read back unchanged by `splitlines()` |
| Lines.UniversalNewlines | scripts/llm_translate_mapping.py:31-32 | a text-mode read leaves no `"\r"` and changes nothing in a text without one |
| Lines.UniversalNewlinesPlain | scripts/llm_translate_mapping.py:31-32 | a text-mode read passes a stretch without `"\r"` through unchanged, whatever follows it |
| Lines.UniversalNewlinesCRLF | scripts/llm_translate_mapping.py:31-32 | a text-mode read turns `"\r\n"` into one `"\n"` |
| Lines.UniversalNewlinesCR | scripts/llm_translate_mapping.py:31-32 | a text-mode read turns a lone `"\r"` into `"\n"` |
| Lines.UniversalNewlinesOfTerminatedBy | scripts/llm_translate_mapping.py:31-32 | lines ended by `"\r\n"`, `"\r"` or `"\n"` read as the same text as the lines ended by `"\n"` |
| Lines.FileLinesOfAnyEnding | scripts/llm_translate_mapping.py:40-41 | lines written with `"\r\n"` or `"\r"` endings are read back unchanged from a text-mode file |
| Lines.FileLines | scripts/llm_translate_mapping.py:40-41 | each line read from a text-mode file is free of `"\n"` and `"\r"` |
| Lines.FileLinesOfTerminated | scripts/llm_translate_mapping.py:40-41 | lines written one per `"\n"` come back unchanged from a text-mode read when none holds `"\n"` or `"\r"` |
| DumpParser.SetField | scripts/text_aggregate.py:64-72 | assigning one field of an item sets it and leaves the other three fields as they were |
| DumpParser.HeaderPath | scripts/text_aggregate.py:34 | a captured path holds no `"\n"`, and the line opens with `[`, the path and `]` |
| DumpParser.Classify | scripts/text_aggregate.py:65-72 | the value of a field line has no whitespace at either end |
| DumpParser.NotHeader | scripts/text_aggregate.py:34 | a line that opens with neither whitespace nor `[` is no header |
| DumpParser.ClassifyHeaderLine | scripts/text_aggregate.py:34-53 | `[path]` followed by whitespace is read as a header carrying `path` |
| DumpParser.ClassifyMarkerLine | scripts/text_aggregate.py:59-61 | a line opening with `-- ` is a block marker |
| DumpParser.ClassifyFieldLine | scripts/text_aggregate.py:65-72 | a line `color: `, `text: `, `trans: ` or `coords: ` followed by a value sets that field to the stripped value |
| DumpParser.PrefixFacts | scripts/text_aggregate.py:65-72 | a field line starts with its own prefix and with none of the prefixes tested before it |
| DumpParser.Step | scripts/text_aggregate.py:43-72 | only a header closes or opens a record; a line before the first header changes nothing; any other line keeps the open record's path and never removes an item |
| DumpParser.HeaderPathSound | scripts/text_aggregate.py:34 | a line the header pattern accepts is `[`, a path without `"\n"`, `]` and then only whitespace |
| DumpParser.HeaderPathComplete | scripts/text_aggregate.py:34 | every line of that shape is accepted, and its path is captured |
| DumpParser.ParseRecords | scripts/text_aggregate.py:32-76 | there is one record per header line of every readable file, in file order, carrying that header's path |
| DumpParser.ParseFiles | scripts/text_aggregate.py:36-41 | the image paths of the records are the header paths of the readable files, after those already collected; an unreadable file adds none |
| DumpParser.ParseFile | scripts/text_aggregate.py:42-75 | one file adds one record per header line, in line order, after the records already collected |
| DumpParser.FilesParseIndependently | scripts/text_aggregate.py:73-75 | the parser is reset at the end of each file: the records of two lists of files are the records of each list, concatenated |
| DumpParser.ParseLinesAppend | scripts/text_aggregate.py:42 | the lines of a file are folded one at a time |
| DumpParser.LinesBeforeHeaderIgnored | scripts/text_aggregate.py:55-57 | lines before the first header of a file change nothing |
| DumpParser.MarkerAppendsEmptyItem | scripts/text_aggregate.py:59-61 | a `-- ` line appends exactly one new, empty item to the open record |
| DumpParser.FieldLineSetsOnlyThatField | scripts/text_aggregate.py:62-72 | a field line sets that field of the last item, creating the item when the record has none, and changes nothing else |
| DumpParser.RepeatedFieldOverwrites | scripts/text_aggregate.py:64-72 | a field set twice keeps the later value |
| DumpParser.OtherLineKeepsItems | scripts/text_aggregate.py:62-63 | any other line only creates the first item of a record that has none |
| DumpParser.ItemCount | scripts/text_aggregate.py:59-72 | within a record, the number of items is the number of `-- ` lines, plus one when content arrives before the first of them; earlier items are never touched |
| UniqueLines.ItemKey | scripts/text_aggregate.py:90 | the key of an item is in normal form |
| UniqueLines.NonEmpty | scripts/text_aggregate.py:92 | the filter keeps exactly the non-empty texts, each as many times as it occurred |
| UniqueLines.CountedAreKeys | scripts/text_aggregate.py:90-92 | the texts counted are exactly the non-empty normalized item texts, record by record and item by item |
| UniqueLines.Bump | scripts/text_aggregate.py:92 | counting one more occurrence adds its text when new and raises the total by one |
| UniqueLines.BumpCount | scripts/text_aggregate.py:92 | counting `x` adds one to the count of `x` and to no other |
| UniqueLines.Tally | scripts/text_aggregate.py:92 | `Counter` keeps one entry per distinct text, whose count is the text's number of occurrences, and the counts add up to the input length |
| UniqueLines.RankedTransitive | scripts/text_aggregate.py:93 | the order of the sort key is transitive |
| UniqueLines.RankedAntisymmetric | scripts/text_aggregate.py:93 | two entries with equal sort keys are equal |
| UniqueLines.Insert | scripts/text_aggregate.py:93 | insertion keeps the list sorted and adds exactly the new entry |
| UniqueLines.InsertTexts | scripts/text_aggregate.py:93 | insertion adds one text and its count to the list and removes none |
| UniqueLines.SortEntries | scripts/text_aggregate.py:93 | the sort returns a sorted permutation of its input, and keeps texts, totals and distinctness |
| UniqueLines.SortedPermutationUnique | scripts/text_aggregate.py:93 | two sorted permutations of the same entries are equal, so the list does not depend on the order the counter met its texts |
| UniqueLines.UniqueList | scripts/text_aggregate.py:89-93 | the list is sorted, holds each text once, and its texts are exactly the non-empty item keys |
| UniqueLines.StrictlyOrdered | scripts/text_aggregate.py:93 | in the sorted counter, of two positions the earlier has the higher count, or the same count and the smaller text |
| UniqueLines.UniqueListCounts | scripts/text_aggregate.py:89-93 | each distinct non-empty item key appears exactly once, with the number of items carrying it; nothing else appears, and the counts add up to the number of such items |
| UniqueLines.UniqueListTexts | scripts/text_aggregate.py:90-93 | every listed text is non-empty and normalized |
| UniqueLines.UniqueListOrder | scripts/text_aggregate.py:93 | the list is ordered by descending count and then by ascending text, and it is the only sorted arrangement of its entries |
| UniqueLines.FormatLine | scripts/text_aggregate.py:96 | a written line is decimal digits, then a tab and the text at its end |
| UniqueLines.RenderUnique | scripts/text_aggregate.py:94-96 | reading `unique_lines.txt` back in text mode gives one line per entry, in order, when every text is normal |
| UniqueLines.FormatLinesPlain | scripts/text_aggregate.py:96 | no written line holds `"\n"` or `"\r"` |
| UniqueLines.FormatLineParses | scripts/text_aggregate.py:96 | a written line is the count's digits, a tab and the text: its first tab follows the digits, which read back as the count |
| UniqueLines.NormalHasNoControl | scripts/text_aggregate.py:96 | a normalized text holds no tab, newline or carriage return, so each entry stays on one line |
| Mapping.SourceText | scripts/llm_translate_mapping.py:37-39 | the text taken from a line has no whitespace at either end and is no longer than the line |
| Mapping.SourceTextAfterTab | scripts/llm_translate_mapping.py:37-39 | on a line with a tab, the text is what follows the first tab, stripped |
| Mapping.SourceTextWithoutTab | scripts/llm_translate_mapping.py:37-39 | on a line without a tab, the text is the whole line, stripped |
| Mapping.SourceTexts | scripts/llm_translate_mapping.py:32-39 | one text per non-empty line: never more texts than lines, and as many when no line is empty |
| Mapping.SourceTextsOfLine | scripts/llm_translate_mapping.py:34-39 | an empty line gives no text, any other line gives its one text |
| Mapping.SourceTextsAppend | scripts/llm_translate_mapping.py:32-39 | the texts of two blocks of lines are the texts of each block, in order |
| Mapping.SourceTextOfFormatLine | scripts/llm_translate_mapping.py:37-39 | the text read from a written `count<TAB>text` line is the text written |
| Mapping.ReadBackUnique | scripts/llm_translate_mapping.py:30-39 | reading `unique_lines.txt` back gives its texts in order |
| Mapping.Align | scripts/llm_translate_mapping.py:42-50 | the translations are brought to the list's length: existing lines keep their position and missing ones are empty |
| Mapping.ZipToMap | scripts/llm_translate_mapping.py:51 | every key is bound, to the value paired with its last occurrence |
| Mapping.LoadUniquePairs | scripts/llm_translate_mapping.py:29-51 | the map binds every source text, to the translation line at the position of its last occurrence, or to `""` past the end of the translation file |
| Mapping.ReadBackMap | scripts/llm_translate_mapping.py:29-51 | the map read back from a written list pairs the list's texts with the aligned translation lines |
| Mapping.LoadUniquePairsOfList | scripts/llm_translate_mapping.py:29-51 | for a written list of distinct texts, the map binds exactly those texts, each to the translation line at its own position or to `""` past the end of the file |
| Mapping.Basename | scripts/llm_translate_mapping.py:64 | `Path(p).name` holds no `/` and is not `.`; a bare file name other than `.` is its own name |
| Mapping.BasenameOfJoin | scripts/llm_translate_mapping.py:64 | the name of `dir/name` is `name`, whatever the directory |
| Mapping.TranslateItem | scripts/llm_translate_mapping.py:67-72 | an item's translation is `""` or one of the map's translations |
| Mapping.TranslateItemSpec | scripts/llm_translate_mapping.py:66-72 | an item without text gets `""`; an item whose key is mapped gets the mapped line; an unmapped key gets `""` |
| Mapping.TranslateItems | scripts/llm_translate_mapping.py:65-72 | one translation per item, at the item's position |
| Mapping.BuildPerImage | scripts/llm_translate_mapping.py:59-74 | the images named are exactly the names of the records, and each gets the array of the last record with that name |
| Mapping.EqualKeysSameTranslation | scripts/llm_translate_mapping.py:63-73 | two items with the same normalized text get the same translation, in one image's array or in two, and each array is as long as its record's item list |
| Mapping.PerImageOfList | scripts/llm_translate_mapping.py:59-74 | an item gets, at its own position, `""` when it has no text, or else the translation line at its text's position in the list, or `""` past the end of the translation file |
| Mapping.PipelineRoundTrip | scripts/text_aggregate.py:89-96 | from dump to per-image arrays, an item without text gets `""`; any other item gets the translation line at the position of its normalized text in `unique_lines.txt`, or `""` when the file is short |
| Mapping.EveryKeyListed | scripts/text_aggregate.py:90-93 | every non-empty key of the dump has a position in the unique list |
| NaverUrl.MobileParts | scripts/grab_webtoon.py:81-82 | the rewrite changes only the host, to the mobile one, and fills an empty scheme with `https` |
| NaverUrl.UnparsePath | scripts/grab_webtoon.py:82 | the rebuilt path is empty or opens with `/`, and is empty only when path and params both are |
| NaverUrl.Tagged | scripts/grab_webtoon.py:82 | a query or fragment is written after its `?` or `#`, and not at all when empty |
| NaverUrl.Unparse | scripts/grab_webtoon.py:82 | the rebuilt URL starts with `scheme://host`; `NaverUrl.UnparseHost` and `NaverUrl.UnparseQuery` read its host and query back |
| NaverUrl.HostLength | scripts/grab_webtoon.py:77 | the host runs up to the first `/`, `?` or `#` |
| NaverUrl.UrlHost | scripts/grab_webtoon.py:77-78 | the host read from a URL holds no `/`, `?` or `#` |
| NaverUrl.UrlQuery | scripts/grab_webtoon.py:77 | the query read from a URL holds no `#` |
| NaverUrl.HostOf | scripts/grab_webtoon.py:77-78 | the host read from `scheme://host` followed by a path, query or fragment is `host` |
| NaverUrl.ColonAfterScheme | scripts/grab_webtoon.py:77 | the first `:` of `scheme://...` is the one after the scheme |
| NaverUrl.QueryOf | scripts/grab_webtoon.py:77 | the query read from a URL is what lies between its first `?` and its first `#` |
| NaverUrl.UnparseHost | scripts/grab_webtoon.py:77-82 | `urlparse` reads back the host `urlunparse` wrote |
| NaverUrl.UnparseQuery | scripts/grab_webtoon.py:77-82 | `urlparse` reads back the query `urlunparse` wrote |
| NaverUrl.MobileWellFormed | scripts/grab_webtoon.py:81-82 | the rewritten fields are still fields `urlparse` can return |
| NaverUrl.NormalizeNaverUrl | scripts/grab_webtoon.py:72-86 | a URL is rewritten exactly when its lower-cased host ends in `comic.naver.com`, does not start with `m.`, and its path holds `/webtoon/detail`; the rewrite is `urlunparse` of the fields with the mobile host; otherwise, or when parsing fails, the URL comes back unchanged with the flag false |
| NaverUrl.NormalizeNaverUrlIdempotent | scripts/grab_webtoon.py:77-84 | the host `urlparse` reads from a rewritten URL is `m.comic.naver.com`, so a second pass returns that URL unchanged |
| NaverUrl.MobileHostKept | scripts/grab_webtoon.py:79 | a URL whose host is `m.comic.naver.com` is never rewritten |
| NaverUrl.DesktopDetailRewritten | scripts/grab_webtoon.py:77-83 | a desktop episode URL, in any letter case of the host, is rewritten; `urlparse` reads the mobile host and the original query back from the result |
| NaverUrl.InferExt | scripts/grab_webtoon.py:142-147 | the result is one of the four known extensions or the fallback |
| NaverUrl.InferExtSpec | scripts/grab_webtoon.py:142-147 | the extension returned is one the lower-cased path ends with; the fallback comes back exactly when none matches |
| NaverUrl.ExtsExclusive | scripts/grab_webtoon.py:144 | no path ends with two of the known extensions, so the order they are tried in does not matter |
| ImageBytes.Take | scripts/grab_webtoon.py:153 | `data[:n]` is the first `min(n, len)` bytes |
| ImageBytes.LStripBytes | scripts/grab_webtoon.py:158 | `bytes.lstrip()` drops exactly the leading ASCII whitespace |
| ImageBytes.IsImageBytes | scripts/grab_webtoon.py:150-158 | the bytes are accepted exactly when the content type declares an image or the data opens with the JPEG, PNG or RIFF signature (RIFF with `WEBP` in its first 64 bytes); markup is refused without an image content type |
| ImageBytes.SignatureOnPrefix | scripts/grab_webtoon.py:153-157 | testing a signature on `data[:16]` is testing it on the data |
| ImageBytes.MagicExcludesMarkup | scripts/grab_webtoon.py:154-158 | data that carries an image signature never looks like markup |
| ImageBytes.ErrorPageRefused | scripts/grab_webtoon.py:158 | an HTML or JSON body, possibly after some whitespace, is refused without an image content type |
| ImageBytes.LStripSkipsSpaces | scripts/grab_webtoon.py:158 | `lstrip` removes exactly the whitespace before the first other byte |
| PageNames.Width | scripts/grab_webtoon.py:168-169 | the width is at least 3 and at least the digit count of the page total, and it is one of the two |
| PageNames.ZeroPad | scripts/grab_webtoon.py:173 | the padded number is all digits, as long as the width or as its own digits when they are longer |
| PageNames.ZeroPadValue | scripts/grab_webtoon.py:173 | the padded digits read back as the page number |
| PageNames.PageNumberWidth | scripts/grab_webtoon.py:168-173 | no page number up to the total needs more than the width |
| PageNames.FileName | scripts/grab_webtoon.py:169-173 | the name of a page up to the total is exactly `pad` digits that read back as the page number, then the extension |
| PageNames.FileNamesInPageOrder | scripts/grab_webtoon.py:168-173 | the name of an earlier page sorts before that of a later page, whatever their extensions |
| PageNames.InferExtOfFileName | scripts/grab_webtoon.py:142-147 | guessing the extension of a saved name gives back the extension it was saved with |
| PageNames.PageFileNames | scripts/grab_webtoon.py:168-173 | page `k` is named by its padded number and the extension of its URL, and the names sort in page order |
| Slug.DashSeps | scripts/grab_webtoon.py:201 | after `re.sub(r"[\s_]+", "-", s)` no whitespace or underscore remains, and the letters and digits are kept |
| Slug.DashSepsOfPlain | scripts/grab_webtoon.py:201 | a text without whitespace or underscores is left as it is |
| Slug.DashSepsPrefix | scripts/grab_webtoon.py:201 | a stretch without whitespace or underscores in front passes through unchanged |
| Slug.DashSepsOfRun | scripts/grab_webtoon.py:201 | a whole run of whitespace and underscores at the front becomes a single dash |
| Slug.DashSepsJoin | scripts/grab_webtoon.py:201 | a run of whitespace and underscores between separator-free text and the rest becomes one dash, and nothing else in front changes |
| Slug.KeepSlugChars | scripts/grab_webtoon.py:202 | only letters, digits and dashes remain, and the letters and digits are kept; a text with none of them gives the empty string |
| Slug.KeepSlugCharsOfSlug | scripts/grab_webtoon.py:202 | letters, digits and dashes, dashes included, all survive the filter |
| Slug.KeepSlugCharsAppend | scripts/grab_webtoon.py:202 | the filter works character by character: what survives of `a + b` is what survives of `a`, then of `b` |
| Slug.CollapseDashes | scripts/grab_webtoon.py:203 | no two dashes stand side by side; the letters and digits are kept, and the result opens with a dash exactly when the input does |
| Slug.CollapseDashesOfSlug | scripts/grab_webtoon.py:203 | a text without two dashes side by side, single dashes between letters included, is left as it is |
| Slug.CollapseDashesPrefix | scripts/grab_webtoon.py:203 | a dash-free stretch in front passes through unchanged |
| Slug.CollapseDashesOfRun | scripts/grab_webtoon.py:203 | a whole run of dashes at the front becomes a single dash |
| Slug.CollapseDashesJoin | scripts/grab_webtoon.py:203 | a run of dashes between dash-free text and the rest becomes one dash |
| Slug.TrimDashes | scripts/grab_webtoon.py:204 | `strip("-")` leaves no dash at either end; the result is the slice of the input that starts after its leading dashes, and only dashes follow that slice; it keeps the shape of the input and all its letters and digits |
| Slug.TrimDashesOfSlug | scripts/grab_webtoon.py:204 | on a text that does not open with a dash, `strip("-")` only drops the dashes at its end |
| Slug.SlugCore | scripts/grab_webtoon.py:200-204 | before the cut the slug holds letters, digits and single dashes, with no dash at either end, and keeps every letter and digit of the title |
| Slug.Cut | scripts/grab_webtoon.py:204 | `[:80]` is a prefix of at most 80 characters that keeps the first letters and digits; a shorter text is kept whole and a longer one is cut to exactly 80 |
| Slug.SlugifyOfWords | scripts/grab_webtoon.py:200-204 | two words of letters and digits separated by whitespace or underscores slugify to the two words joined by one dash, when that fits in 80 characters |
| Slug.SlugifyOfDashedWords | scripts/grab_webtoon.py:200-204 | two words of letters and digits joined by a run of dashes slugify to the two words joined by one dash, when that fits in 80 characters |
| Slug.Slugify | scripts/grab_webtoon.py:200-204 | letters, digits and single dashes, no dash in front, at most 80 characters; a dash can end it only at length 80; its letters and digits are the title's first ones, all of them when it is shorter than 80 |
| Slug.SlugifyOfSlug | scripts/grab_webtoon.py:200-204 | on a slug-shaped string of at most 80 characters `slugify` only drops trailing dashes, and changes nothing exactly when there is none |
| Slug.SlugifyIdempotent | scripts/grab_webtoon.py:200-204 | `slugify(slugify(s))` is `slugify(s)` without its trailing dash; the two are equal exactly when `slugify(s)` does not end with a dash, and a third application changes nothing |
| Slug.CutCanEndWithDash | scripts/grab_webtoon.py:204 | 79 letters, a dash and one more character slugify to a slug that ends with the dash, and a second `slugify` drops it |
| Slug.DropNumberTail | scripts/grab_webtoon.py:256-257 | the result is a prefix; it is shorter exactly when the slug ends in a dash and digits, and then what goes is one dash and only digits |
| Slug.NumberTailFound | scripts/grab_webtoon.py:256 | where a dash followed only by digits closes the slug, the pattern `-\d+$` matches, at that dash |
| Slug.NumberTailAt | scripts/grab_webtoon.py:256 | a match of `-\d+$` sits on a dash followed by one or more digits up to the end |
| Slug.DropsOneNumberTail | scripts/grab_webtoon.py:256-257 | a title ending in two numbers keeps the first one |
| Slug.DropNumberTailOfSlug | scripts/grab_webtoon.py:256-257 | dropping the tail of a non-empty slug leaves a non-empty slug, and one that does not end with a dash when a tail was dropped |
| Slug.EpisodeSlug | scripts/grab_webtoon.py:254-257 | the label's slug is slug-shaped, at most 80 characters, a prefix of `slugify(base)`, empty exactly when that is empty, and for a non-empty base it is `slugify(base)` with its number tail dropped (`Slug.DropNumberTail`) |
| Slug.ChapterNo | scripts/grab_webtoon.py:258-259 | the episode number shown on the page wins when there is one; otherwise the `no` value is used; the chapter is empty only when both are |
| Slug.ComposeLabel | scripts/grab_webtoon.py:260-262 | the label is never empty; with a title id or a chapter it opens with `naver_`, the id, `_` and the chapter; without both it is the slug twice joined by `_`, or `episode` when there is no slug; it ends with `_` and the slug when there is one |
| Slug.SlugSeparators | scripts/grab_webtoon.py:260-262 | a slug holds neither `_` nor `/` |
| Slug.ChapterLabel | scripts/grab_webtoon.py:254-262 | the label is never empty and ends with `_` and the slug when there is one; with a title id or a chapter it opens with `naver_`, the id, `_` and the chapter, which is the page's episode number whenever the page shows one |
| Slug.LabelFields | scripts/grab_webtoon.py:259-262 | with a title id or a chapter number (neither holding `_`) the label splits on `_` into `naver`, the id, the chapter and the slug when present |
| Slug.LabelWithoutIds | scripts/grab_webtoon.py:259-262 | without id and chapter the label is `episode`, or the slug twice joined by `_` |
| Slug.LabelHasNoSlash | scripts/grab_webtoon.py:259-262 | the label holds a `/` only when the id or the chapter does |

## Left out

- File I/O is not modelled. This covers `Path.read_text` (the `errors="ignore"` decoding included), `open`, directory creation, the JSON dump and load of the records, and the two dictionary templates. File contents are parameters, and an unreadable file is `None`.
- The printed warnings and the command-line front ends are not modelled, because they have no effect on the data. This includes the padding message of `load_unique_pairs`, which computes its count after padding and so always reports 0.
- The network is not modelled: `fetch` with its retries and sleeps, `extract_image_urls` and the HTML scraping in `parse_chapter_label`. The label's inputs (`titleId`, `no`, the extracted episode number, the slug base) are plain strings.
- `urllib.parse.urlparse` and `parse_qs` are not modelled, because they are library code. Their results are inputs.
- `download_images` is modelled only for the names it gives the pages. Skipping existing files, saving and metadata are I/O.
- `build_per_image` is modelled on `image_path` only. The `image` fallback key belongs to JSON files the dump parser does not produce.
- Strings.Lower: lower-cases ASCII letters only. The host, path and content-type tests it serves compare against ASCII text only.
- NaverUrl.Unparse: modelled only for a non-empty host and scheme, which is all `normalize_naver_url` ever passes it. The rewrite supplies `m.comic.naver.com` and `https` when the scheme is empty. Of the rebuilt string, the host and the query are read back (`NaverUrl.UnparseHost`, `NaverUrl.UnparseQuery`); the kept path, params and fragment are stated on the fields only (`NaverUrl.MobileParts`).
- NaverUrl.UrlHost: reads the host as written. `urlparse` also checks the scheme's characters and handles IPv6 brackets; neither matters for the host read back here, which is `m.comic.naver.com`.
- NaverUrl.WellFormed: the read-back lemmas assume fields `urlparse` can return. The scheme holds no `:`, `/`, `?` or `#`, the host no `/`, `?` or `#`, the path and params no `?` or `#`, and the query no `#`.
- Mapping.Basename: models `PurePosixPath(p).name`. Windows drive and backslash handling are not modelled.
- Whitespace.IsSpace: the set of `str.isspace()`. It is taken to equal the `\s` class of Python's `re` on `str`.
- Slug.NumberTailFound: `\d` is read as an ASCII digit. This is exact here, because the slug holds ASCII characters only.

## Observations

Proving the contracts brought out four behaviours of the code. Each may be
intended, so none is claimed as a defect:

- **Redundant markup guard.** In `is_image_bytes` the guard against markup
  can never reject data that passed the signature test
  (`ImageBytes.MagicExcludesMarkup`).
- **The cut can leave a trailing dash.** `slugify` can return a slug that
  ends with `-` when the cut to 80 characters falls right after a dash
  (`Slug.CutCanEndWithDash`). For this reason `slugify` is idempotent only
  up to that dash (`Slug.SlugifyIdempotent`).
- **The slug is doubled.** Without a title id and a chapter number, the
  label repeats the slug: `<slug>_<slug>` (`Slug.LabelWithoutIds`).
- **Host test is a suffix test.** The host test is `endswith`, so a host
  such as `xcomic.naver.com` is rewritten too
  (`NaverUrl.NormalizeNaverUrl`).
