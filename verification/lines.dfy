/** How the scripts cut text into lines: `str.splitlines()` (used on each
    OCR dump) and iteration over a file opened in text mode (used on
    `unique_lines.txt` and the translated list), plus the writer side,
    where every line is followed by `"\n"`. */
module Lines {
  import opened Strings

  /** The line boundaries `str.splitlines()` recognises. */
  predicate IsLineBreak(c: char) {
    || c == '\n' || c == '\r' || c == '\U{B}' || c == '\U{C}'
    || ('\U{1C}' <= c <= '\U{1E}')
    || c == '\U{85}' || c == '\U{2028}' || c == '\U{2029}'
  }

  predicate NoLineBreak(s: string) {
    forall i :: 0 <= i < |s| ==> !IsLineBreak(s[i])
  }

  /** Index of the first line boundary in `s`, or `|s|`. */
  function FirstBreak(s: string): (i: nat)
    ensures i <= |s|
    ensures NoLineBreak(s[..i])
    ensures i < |s| ==> IsLineBreak(s[i])
  {
    if |s| == 0 || IsLineBreak(s[0]) then 0
    else
      var i := 1 + FirstBreak(s[1..]);
      assert s[..i] == [s[0]] + s[1..][..i - 1];
      i
  }

  /** `s.splitlines()`: lines without their terminators; `"\r\n"` counts
      as one boundary, and a final boundary does not open an empty line. */
  function SplitLines(s: string): (lines: seq<string>)
    ensures forall i :: 0 <= i < |lines| ==> NoLineBreak(lines[i])
    decreases |s|
  {
    if |s| == 0 then []
    else
      var i := FirstBreak(s);
      if i == |s| then
        assert s[..i] == s;
        [s]
      else
        var skip := if s[i] == '\r' && i + 1 < |s| && s[i + 1] == '\n' then 2 else 1;
        [s[..i]] + SplitLines(s[i + skip..])
  }

  /** What a writer produces from `lines` when it follows each with `"\n"`. */
  function Terminated(lines: seq<string>): string {
    if |lines| == 0 then [] else lines[0] + "\n" + Terminated(lines[1..])
  }

  /** Python's universal-newline translation when a file is read in text
      mode: `"\r\n"` and a lone `"\r"` both become `"\n"`. */
  function UniversalNewlines(s: string): (r: string)
    ensures '\r' !in r
    ensures '\r' !in s ==> r == s
  {
    if |s| == 0 then []
    else if s[0] == '\r' then
      "\n" + UniversalNewlines(if |s| > 1 && s[1] == '\n' then s[2..] else s[1..])
    else
      assert s == [s[0]] + s[1..];
      [s[0]] + UniversalNewlines(s[1..])
  }

  /** A stretch without `"\r"` passes the translation unchanged. */
  lemma {:induction false} UniversalNewlinesPlain(l: string, x: string)
    requires '\r' !in l
    ensures UniversalNewlines(l + x) == l + UniversalNewlines(x)
    decreases |l|
  {
    if |l| == 0 {
      assert l + x == x;
    } else {
      var s := l + x;
      assert l[0] in l;
      assert s[0] == l[0] && s[0] != '\r';
      assert UniversalNewlines(s) == [s[0]] + UniversalNewlines(s[1..]);
      assert s[1..] == l[1..] + x;
      UniversalNewlinesPlain(l[1..], x);
      ConcatAssoc([l[0]], l[1..], UniversalNewlines(x));
      assert [l[0]] + l[1..] == l;
    }
  }

  /** A line ended by `"\r\n"` reads as one ended by `"\n"`. */
  lemma UniversalNewlinesCRLF(l: string, rest: string)
    requires '\r' !in l
    ensures UniversalNewlines(l + "\r\n" + rest) == l + "\n" + UniversalNewlines(rest)
  {
    var x := "\r\n" + rest;
    assert l + "\r\n" + rest == l + x;
    UniversalNewlinesPlain(l, x);
    assert x[2..] == rest;
  }

  /** A line ended by a lone `"\r"` reads as one ended by `"\n"`. */
  lemma UniversalNewlinesCR(l: string, rest: string)
    requires '\r' !in l
    requires rest == [] || rest[0] != '\n'
    ensures UniversalNewlines(l + "\r" + rest) == l + "\n" + UniversalNewlines(rest)
  {
    var x := "\r" + rest;
    assert l + "\r" + rest == l + x;
    UniversalNewlinesPlain(l, x);
    assert x[1..] == rest;
  }

  /** Lines written each followed by `eol`. */
  function TerminatedBy(lines: seq<string>, eol: string): string {
    if |lines| == 0 then [] else lines[0] + eol + TerminatedBy(lines[1..], eol)
  }

  /** Lines ended by `"\r\n"`, `"\r"` or `"\n"` all translate to the
      same `"\n"`-ended text. */
  lemma {:induction false} UniversalNewlinesOfTerminatedBy(lines: seq<string>, eol: string)
    requires eol == "\r\n" || eol == "\r" || eol == "\n"
    requires forall i :: 0 <= i < |lines| ==> '\n' !in lines[i] && '\r' !in lines[i]
    ensures UniversalNewlines(TerminatedBy(lines, eol)) == Terminated(lines)
  {
    if |lines| > 0 {
      var l, rest := lines[0], TerminatedBy(lines[1..], eol);
      UniversalNewlinesOfTerminatedBy(lines[1..], eol);
      if eol == "\r\n" {
        UniversalNewlinesCRLF(l, rest);
      } else if eol == "\r" {
        if |lines| > 1 {
          if lines[1] != [] {
            assert rest[0] == lines[1][0];
            assert lines[1][0] in lines[1];
          } else {
            assert rest[0] == '\r';
          }
        }
        UniversalNewlinesCR(l, rest);
      } else {
        assert '\r' !in l + "\n";
        UniversalNewlinesPlain(l + "\n", rest);
      }
    }
  }

  /** A file whose lines end in `"\r\n"` or in `"\r"` reads back, line by
      line, as the same lines. */
  lemma FileLinesOfAnyEnding(lines: seq<string>, eol: string)
    requires eol == "\r\n" || eol == "\r"
    requires forall i :: 0 <= i < |lines| ==> '\n' !in lines[i] && '\r' !in lines[i]
    ensures FileLines(TerminatedBy(lines, eol)) == lines
  {
    UniversalNewlinesOfTerminatedBy(lines, eol);
    SplitAtNewlinesOfTerminated(lines);
  }

  /** Cut translated text after every `"\n"`, dropping the `"\n"`; text
      after the last `"\n"`, if any, is a last line of its own. */
  function SplitAtNewlines(s: string): (lines: seq<string>)
    ensures forall i :: 0 <= i < |lines| ==> '\n' !in lines[i]
    decreases |s|
  {
    if |s| == 0 then []
    else
      var i := IndexOf(s, '\n');
      if i == |s| then
        assert s[..i] == s;
        [s]
      else
        [s[..i]] + SplitAtNewlines(s[i + 1..])
  }

  /** `[l.rstrip('\n') for l in open(path)]` over a file whose content is
      `content`: each line loses exactly the one `"\n"` that ended it. */
  function FileLines(content: string): (lines: seq<string>)
    ensures forall i :: 0 <= i < |lines| ==> '\n' !in lines[i] && '\r' !in lines[i]
  {
    var t := UniversalNewlines(content);
    var lines := SplitAtNewlines(t);
    assert forall i :: 0 <= i < |lines| ==> '\r' !in lines[i] by {
      SplitAtNewlinesKeepsOut(t, '\r');
    }
    lines
  }

  lemma {:induction false} SplitAtNewlinesKeepsOut(s: string, c: char)
    requires c !in s
    ensures forall i :: 0 <= i < |SplitAtNewlines(s)| ==> c !in SplitAtNewlines(s)[i]
    decreases |s|
  {
    if |s| > 0 {
      var i := IndexOf(s, '\n');
      if i < |s| {
        SplitAtNewlinesKeepsOut(s[i + 1..], c);
      }
    }
  }

  lemma TerminatedCons(l: string, rest: seq<string>)
    ensures Terminated([l] + rest) == l + ("\n" + Terminated(rest))
  {
    assert ([l] + rest)[1..] == rest;
  }

  lemma {:induction false} TerminatedNoCR(lines: seq<string>)
    requires forall i :: 0 <= i < |lines| ==> '\r' !in lines[i]
    ensures '\r' !in Terminated(lines)
  {
    if |lines| > 0 {
      TerminatedNoCR(lines[1..]);
    }
  }

  /** Lines written one per `"\n"` are read back unchanged by `str.splitlines()`. */
  lemma {:induction false} SplitLinesOfTerminated(lines: seq<string>)
    requires forall i :: 0 <= i < |lines| ==> NoLineBreak(lines[i])
    ensures SplitLines(Terminated(lines)) == lines
  {
    if |lines| > 0 {
      var l, rest := lines[0], lines[1..];
      var s := Terminated(lines);
      assert lines == [l] + rest;
      TerminatedCons(l, rest);
      FirstBreakOfLine(l, Terminated(rest));
      assert s[..|l|] == l && s[|l| + 1..] == Terminated(rest);
      SplitLinesOfTerminated(rest);
    }
  }

  lemma {:induction false} FirstBreakOfLine(l: string, tail: string)
    requires NoLineBreak(l)
    ensures FirstBreak(l + ("\n" + tail)) == |l|
    decreases |l|
  {
    var s := l + ("\n" + tail);
    if |l| > 0 {
      assert s[0] == l[0] && s[1..] == l[1..] + ("\n" + tail);
      FirstBreakOfLine(l[1..], tail);
    } else {
      assert s[0] == '\n';
    }
  }

  /** Lines written one per `"\n"` and read back through a text-mode file
      come back unchanged, as long as none holds `"\n"` or `"\r"`. */
  lemma {:induction false} FileLinesOfTerminated(lines: seq<string>)
    requires forall i :: 0 <= i < |lines| ==> '\n' !in lines[i] && '\r' !in lines[i]
    ensures FileLines(Terminated(lines)) == lines
  {
    TerminatedNoCR(lines);
    SplitAtNewlinesOfTerminated(lines);
  }

  lemma {:induction false} SplitAtNewlinesOfTerminated(lines: seq<string>)
    requires forall i :: 0 <= i < |lines| ==> '\n' !in lines[i]
    ensures SplitAtNewlines(Terminated(lines)) == lines
  {
    if |lines| > 0 {
      var l, rest := lines[0], lines[1..];
      var s := Terminated(lines);
      assert lines == [l] + rest;
      TerminatedCons(l, rest);
      assert s[|l|] == '\n';
      assert IndexOf(s, '\n') == |l| by {
        var i := IndexOf(s, '\n');
        assert forall j :: 0 <= j < |l| ==> s[j] == l[j];
      }
      assert s[..|l|] == l && s[|l| + 1..] == Terminated(rest);
      SplitAtNewlinesOfTerminated(rest);
    }
  }
}
