/** URL helpers of `scripts/grab_webtoon.py`: the desktop-to-mobile rewrite
    of Naver Webtoon episode URLs (`normalize_naver_url`) and the file
    extension guessed from an image URL (`infer_ext`). `urlparse` itself is
    not modelled: its six fields are an input, and `None` stands for a URL
    it rejects with an exception. */
module NaverUrl {
  import opened Optional
  import opened Strings

  /** The fields of `urllib.parse.urlparse`. */
  datatype UrlParts = UrlParts(scheme: string, netloc: string, path: string,
                               params: string, query: string, fragment: string)

  const DesktopSuffix: string := "comic.naver.com"
  const MobileHost: string := "m.comic.naver.com"
  const DetailPath: string := "/webtoon/detail"

  /** The host is a Naver Webtoon host, not already the mobile one, and the
      path is an episode page. Case is ignored in the host. */
  predicate IsDesktopDetail(p: UrlParts) {
    var host := Lower(p.netloc);
    EndsWith(host, DesktopSuffix) && !StartsWith(host, "m.") && Contains(p.path, DetailPath)
  }

  /** The fields of the rewritten URL: an empty scheme becomes `https`, the
      host becomes the mobile host, everything else is kept. */
  function MobileParts(p: UrlParts): (q: UrlParts)
    ensures q.netloc == MobileHost && q.scheme != ""
    ensures q.path == p.path && q.params == p.params && q.query == p.query && q.fragment == p.fragment
    ensures p.scheme != "" ==> q.scheme == p.scheme
  {
    p.(scheme := if p.scheme != "" then p.scheme else "https", netloc := MobileHost)
  }

  /** The characters that end the host part of a URL. */
  predicate IsDelim(c: char) {
    c == '/' || c == '?' || c == '#'
  }

  /** Fields as `urlparse` can return them: the scheme stops at the first
      `:`, the host at the first `/`, `?` or `#`, the path and params at the
      first `?` or `#`, and the query at the first `#`. */
  predicate WellFormed(p: UrlParts) {
    && ':' !in p.scheme && '/' !in p.scheme && '?' !in p.scheme && '#' !in p.scheme
    && '/' !in p.netloc && '?' !in p.netloc && '#' !in p.netloc
    && '?' !in p.path && '#' !in p.path && '?' !in p.params && '#' !in p.params
    && '#' !in p.query
  }

  /** The path part of `urlunparse`: `;params` is added when there are
      params, and a leading `/` when the result lacks one. */
  function UnparsePath(q: UrlParts): (path: string)
    ensures path == [] || path[0] == '/'
    ensures q.path + q.params != [] ==> path != []
  {
    var path := if q.params != "" then q.path + ";" + q.params else q.path;
    if path != "" && path[0] != '/' then "/" + path else path
  }

  /** `c + s`, or nothing when `s` is empty: how `urlunparse` adds the query
      and the fragment. */
  function Tagged(c: char, s: string): (t: string)
    ensures t == [] || t[0] == c
    ensures |t| == if s == "" then 0 else |s| + 1
  {
    if s != "" then [c] + s else ""
  }

  /** `urlunparse` of fields whose host is not empty: `scheme://host`, the
      path, then `?query` and `#fragment` for those that are not empty. */
  function Unparse(q: UrlParts): (url: string)
    requires q.netloc != "" && q.scheme != ""
    ensures StartsWith(url, q.scheme + "://" + q.netloc)
  {
    var head := q.scheme + "://" + q.netloc;
    var tail := UnparsePath(q) + Tagged('?', q.query) + Tagged('#', q.fragment);
    assert (head + tail)[..|head|] == head;
    head + tail
  }

  /** How many leading characters of `s` come before a `/`, `?` or `#`. */
  function HostLength(s: string): (n: nat)
    ensures n <= |s|
    ensures n < |s| ==> IsDelim(s[n])
    ensures forall i :: 0 <= i < n ==> !IsDelim(s[i])
  {
    if |s| == 0 || IsDelim(s[0]) then 0 else 1 + HostLength(s[1..])
  }

  /** The host `urlparse` reads from a URL: after the scheme and its `:`, a
      `//` opens the host, which runs to the next `/`, `?` or `#`. Without
      the `//` there is no host. */
  function UrlHost(url: string): (host: string)
    ensures forall i :: 0 <= i < |host| ==> !IsDelim(host[i])
  {
    var k := IndexOf(url, ':');
    if k + 3 <= |url| && url[k + 1..k + 3] == "//" then
      var rest := url[k + 3..];
      rest[..HostLength(rest)]
    else ""
  }

  /** The query `urlparse` reads from a URL: what follows the first `?`
      of the text before the first `#`, or nothing when there is no `?`. */
  function UrlQuery(url: string): (query: string)
    ensures '#' !in query
  {
    var pre := url[..IndexOf(url, '#')];
    var k := IndexOf(pre, '?');
    if k < |pre| then pre[k + 1..] else ""
  }

  /** A host read up to the delimiter that ends it. */
  lemma {:induction false} HostLengthAppend(a: string, b: string)
    requires forall i :: 0 <= i < |a| ==> !IsDelim(a[i])
    requires b == [] || IsDelim(b[0])
    ensures HostLength(a + b) == |a|
    decreases |a|
  {
    if |a| == 0 {
      assert a + b == b;
    } else {
      assert (a + b)[0] == a[0] && (a + b)[1..] == a[1..] + b;
      HostLengthAppend(a[1..], b);
    }
  }

  /** The host of `scheme://host` followed by a path, query or fragment. */
  lemma HostOf(scheme: string, netloc: string, tail: string)
    requires ':' !in scheme
    requires forall i :: 0 <= i < |netloc| ==> !IsDelim(netloc[i])
    requires tail == [] || IsDelim(tail[0])
    ensures UrlHost(scheme + "://" + netloc + tail) == netloc
  {
    var url := scheme + "://" + netloc + tail;
    var k := |scheme|;
    ColonAfterScheme(scheme, url);
    var rest := url[k + 3..];
    assert rest == netloc + tail;
    assert url[k + 1..k + 3] == "//";
    HostLengthAppend(netloc, tail);
    assert rest[..|netloc|] == netloc;
  }

  /** The first `:` of a URL that starts with `scheme://` is the one after
      the scheme. */
  lemma ColonAfterScheme(scheme: string, url: string)
    requires ':' !in scheme
    requires StartsWith(url, scheme + "://")
    ensures IndexOf(url, ':') == |scheme|
  {
    var k := |scheme|;
    assert url[k] == (scheme + "://")[k] == ':';
    forall j | 0 <= j < k ensures url[j] != ':' {
      assert url[j] == (scheme + "://")[j] == scheme[j];
      assert scheme[j] in scheme;
    }
  }

  /** The query of a URL whose first `?` opens it and whose first `#`, if
      any, ends it. */
  lemma QueryOf(a: string, query: string, fragment: string)
    requires '?' !in a && '#' !in a && '#' !in query
    ensures UrlQuery(a + Tagged('?', query) + Tagged('#', fragment)) == query
  {
    var tq, tf := Tagged('?', query), Tagged('#', fragment);
    var pre := a + tq;
    var url := pre + tf;
    assert '#' !in tq;
    IndexOfAppend(a, tq, '#');
    IndexOfAppend(pre, tf, '#');
    assert IndexOf(url, '#') == |pre|;
    assert url[..|pre|] == pre;
    IndexOfAppend(a, tq, '?');
    if query != "" {
      assert pre[|a| + 1..] == query;
    }
  }

  /** `urlparse` reads back the host `urlunparse` wrote. */
  lemma UnparseHost(q: UrlParts)
    requires q.netloc != "" && q.scheme != ""
    requires WellFormed(q)
    ensures UrlHost(Unparse(q)) == q.netloc
  {
    var tail := UnparsePath(q) + Tagged('?', q.query) + Tagged('#', q.fragment);
    assert forall i :: 0 <= i < |q.netloc| ==> !IsDelim(q.netloc[i]) by {
      forall i | 0 <= i < |q.netloc| ensures !IsDelim(q.netloc[i]) {
        assert q.netloc[i] in q.netloc;
      }
    }
    HostOf(q.scheme, q.netloc, tail);
  }

  /** `urlparse` reads back the query `urlunparse` wrote. */
  lemma UnparseQuery(q: UrlParts)
    requires q.netloc != "" && q.scheme != ""
    requires WellFormed(q)
    ensures UrlQuery(Unparse(q)) == q.query
  {
    var head, path := q.scheme + "://" + q.netloc, UnparsePath(q);
    var tq, tf := Tagged('?', q.query), Tagged('#', q.fragment);
    var a := head + path;
    ConcatAssoc(head, path + tq, tf);
    ConcatAssoc(head, path, tq);
    assert Unparse(q) == a + tq + tf;
    assert '?' !in path && '#' !in path;
    QueryOf(a, q.query, q.fragment);
  }

  /** The rewritten fields are still ones `urlparse` can return. */
  lemma MobileWellFormed(p: UrlParts)
    requires WellFormed(p)
    ensures WellFormed(MobileParts(p))
  {
    var h := MobileHost;
    assert forall i :: 0 <= i < |h| ==> h[i] != '/' && h[i] != '?' && h[i] != '#';
  }

  /** `normalize_naver_url(u)`, where `parsed` is what `urlparse(u)`
      returns (`None` when it raises): the URL and whether it changed. */
  function NormalizeNaverUrl(u: string, parsed: Option<UrlParts>): (r: (string, bool))
    ensures r.1 <==> parsed.Some? && IsDesktopDetail(parsed.value)
    ensures !r.1 ==> r.0 == u
    ensures r.1 ==> MobileParts(parsed.value).netloc != "" && r.0 == Unparse(MobileParts(parsed.value))
    ensures r.1 ==> StartsWith(r.0, MobileParts(parsed.value).scheme + "://" + MobileHost)
  {
    match parsed
    case None => (u, false)
    case Some(p) =>
      if IsDesktopDetail(p) then (Unparse(MobileParts(p)), true) else (u, false)
  }

  /** The rewrite is final: `urlparse` reads the mobile host back from the
      rewritten URL, so a second pass leaves that URL as it is. */
  lemma NormalizeNaverUrlIdempotent(u: string, p: UrlParts, p2: UrlParts)
    requires WellFormed(p)
    requires NormalizeNaverUrl(u, Some(p)).1
    requires p2.netloc == UrlHost(NormalizeNaverUrl(u, Some(p)).0)
    ensures var v := NormalizeNaverUrl(u, Some(p)).0;
      UrlHost(v) == MobileHost && NormalizeNaverUrl(v, Some(p2)) == (v, false)
  {
    MobileWellFormed(p);
    UnparseHost(MobileParts(p));
    MobileHostKept(p2);
  }

  /** Fields whose host is the mobile host are never rewritten. */
  lemma MobileHostKept(p: UrlParts)
    requires p.netloc == MobileHost
    ensures !IsDesktopDetail(p)
  {
    var host := Lower(p.netloc);
    assert host[..2] == "m.";
  }

  /** A desktop episode URL, in any letter case of the host, is rewritten;
      `urlparse` reads the mobile host and the query that names the title
      and the episode back from the result. */
  lemma DesktopDetailRewritten(u: string, p: UrlParts)
    requires WellFormed(p)
    requires Lower(p.netloc) == DesktopSuffix
    requires Contains(p.path, DetailPath)
    ensures var r := NormalizeNaverUrl(u, Some(p));
      r.1 && UrlHost(r.0) == MobileHost && UrlQuery(r.0) == p.query
  {
    assert EndsWith(Lower(p.netloc), DesktopSuffix) by { assert Lower(p.netloc)[0..] == Lower(p.netloc); }
    assert Lower(p.netloc)[..2] == "co";
    MobileWellFormed(p);
    UnparseHost(MobileParts(p));
    UnparseQuery(MobileParts(p));
  }

  // ---------------------------------------------------------------------
  // infer_ext

  const Exts: seq<string> := [".jpg", ".jpeg", ".png", ".webp"]

  /** `infer_ext(url, fallback)`, where `path` is `urlparse(url).path`: the
      first known extension the lower-cased path ends with, else the
      fallback. */
  function InferExt(path: string, fallback: string): (ext: string)
    ensures ext in Exts || ext == fallback
  {
    var lp := Lower(path);
    if EndsWith(lp, ".jpg") then ".jpg"
    else if EndsWith(lp, ".jpeg") then ".jpeg"
    else if EndsWith(lp, ".png") then ".png"
    else if EndsWith(lp, ".webp") then ".webp"
    else fallback
  }

  /** The extension found is one the lower-cased path ends with; the
      fallback comes back only when it ends with none of them. */
  lemma InferExtSpec(path: string, fallback: string)
    ensures var ext := InferExt(path, fallback);
      && ((exists e :: e in Exts && EndsWith(Lower(path), e)) ==> ext in Exts && EndsWith(Lower(path), ext))
      && ((forall e :: e in Exts ==> !EndsWith(Lower(path), e)) ==> ext == fallback)
  {
    var lp := Lower(path);
    assert forall e :: e in Exts <==> e == ".jpg" || e == ".jpeg" || e == ".png" || e == ".webp";
    assert (exists e :: e in Exts && EndsWith(lp, e))
       <==> EndsWith(lp, ".jpg") || EndsWith(lp, ".jpeg") || EndsWith(lp, ".png") || EndsWith(lp, ".webp");
  }

  /** No path ends with two of the known extensions, so the order in which
      they are tried does not matter. */
  lemma ExtsExclusive(path: string, i: nat, j: nat)
    requires i < j < |Exts|
    ensures !(EndsWith(path, Exts[i]) && EndsWith(path, Exts[j]))
  {
    if EndsWith(path, Exts[i]) {
      var n, e := |path|, Exts[i];
      assert path[n - 1] == e[|e| - 1] && path[n - 2] == e[|e| - 2];
      assert path[n - 3] == e[|e| - 3];
    }
  }
}
