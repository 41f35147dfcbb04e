/** `is_image_bytes` of `scripts/grab_webtoon.py`: the test that a
    downloaded body is an image and not an error page, from the declared
    content type and the first bytes of the body. */
module ImageBytes {
  import opened Optional
  import opened Strings

  newtype byte = b: int | 0 <= b < 256

  const JpegMagic: seq<byte> := [0xFF, 0xD8, 0xFF]
  const PngMagic: seq<byte> := [0x89, 0x50, 0x4E, 0x47, 0x0D, 0x0A, 0x1A, 0x0A]
  const RiffMagic: seq<byte> := [0x52, 0x49, 0x46, 0x46]
  const WebpTag: seq<byte> := [0x57, 0x45, 0x42, 0x50]
  const LessThan: byte := 0x3C
  const OpenBrace: byte := 0x7B
  const Bang: byte := 0x21

  /** `data[:n]`. */
  function Take(data: seq<byte>, n: nat): (r: seq<byte>)
    ensures |r| <= n && |r| <= |data| && r == data[..|r|]
    ensures |data| >= n ==> |r| == n
  {
    if |data| <= n then data else data[..n]
  }

  /** The bytes `bytes.strip()` removes: space, tab, line feed, vertical
      tab, form feed and carriage return. */
  predicate IsSpaceByte(b: byte) {
    b == 0x20 || (0x09 <= b <= 0x0D)
  }

  /** `bytes.lstrip()`. */
  function LStripBytes(s: seq<byte>): (r: seq<byte>)
    ensures |r| <= |s| && r == s[|s| - |r|..]
    ensures forall i :: 0 <= i < |s| - |r| ==> IsSpaceByte(s[i])
    ensures r == [] || !IsSpaceByte(r[0])
    decreases |s|
  {
    if |s| > 0 && IsSpaceByte(s[0]) then LStripBytes(s[1..]) else s
  }

  /** `ctype and ctype.lower().startswith("image/")`. */
  predicate DeclaresImage(ctype: Option<string>) {
    ctype.Some? && StartsWith(Lower(ctype.value), "image/")
  }

  /** The JPEG, PNG or RIFF/WEBP signature test on `data[:16]`. */
  predicate HasMagic(data: seq<byte>) {
    var sig := Take(data, 16);
    || StartsWith(sig, JpegMagic)
    || StartsWith(sig, PngMagic)
    || (StartsWith(sig, RiffMagic) && Contains(Take(data, 64), WebpTag))
  }

  /** The markup guard: the first 16 bytes, after leading white space,
      open with `<`, `{` or `<!`. */
  predicate LooksLikeMarkup(data: seq<byte>) {
    var t := LStripBytes(Take(data, 16));
    StartsWith(t, [LessThan]) || StartsWith(t, [OpenBrace]) || StartsWith(t, [LessThan, Bang])
  }

  /** `is_image_bytes(data, ctype)`. */
  function IsImageBytes(data: seq<byte>, ctype: Option<string>): (ok: bool)
    ensures DeclaresImage(ctype) ==> ok
    ensures !DeclaresImage(ctype) && LooksLikeMarkup(data) ==> !ok
    ensures ok <==> DeclaresImage(ctype)
                    || StartsWith(data, JpegMagic) || StartsWith(data, PngMagic)
                    || (StartsWith(data, RiffMagic) && Contains(Take(data, 64), WebpTag))
  {
    SignatureOnPrefix(data);
    MagicExcludesMarkup(data);
    DeclaresImage(ctype) || (HasMagic(data) && !LooksLikeMarkup(data))
  }

  /** A signature of at most 16 bytes starts `data[:16]` exactly when it
      starts `data`. */
  lemma SignatureOnPrefix(data: seq<byte>)
    ensures StartsWith(Take(data, 16), JpegMagic) <==> StartsWith(data, JpegMagic)
    ensures StartsWith(Take(data, 16), PngMagic) <==> StartsWith(data, PngMagic)
    ensures StartsWith(Take(data, 16), RiffMagic) <==> StartsWith(data, RiffMagic)
  {
    var sig := Take(data, 16);
    assert forall k :: 0 <= k <= |sig| && k <= 16 ==> data[..k] == sig[..k];
  }

  /** Every signature opens with a byte that is neither white space nor
      `<` nor `{`, so the markup guard never rejects a body the signature
      test accepted: the body is an image exactly when the content type or
      the signature says so. */
  lemma MagicExcludesMarkup(data: seq<byte>)
    ensures HasMagic(data) ==> !LooksLikeMarkup(data)
  {
    var sig := Take(data, 16);
    if HasMagic(data) {
      assert |sig| > 0;
      assert sig[0] == JpegMagic[0] || sig[0] == PngMagic[0] || sig[0] == RiffMagic[0];
      assert LStripBytes(sig) == sig;
    }
  }

  /** An HTML error page or a JSON error body served without an image
      content type is refused, whatever white space precedes it. */
  lemma ErrorPageRefused(ws: seq<byte>, rest: seq<byte>, ctype: Option<string>)
    requires forall i :: 0 <= i < |ws| ==> IsSpaceByte(ws[i])
    requires |ws| < 16
    requires !DeclaresImage(ctype)
    ensures !IsImageBytes(ws + [LessThan] + rest, ctype)
    ensures !IsImageBytes(ws + [OpenBrace] + rest, ctype)
  {
    MarkupRefused(ws, LessThan, rest, ctype);
    MarkupRefused(ws, OpenBrace, rest, ctype);
  }

  lemma MarkupRefused(ws: seq<byte>, b: byte, rest: seq<byte>, ctype: Option<string>)
    requires forall i :: 0 <= i < |ws| ==> IsSpaceByte(ws[i])
    requires |ws| < 16 && (b == LessThan || b == OpenBrace)
    requires !DeclaresImage(ctype)
    ensures !IsImageBytes(ws + [b] + rest, ctype)
  {
    var d := ws + [b] + rest;
    var sig := Take(d, 16);
    assert forall i :: 0 <= i < |ws| ==> sig[i] == ws[i];
    assert sig[|ws|] == b;
    LStripSkipsSpaces(sig, |ws|);
    assert LooksLikeMarkup(d);
  }

  /** `lstrip` removes exactly the white space before the first byte that
      is not white space. */
  lemma LStripSkipsSpaces(s: seq<byte>, k: nat)
    requires k < |s|
    requires forall i :: 0 <= i < k ==> IsSpaceByte(s[i])
    requires !IsSpaceByte(s[k])
    ensures LStripBytes(s) == s[k..]
  {
    var r := LStripBytes(s);
    var m := |s| - |r|;
    assert m <= k;
    assert m >= k by {
      assert |r| > 0 ==> r[0] == s[m];
    }
  }
}
