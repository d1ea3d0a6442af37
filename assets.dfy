/**
 * Images of a cleaned page turned into book assets (`embed_images_and_rewrite`,
 * `download_image`, `pick_cover_from_first_image`). Every `<img>` with a usable
 * source becomes a file `images/{prefix}{n}{ext}`, numbered from 1 in document
 * order, and its `src` is rewritten to that file. HTTP and base64 decoding are
 * outside the model and come in as the oracle `Net`.
 */
module Assets {
  import opened Basics
  import opened Dom

  type Bytes = seq<bv8>

  /** What a `session.get` that passed `raise_for_status` yields ("" when Content-Type is absent). */
  datatype Response = Response(content: Bytes, contentType: string)

  /**
   * The outside world: `fetch` is an HTTP GET of an absolute http(s) URL (None
   * for a network error or an error status), `b64decode` is
   * `base64.b64decode` (None when it raises).
   */
  datatype Net = Net(fetch: string -> Option<Response>, b64decode: string -> Option<Bytes>)

  /** One `EpubItem` added to the book for an image. */
  datatype Asset = Asset(fileName: string, ext: string, content: Bytes, mediaType: string)

  /** The image an `<img>` yields before it is given a name. */
  datatype Found = Found(content: Bytes, ext: string, mediaType: string)

  /** The book cover: `images/cover.jpg` with this content and media type. */
  datatype Cover = Cover(content: Bytes, mediaType: string)

  // ------------------------------------------------------------ splitting

  /** `s.split(c, 1)` when it yields two pieces; None when `c` does not occur. */
  function SplitOnce(s: string, c: char): (r: Option<(string, string)>)
    ensures r.None? <==> c !in s
    ensures r.Some? ==> s == r.value.0 + [c] + r.value.1 && c !in r.value.0
  {
    if s == [] then None
    else if s[0] == c then
      assert s == [] + [c] + s[1..];
      Some(([], s[1..]))
    else
      assert s == [s[0]] + s[1..];
      match SplitOnce(s[1..], c)
      case None => None
      case Some((a, b)) => Some(([s[0]] + a, b))
  }

  /** `s.split(c)[0]`: everything before the first `c`. */
  function Before(s: string, c: char): (r: string)
    ensures c !in r && StartsWith(s, r)
  {
    match SplitOnce(s, c)
    case None => s
    case Some((a, _)) => a
  }

  /** A prefix without `c` does not move the first `c`. */
  lemma BeforeAfterPrefix(p: string, s: string, c: char)
    requires c !in p
    ensures Before(p + s, c) == p + Before(s, c)
    ensures SplitOnce(p + [c] + s, c) == Some((p, s))
  {
    SplitOnceAfterPrefix(p, s, c);
  }

  lemma {:induction false} SplitOnceAfterPrefix(p: string, s: string, c: char)
    requires c !in p
    ensures SplitOnce(p + s, c) == (match SplitOnce(s, c) case None => None case Some((a, b)) => Some((p + a, b)))
    ensures SplitOnce(p + [c] + s, c) == Some((p, s))
  {
    SplitOnceSkips(p, s, c);
    SplitOnceAt(p, s, c);
  }

  lemma {:induction false} SplitOnceSkips(p: string, s: string, c: char)
    requires c !in p
    ensures SplitOnce(s, c).None? ==> SplitOnce(p + s, c).None?
    ensures SplitOnce(s, c).Some? ==> SplitOnce(p + s, c) == Some((p + SplitOnce(s, c).value.0, SplitOnce(s, c).value.1))
    decreases |p|, 1
  {
    if p != [] {
      SplitOnceSkipsCons(p, s, c);
    } else {
      assert p + s == s;
      if SplitOnce(s, c).Some? {
        assert p + SplitOnce(s, c).value.0 == SplitOnce(s, c).value.0;
      }
    }
  }

  lemma {:induction false} SplitOnceSkipsCons(p: string, s: string, c: char)
    requires c !in p && p != []
    ensures SplitOnce(s, c).None? ==> SplitOnce(p + s, c).None?
    ensures SplitOnce(s, c).Some? ==> SplitOnce(p + s, c) == Some((p + SplitOnce(s, c).value.0, SplitOnce(s, c).value.1))
    decreases |p|, 0
  {
    ConsAppend(p, s);
    SplitOnceCons(p + s, c);
    SplitOnceSkips(p[1..], s, c);
    PrefixChain(SplitOnce(p + s, c), SplitOnce(p[1..] + s, c), SplitOnce(s, c), p);
  }

  /** Splitting after `[p[0]]` of a text that is split after `p[1..]` is splitting after `p`. */
  lemma PrefixChain(rx: Option<(string, string)>, rt: Option<(string, string)>, rs: Option<(string, string)>, p: string)
    requires p != []
    requires rt.None? ==> rx.None?
    requires rt.Some? ==> rx == Some(([p[0]] + rt.value.0, rt.value.1))
    requires rs.None? ==> rt.None?
    requires rs.Some? ==> rt == Some((p[1..] + rs.value.0, rs.value.1))
    ensures rs.None? ==> rx.None?
    ensures rs.Some? ==> rx == Some((p + rs.value.0, rs.value.1))
  {
    if rs.Some? {
      assert [p[0]] + (p[1..] + rs.value.0) == p + rs.value.0;
    }
  }

  lemma SplitOnceCons(x: string, c: char)
    requires x != [] && x[0] != c
    ensures SplitOnce(x[1..], c).None? ==> SplitOnce(x, c).None?
    ensures SplitOnce(x[1..], c).Some? ==>
      SplitOnce(x, c) == Some(([x[0]] + SplitOnce(x[1..], c).value.0, SplitOnce(x[1..], c).value.1))
  {
  }

  lemma {:induction false} SplitOnceAt(p: string, s: string, c: char)
    requires c !in p
    ensures SplitOnce(p + [c] + s, c) == Some((p, s))
  {
    if p != [] {
      assert (p + [c] + s)[0] == p[0] && (p + [c] + s)[1..] == p[1..] + [c] + s;
      SplitOnceAt(p[1..], s, c);
      assert [p[0]] + p[1..] == p;
    } else {
      assert p + [c] + s == [c] + s;
    }
  }

  /**
   * The mime type of a data URI header, `header.split(";")[0].split(":")[1]`;
   * None where Python raises IndexError (no `:` before the first `;`).
   */
  function DataMime(header: string): (r: Option<string>)
    ensures r.Some? ==> ';' !in r.value && ':' !in r.value
  {
    match SplitOnce(Before(header, ';'), ':')
    case None => None
    case Some((_, rest)) =>
      var m := Before(rest, ':');
      assert ';' !in m by {
        assert StartsWith(rest, m);
        assert forall i | 0 <= i < |m| :: m[i] == rest[i];
      }
      Some(m)
  }

  /**
   * For a header that starts with `data:` the lookup never fails, and the mime
   * type is what follows `data:` up to the first `;` or `:`.
   */
  lemma DataMimeOfDataUri(t: string)
    ensures DataMime("data:" + t) == Some(Before(Before(t, ';'), ':'))
  {
    assert "data:" + t == "data" + [':'] + t;
    BeforeAfterPrefix("data:", t, ';');
    BeforeAfterPrefix("data", Before(t, ';'), ':');
    assert "data:" + Before(t, ';') == "data" + [':'] + Before(t, ';');
  }

  // --------------------------------------------------------------- extensions

  predicate IsLetter(c: char) { 'a' <= c <= 'z' || 'A' <= c <= 'Z' }

  /** ASCII letters only. */
  predicate Letters(s: string)
  {
    s == [] || (IsLetter(s[0]) && Letters(s[1..]))
  }

  lemma {:induction false} LettersAt(s: string)
    ensures Letters(s) <==> forall i | 0 <= i < |s| :: IsLetter(s[i])
  {
    if s != [] {
      LettersAt(s[1..]);
      assert forall i | 1 <= i < |s| :: s[i] == s[1..][i - 1];
    }
  }

  /** An extension the embedding gives: a dot, then ASCII letters. */
  predicate PlainExt(e: string)
  {
    e != [] && e[0] == '.' && Letters(e[1..])
  }

  /** The extension of an image given inline, from its mime type (case-sensitive tests). */
  function MimeExt(mime: string): (r: string)
    ensures r in [".jpg", ".png", ".gif", ".webp", ".svg", ".bin"]
    ensures PlainExt(r)
  {
    if Contains(mime, "/jpeg") || Contains(mime, "/jpg") then ".jpg"
    else if Contains(mime, "/png") then ".png"
    else if Contains(mime, "/gif") then ".gif"
    else if Contains(mime, "/webp") then ".webp"
    else if Contains(mime, "/svg") then ".svg"
    else ".bin"
  }

  /** The extension a downloaded image's Content-Type gives, tested lower-cased; None falls back to the URL. */
  function ContentTypeExt(contentType: string): (r: Option<string>)
    ensures r.Some? ==> r.value in [".jpg", ".png", ".gif", ".webp", ".svg"]
    ensures r.Some? ==> PlainExt(r.value)
  {
    var ct := Lower(contentType);
    if Contains(ct, "jpeg") || Contains(ct, "jpg") then Some(".jpg")
    else if Contains(ct, "png") then Some(".png")
    else if Contains(ct, "gif") then Some(".gif")
    else if Contains(ct, "webp") then Some(".webp")
    else if Contains(ct, "svg") then Some(".svg")
    else None
  }

  /** `s.split(c)`: all pieces between occurrences of `c`. */
  function Pieces(s: string, c: char): (r: seq<string>)
    ensures |r| >= 1
    decreases |s|
  {
    match SplitOnce(s, c)
    case None => [s]
    case Some((a, b)) => [a] + Pieces(b, c)
  }

  /** The last piece that names something: neither empty nor ".". */
  function LastName(ps: seq<string>): string
  {
    if ps == [] then []
    else
      var t := LastName(ps[1..]);
      if t != [] then t else if ps[0] != "." then ps[0] else []
  }

  /** `PurePosixPath(url).name`: the last path component, `.` components ignored. */
  function PathName(url: string): string
  {
    LastName(Pieces(url, '/'))
  }

  /** Position of the last `c` in `s`. */
  function LastIndex(s: string, c: char): (r: Option<nat>)
    ensures r.None? <==> c !in s
    ensures r.Some? ==> r.value < |s| && s[r.value] == c && c !in s[r.value + 1..]
  {
    if s == [] then None
    else if s[|s| - 1] == c then Some(|s| - 1)
    else
      match LastIndex(s[..|s| - 1], c)
      case None =>
        assert s == s[..|s| - 1] + [s[|s| - 1]];
        None
      case Some(i) =>
        assert s[i + 1..] == s[..|s| - 1][i + 1..] + [s[|s| - 1]];
        Some(i)
  }

  /** `PurePath.suffix` of a name: from its last dot, unless that dot is first or last. */
  function Suffix(name: string): (r: string)
    ensures r == [] || (r[0] == '.' && '.' !in r[1..])
  {
    match LastIndex(name, '.')
    case None => []
    case Some(i) =>
      if 0 < i < |name| - 1 then
        assert name[i..][1..] == name[i + 1..];
        name[i..]
      else []
  }

  /** The suffixes an image URL may keep. */
  const ImageSuffixes: set<string> := {".jpg", ".jpeg", ".png", ".gif", ".webp", ".svg"}

  /** The fallback extension from the URL: its suffix when that is an image suffix in any case, else `.bin`. */
  function UrlExt(url: string): (r: string)
    ensures r == ".bin" || Lower(r) in ImageSuffixes
    ensures PlainExt(r)
  {
    var suf := Suffix(PathName(url));
    if Lower(suf) in ImageSuffixes then ImageSuffixPlain(suf); suf else ".bin"
  }

  /** A suffix that lower-cases to an image suffix is a dot and letters. */
  lemma ImageSuffixPlain(suf: string)
    requires Lower(suf) in ImageSuffixes
    ensures PlainExt(suf)
  {
    var l := Lower(suf);
    assert l[0] == '.' && forall i | 1 <= i < |l| :: 'a' <= l[i] <= 'z';
    LowerAt(suf, 0);
    forall i | 0 <= i < |suf| - 1
      ensures IsLetter(suf[1..][i])
    {
      LowerAt(suf, i + 1);
    }
    LettersAt(suf[1..]);
  }

  /** The extension `download_image` reports for a response. */
  function DownloadExt(url: string, contentType: string): (r: string)
    ensures PlainExt(r)
  {
    match ContentTypeExt(contentType)
    case Some(e) => e
    case None => UrlExt(url)
  }

  /**
   * Whether `requests` can send the URL at all: after leading whitespace only
   * an `http://` or `https://` URL (in any case) has a transport adapter;
   * a relative path raises MissingSchema.
   */
  predicate Fetchable(url: string)
  {
    StartsWithCI(LStrip(url), "http://") || StartsWithCI(LStrip(url), "https://")
  }

  /** `download_image(url)`: the content and extension, or None when anything fails. */
  function Download(url: string, net: Net): (r: Option<(Bytes, string)>)
    ensures r.Some? ==> Fetchable(url) && PlainExt(r.value.1)
    ensures r.Some? <==> Fetchable(url) && net.fetch(url).Some?
  {
    if !Fetchable(url) then None
    else
      match net.fetch(url)
      case None => None
      case Some(resp) => Some((resp.content, DownloadExt(url, resp.contentType)))
  }

  /** The media type a downloaded image is stored with, looked up on the lower-cased extension. */
  function MediaType(ext: string): (r: string)
    ensures (Lower(ext) in ImageSuffixes) <==> r != "application/octet-stream"
    ensures r == "application/octet-stream" || StartsWith(r, "image/")
  {
    var e := Lower(ext);
    if e == ".jpg" || e == ".jpeg" then "image/jpeg"
    else if e == ".png" then "image/png"
    else if e == ".gif" then "image/gif"
    else if e == ".webp" then "image/webp"
    else if e == ".svg" then "image/svg+xml"
    else "application/octet-stream"
  }

  /** The cover's media type: the same table without svg, defaulting to `image/jpeg`. */
  function CoverMediaType(ext: string): (r: string)
    ensures StartsWith(r, "image/")
    ensures Lower(ext) != ".svg" ==> r == (if Lower(ext) in ImageSuffixes then MediaType(ext) else "image/jpeg")
  {
    var e := Lower(ext);
    if e == ".jpg" || e == ".jpeg" then "image/jpeg"
    else if e == ".png" then "image/png"
    else if e == ".gif" then "image/gif"
    else if e == ".webp" then "image/webp"
    else "image/jpeg"
  }

  /** The five standard image types. */
  const StandardTypes: seq<string> := ["image/jpeg", "image/png", "image/gif", "image/webp", "image/svg+xml"]

  /**
   * The extension tables and the media-type table agree: a standard image
   * type, whether it comes as a data URI's mime type or as a lower-case
   * Content-Type, gets an extension whose media type is that type again.
   */
  lemma ExtensionTablesAgree(t: string)
    requires t in StandardTypes
    ensures MediaType(MimeExt(t)) == t
    ensures ContentTypeExt(t).Some? && MediaType(ContentTypeExt(t).value) == t
  {
    if t == "image/jpeg" { JpegAgrees(t); }
    else if t == "image/png" { PngAgrees(t); }
    else if t == "image/gif" { GifAgrees(t); }
    else if t == "image/webp" { WebpAgrees(t); }
    else { SvgAgrees(t); }
  }

  lemma JpegAgrees(t: string)
    requires t == "image/jpeg"
    ensures MediaType(MimeExt(t)) == t
    ensures ContentTypeExt(t).Some? && MediaType(ContentTypeExt(t).value) == t
  {
    JpegMime(t);
    JpegContentType(t);
    MediaTypeOfLower(".jpg");
  }

  lemma PngAgrees(t: string)
    requires t == "image/png"
    ensures MediaType(MimeExt(t)) == t
    ensures ContentTypeExt(t).Some? && MediaType(ContentTypeExt(t).value) == t
  {
    PngMime(t);
    PngContentType(t);
    MediaTypeOfLower(".png");
  }

  lemma GifAgrees(t: string)
    requires t == "image/gif"
    ensures MediaType(MimeExt(t)) == t
    ensures ContentTypeExt(t).Some? && MediaType(ContentTypeExt(t).value) == t
  {
    GifMime(t);
    GifContentType(t);
    MediaTypeOfLower(".gif");
  }

  lemma WebpAgrees(t: string)
    requires t == "image/webp"
    ensures MediaType(MimeExt(t)) == t
    ensures ContentTypeExt(t).Some? && MediaType(ContentTypeExt(t).value) == t
  {
    WebpMime(t);
    WebpContentType(t);
    MediaTypeOfLower(".webp");
  }

  lemma SvgAgrees(t: string)
    requires t == "image/svg+xml"
    ensures MediaType(MimeExt(t)) == t
    ensures ContentTypeExt(t).Some? && MediaType(ContentTypeExt(t).value) == t
  {
    SvgMime(t);
    SvgContentType(t);
    MediaTypeOfLower(".svg");
  }

  /** On a lower-case extension the table is looked up directly. */
  lemma MediaTypeOfLower(e: string)
    requires forall i | 0 <= i < |e| :: !('A' <= e[i] <= 'Z')
    ensures MediaType(e) == (if e == ".jpg" || e == ".jpeg" then "image/jpeg"
      else if e == ".png" then "image/png"
      else if e == ".gif" then "image/gif"
      else if e == ".webp" then "image/webp"
      else if e == ".svg" then "image/svg+xml"
      else "application/octet-stream")
  {
    LowerOfLower(e);
  }

  lemma JpegMime(t: string)
    requires t == "image/jpeg"
    ensures MimeExt(t) == ".jpg"
  {
    ContainsFrom(t, 5, "/jpeg");
  }

  lemma JpegContentType(t: string)
    requires t == "image/jpeg"
    ensures ContentTypeExt(t) == Some(".jpg")
  {
    LowerOfLower(t);
    ContainsFrom(t, 6, "jpeg");
  }

  lemma PngMime(t: string)
    requires t == "image/png"
    ensures MimeExt(t) == ".png"
  {
    assert 'j' !in t;
    Absent(t, "/jpeg", 1); Absent(t, "/jpg", 1);
    ContainsFrom(t, 5, "/png");
  }

  lemma PngContentType(t: string)
    requires t == "image/png"
    ensures ContentTypeExt(t) == Some(".png")
  {
    LowerOfLower(t);
    assert 'j' !in t;
    Absent(t, "jpeg", 0); Absent(t, "jpg", 0);
    ContainsFrom(t, 6, "png");
  }

  lemma GifMime(t: string)
    requires t == "image/gif"
    ensures MimeExt(t) == ".gif"
  {
    assert 'j' !in t && 'n' !in t;
    Absent(t, "/jpeg", 1); Absent(t, "/jpg", 1); Absent(t, "/png", 2);
    ContainsFrom(t, 5, "/gif");
  }

  lemma GifContentType(t: string)
    requires t == "image/gif"
    ensures ContentTypeExt(t) == Some(".gif")
  {
    LowerOfLower(t);
    GifLacks(t);
    ContainsFrom(t, 6, "gif");
  }

  lemma GifLacks(t: string)
    requires t == "image/gif"
    ensures !Contains(t, "jpeg") && !Contains(t, "jpg") && !Contains(t, "png")
  {
    assert 'j' !in t && 'n' !in t;
    Absent(t, "jpeg", 0); Absent(t, "jpg", 0); Absent(t, "png", 1);
  }

  lemma WebpMime(t: string)
    requires t == "image/webp"
    ensures MimeExt(t) == ".webp"
  {
    assert 'j' !in t && 'n' !in t && 'f' !in t;
    Absent(t, "/jpeg", 1); Absent(t, "/jpg", 1); Absent(t, "/png", 2); Absent(t, "/gif", 3);
    ContainsFrom(t, 5, "/webp");
  }

  lemma WebpContentType(t: string)
    requires t == "image/webp"
    ensures ContentTypeExt(t) == Some(".webp")
  {
    LowerOfLower(t);
    WebpLacks(t);
    ContainsFrom(t, 6, "webp");
  }

  lemma WebpLacks(t: string)
    requires t == "image/webp"
    ensures !Contains(t, "jpeg") && !Contains(t, "jpg") && !Contains(t, "png") && !Contains(t, "gif")
  {
    assert 'j' !in t && 'n' !in t && 'f' !in t;
    Absent(t, "jpeg", 0); Absent(t, "jpg", 0); Absent(t, "png", 1); Absent(t, "gif", 2);
  }

  lemma SvgMime(t: string)
    requires t == "image/svg+xml"
    ensures MimeExt(t) == ".svg"
  {
    SvgMimeLacks(t);
    ContainsFrom(t, 5, "/svg");
  }

  lemma SvgMimeLacks(t: string)
    requires t == "image/svg+xml"
    ensures !Contains(t, "/jpeg") && !Contains(t, "/jpg") && !Contains(t, "/png") && !Contains(t, "/gif") && !Contains(t, "/webp")
  {
    assert 'j' !in t && 'n' !in t && 'f' !in t && 'w' !in t;
    Absent(t, "/jpeg", 1); Absent(t, "/jpg", 1); Absent(t, "/png", 2); Absent(t, "/gif", 3); Absent(t, "/webp", 1);
  }

  lemma SvgContentType(t: string)
    requires t == "image/svg+xml"
    ensures ContentTypeExt(t) == Some(".svg")
  {
    LowerOfLower(t);
    SvgLacks(t);
    ContainsFrom(t, 6, "svg");
  }

  lemma SvgLacks(t: string)
    requires t == "image/svg+xml"
    ensures !Contains(t, "jpeg") && !Contains(t, "jpg") && !Contains(t, "png") && !Contains(t, "gif") && !Contains(t, "webp")
  {
    assert 'j' !in t && 'n' !in t && 'f' !in t && 'w' !in t;
    Absent(t, "jpeg", 0); Absent(t, "jpg", 0); Absent(t, "png", 1); Absent(t, "gif", 2); Absent(t, "webp", 0);
  }

  /** The standard types are already lower case. */
  lemma LowerOfLower(t: string)
    requires forall i | 0 <= i < |t| :: !('A' <= t[i] <= 'Z')
    ensures Lower(t) == t
  {
  }

  /** A text cannot contain `p` when it lacks one of `p`'s characters. */
  lemma {:induction false} Absent(s: string, p: string, k: nat)
    requires k < |p| && p[k] !in s
    ensures !Contains(s, p)
    decreases |s|
  {
    if s != [] {
      assert p[k] !in s[1..];
      Absent(s[1..], p, k);
    }
  }

  lemma {:induction false} ContainsFrom(s: string, k: nat, p: string)
    requires k <= |s| && StartsWith(s[k..], p)
    ensures Contains(s, p)
    decreases k
  {
    if k > 0 {
      assert s[1..][k - 1..] == s[k..];
      ContainsFrom(s[1..], k - 1, p);
    } else {
      assert s[k..] == s;
    }
  }

  // --------------------------------------------------------- one <img>

  /**
   * The tracking-pixel test: an integer `width` of at most 1 skips the image,
   * then an integer `height` of at most 1 does. A width that `int()` rejects
   * raises inside the shared `try`, so the height is then never looked at.
   */
  predicate TrackingPixel(attrs: seq<Attr>)
  {
    var w := AttrOr(attrs, "width");
    var h := AttrOr(attrs, "height");
    if w != [] && PyInt(w).None? then false
    else if w != [] && PyInt(w).value <= 1 then true
    else if h != [] && PyInt(h).None? then false
    else h != [] && PyInt(h).value <= 1
  }

  /** An image is skipped as a tracking pixel exactly when one of its sizes reads as an integer of at most 1 and no earlier size check raised. */
  lemma TrackingPixelIff(attrs: seq<Attr>)
    ensures TrackingPixel(attrs) <==>
      var w := AttrOr(attrs, "width");
      var h := AttrOr(attrs, "height");
      (w != [] && PyInt(w) .Some? && PyInt(w).value <= 1) ||
      ((w == [] || (PyInt(w).Some? && PyInt(w).value > 1)) && h != [] && PyInt(h).Some? && PyInt(h).value <= 1)
  {
  }

  /** `width="100%" height="1"`: `int("100%")` raises first, so the one-pixel height is not seen. */
  lemma PercentWidthHidesHeight()
    ensures !TrackingPixel([Attr("width", "100%"), Attr("height", "1")])
  {
    var attrs := [Attr("width", "100%"), Attr("height", "1")];
    assert AttrOr(attrs, "width") == "100%";
    PercentNotInt();
  }

  lemma PercentNotInt()
    ensures PyInt("100%").None?
  {
    NotAnInt("100%", 3);
  }

  /** `int()` rejects an unsigned text with no whitespace border and a character that is neither digit nor `_`. */
  lemma NotAnInt(s: string, i: nat)
    requires i < |s| && !IsDigit(s[i]) && s[i] != '_'
    requires s[0] != '-' && s[0] != '+' && !IsSpace(s[0]) && !IsSpace(s[|s| - 1])
    ensures PyInt(s).None?
  {
    StripIdempotent(s);
  }

  /** `download_image(src)`, retried once as `https:` + src for a protocol-relative URL. */
  function FetchImage(src: string, net: Net): (r: Option<(Bytes, string)>)
    ensures r.Some? ==> PlainExt(r.value.1)
  {
    match Download(src, net)
    case Some(x) => Some(x)
    case None => if StartsWith(src, "//") then Download("https:" + src, net) else None
  }

  /** An inline image: the header split at the first comma, the mime type, the decoded payload. */
  function DataImage(src: string, net: Net): (r: Option<Found>)
    ensures r.Some? ==> PlainExt(r.value.ext)
  {
    match SplitOnce(src, ',')
    case None => None
    case Some((header, payload)) =>
      match DataMime(header)
      case None => None
      case Some(mime) =>
        match net.b64decode(payload)
        case None => None
        case Some(content) => Some(Found(content, MimeExt(mime), mime))
  }

  /** What the loop body makes of one `<img>`: None for every `continue`. */
  function Decide(attrs: seq<Attr>, net: Net): (r: Option<Found>)
    ensures r.Some? ==> PlainExt(r.value.ext)
  {
    match GetAttr(attrs, "src")
    case None => None
    case Some(src) =>
      if src == [] || TrackingPixel(attrs) then None
      else if StartsWith(src, "data:") then DataImage(src, net)
      else
        match FetchImage(src, net)
        case None => None
        case Some((content, ext)) => Some(Found(content, ext, MediaType(ext)))
  }

  /** An image is only ever embedded when it has a non-empty `src` and is not a tracking pixel. */
  lemma DecideSkips(attrs: seq<Attr>, net: Net)
    ensures Decide(attrs, net).Some? ==>
      GetAttr(attrs, "src").Some? && GetAttr(attrs, "src").value != [] && !TrackingPixel(attrs)
    ensures Decide(attrs, net).Some? && !StartsWith(GetAttr(attrs, "src").value, "data:") ==>
      Decide(attrs, net).value.mediaType == MediaType(Decide(attrs, net).value.ext)
  {
  }

  // ----------------------------------------------------- the images of a tree

  /** The attributes of every `<img>` in document order (`find_all("img")`). */
  function NodeImgs(n: Node): seq<seq<Attr>>
  {
    match n
    case Text(_) => []
    case Elem(_, tag, attrs, kids) => (if tag == "img" then [attrs] else []) + Imgs(kids)
  }

  function Imgs(ns: seq<Node>): seq<seq<Attr>>
  {
    if ns == [] then [] else NodeImgs(ns[0]) + Imgs(ns[1..])
  }

  /** The `src` an image gets, if it gets one. */
  function SetSrc(attrs: seq<Attr>, src: Option<string>): seq<Attr>
  {
    match src
    case None => attrs
    case Some(s) => SetAttr(attrs, "src", s)
  }

  /** `SetSrc` applied image by image. */
  function SetSrcs(imgs: seq<seq<Attr>>, srcs: seq<Option<string>>): (r: seq<seq<Attr>>)
    requires |srcs| == |imgs|
    ensures |r| == |imgs|
    ensures forall i | 0 <= i < |imgs| :: r[i] == SetSrc(imgs[i], srcs[i])
  {
    if imgs == [] then [] else [SetSrc(imgs[0], srcs[0])] + SetSrcs(imgs[1..], srcs[1..])
  }

  /** The tree with the `i`-th image (in document order) given `srcs[i]`. */
  function Retag(ns: seq<Node>, srcs: seq<Option<string>>): seq<Node>
    requires |srcs| == |Imgs(ns)|
  {
    if ns == [] then []
    else
      var k := |NodeImgs(ns[0])|;
      [RetagNode(ns[0], srcs[..k])] + Retag(ns[1..], srcs[k..])
  }

  function RetagNode(n: Node, srcs: seq<Option<string>>): Node
    requires |srcs| == |NodeImgs(n)|
  {
    match n
    case Text(_) => n
    case Elem(id, tag, attrs, kids) =>
      if tag == "img" then Elem(id, tag, SetSrc(attrs, srcs[0]), Retag(kids, srcs[1..]))
      else Elem(id, tag, attrs, Retag(kids, srcs))
  }

  /**
   * Rewriting sources changes the images exactly as asked and nothing else:
   * the text, the identities and the element counts stay as they were.
   */
  lemma {:induction false} RetagEffect(ns: seq<Node>, srcs: seq<Option<string>>, tag: string, x: nat)
    requires |srcs| == |Imgs(ns)|
    ensures Imgs(Retag(ns, srcs)) == SetSrcs(Imgs(ns), srcs)
    ensures Strings(Retag(ns, srcs)) == Strings(ns)
    ensures Count(Retag(ns, srcs), tag) == Count(ns, tag)
    ensures HasId(Retag(ns, srcs), x) == HasId(ns, x)
    decreases ns
  {
    if ns != [] {
      var k := |NodeImgs(ns[0])|;
      RetagNodeEffect(ns[0], srcs[..k], tag, x);
      RetagEffect(ns[1..], srcs[k..], tag, x);
      var r := Retag(ns, srcs);
      assert r[0] == RetagNode(ns[0], srcs[..k]) && r[1..] == Retag(ns[1..], srcs[k..]);
      SetSrcsAppend(NodeImgs(ns[0]), Imgs(ns[1..]), srcs[..k], srcs[k..]);
      assert srcs[..k] + srcs[k..] == srcs;
    }
  }

  lemma {:induction false} RetagNodeEffect(n: Node, srcs: seq<Option<string>>, tag: string, x: nat)
    requires |srcs| == |NodeImgs(n)|
    ensures NodeImgs(RetagNode(n, srcs)) == SetSrcs(NodeImgs(n), srcs)
    ensures NodeStrings(RetagNode(n, srcs)) == NodeStrings(n)
    ensures NodeCount(RetagNode(n, srcs), tag) == NodeCount(n, tag)
    ensures NodeHasId(RetagNode(n, srcs), x) == NodeHasId(n, x)
    decreases n
  {
    match n
    case Text(_) =>
    case Elem(id, t, attrs, kids) =>
      if t == "img" {
        RetagEffect(kids, srcs[1..], tag, x);
        SetSrcsAppend([attrs], Imgs(kids), srcs[..1], srcs[1..]);
        assert srcs[..1] + srcs[1..] == srcs;
      } else {
        RetagEffect(kids, srcs, tag, x);
        assert NodeImgs(n) == Imgs(kids);
      }
  }

  lemma SetSrcsAppend(a: seq<seq<Attr>>, b: seq<seq<Attr>>, sa: seq<Option<string>>, sb: seq<Option<string>>)
    requires |sa| == |a| && |sb| == |b|
    ensures SetSrcs(a + b, sa + sb) == SetSrcs(a, sa) + SetSrcs(b, sb)
  {
    var l := SetSrcs(a + b, sa + sb);
    var r := SetSrcs(a, sa) + SetSrcs(b, sb);
    assert |l| == |r|;
    forall i | 0 <= i < |l| ensures l[i] == r[i] {
      if i < |a| {
        assert (a + b)[i] == a[i] && (sa + sb)[i] == sa[i];
      } else {
        assert (a + b)[i] == b[i - |a|] && (sa + sb)[i] == sb[i - |a|];
      }
    }
  }

  // ----------------------------------------------------------- the plan

  /** `images/{prefix}{n}{ext}`, the name of the `n`-th embedded image. */
  function AssetName(prefix: string, n: nat, ext: string): string
  {
    "images/" + prefix + NatToString(n) + ext
  }

  /** A character of the asset names: an ASCII letter or digit, `.`, `_` or `/`. */
  predicate NameChar(c: char)
  {
    'a' <= c <= 'z' || 'A' <= c <= 'Z' || IsDigit(c) || c == '.' || c == '_' || c == '/'
  }

  /** A name under `images/` written in name characters only. */
  predicate PlainName(s: string)
  {
    StartsWith(s, "images/") && forall i | 0 <= i < |s| :: NameChar(s[i])
  }

  /** With a prefix in name characters and a dot-and-letters extension, an asset name is plain. */
  lemma AssetNamePlain(prefix: string, n: nat, ext: string)
    requires PlainExt(ext) && forall i | 0 <= i < |prefix| :: NameChar(prefix[i])
    ensures PlainName(AssetName(prefix, n, ext))
  {
    var head, d := "images/" + prefix, NatToString(n);
    var s := AssetName(prefix, n, ext);
    assert s == head + d + ext;
    assert s[..7] == "images/";
    forall i | 0 <= i < |s|
      ensures NameChar(s[i])
    {
      if i < 7 {
        assert s[i] == "images/"[i];
      } else if i < |head| {
        assert s[i] == prefix[i - 7];
      } else if i < |head| + |d| {
        assert s[i] == d[i - |head|];
      } else if i > |head| + |d| {
        LettersAt(ext[1..]);
        assert s[i] == ext[1..][i - |head| - |d| - 1];
      }
    }
  }

  /** `Decide` on every image of the page, in document order. */
  function Decisions(imgs: seq<seq<Attr>>, net: Net): (r: seq<Option<Found>>)
    ensures |r| == |imgs|
    ensures forall i | 0 <= i < |r| :: r[i].Some? ==> PlainExt(r[i].value.ext)
  {
    if imgs == [] then [] else [Decide(imgs[0], net)] + Decisions(imgs[1..], net)
  }

  lemma {:induction false} DecisionsAt(imgs: seq<seq<Attr>>, net: Net, i: nat)
    requires i < |imgs|
    ensures Decisions(imgs, net)[i] == Decide(imgs[i], net)
  {
    if i > 0 {
      DecisionsAt(imgs[1..], net, i - 1);
    }
  }

  /**
   * What the loop does with each image, in order, when the next free number
   * is `n`: the asset it adds, or None. The number moves on only after an
   * image has been embedded.
   */
  function Plan(fs: seq<Option<Found>>, prefix: string, n: nat): (r: seq<Option<Asset>>)
    ensures |r| == |fs|
  {
    if fs == [] then []
    else
      match fs[0]
      case None => [None] + Plan(fs[1..], prefix, n)
      case Some(f) =>
        [Some(Asset(AssetName(prefix, n, f.ext), f.ext, f.content, f.mediaType))] + Plan(fs[1..], prefix, n + 1)
  }

  /** The outcome of `embed_images_and_rewrite` for each image of a page with the given prefix. */
  function EmbedPlan(doc: seq<Node>, prefix: string, net: Net): (r: seq<Option<Asset>>)
    ensures |r| == |Imgs(doc)|
  {
    Plan(Decisions(Imgs(doc), net), prefix, 1)
  }

  /** The assets of a plan, in the order they are added to the book. */
  function Embedded(plan: seq<Option<Asset>>): seq<Asset>
  {
    if plan == [] then []
    else (match plan[0] case Some(a) => [a] case None => []) + Embedded(plan[1..])
  }

  /** The new `src` of each image, if it got one. */
  function NewSrcs(plan: seq<Option<Asset>>): (r: seq<Option<string>>)
    ensures |r| == |plan|
    ensures forall i | 0 <= i < |plan| :: r[i] == (match plan[i] case Some(a) => Some(a.fileName) case None => None)
  {
    if plan == [] then []
    else [match plan[0] case Some(a) => Some(a.fileName) case None => None] + NewSrcs(plan[1..])
  }

  lemma {:induction false} EmbeddedAppend(a: seq<Option<Asset>>, b: seq<Option<Asset>>)
    ensures Embedded(a + b) == Embedded(a) + Embedded(b)
  {
    if a == [] {
      assert a + b == b;
    } else {
      assert (a + b)[0] == a[0] && (a + b)[1..] == a[1..] + b;
      EmbeddedAppend(a[1..], b);
    }
  }

  /** Planning a list in two halves: the second half starts where the first one's numbering stopped. */
  lemma {:induction false} PlanAppend(a: seq<Option<Found>>, b: seq<Option<Found>>, prefix: string, n: nat)
    ensures Plan(a + b, prefix, n) == Plan(a, prefix, n) + Plan(b, prefix, n + |Embedded(Plan(a, prefix, n))|)
    decreases |a|, 1
  {
    if a == [] {
      assert a + b == b;
    } else {
      PlanAppendCons(a, b, prefix, n);
    }
  }

  lemma {:induction false} PlanAppendCons(a: seq<Option<Found>>, b: seq<Option<Found>>, prefix: string, n: nat)
    requires a != []
    ensures Plan(a + b, prefix, n) == Plan(a, prefix, n) + Plan(b, prefix, n + |Embedded(Plan(a, prefix, n))|)
    decreases |a|, 0
  {
    var x := a + b;
    ConsAppend(a, b);
    var k := if a[0].Some? then n + 1 else n;
    var h := PlanHead(a, x, prefix, n, k);
    PlanHeadCount(a, prefix, n, k);
    PlanAppend(a[1..], b, prefix, k);
    var m := k + |Embedded(Plan(a[1..], prefix, k))|;
    Assemble(Plan(x, prefix, n), Plan(a, prefix, n), Plan(x[1..], prefix, k), Plan(a[1..], prefix, k), Plan(b, prefix, m), h);
  }

  lemma Assemble<T>(x: seq<T>, a: seq<T>, xr: seq<T>, ar: seq<T>, b: seq<T>, h: T)
    requires x == [h] + xr && a == [h] + ar && xr == ar + b
    ensures x == a + b
  {
  }

  /**
   * One step of the plan, on two lists with the same first image: the same
   * first outcome, then the rest numbered from the next free number `k`.
   */
  lemma PlanHead(fs: seq<Option<Found>>, gs: seq<Option<Found>>, prefix: string, n: nat, k: nat) returns (h: Option<Asset>)
    requires fs != [] && gs != [] && fs[0] == gs[0] && k == if fs[0].Some? then n + 1 else n
    ensures Plan(fs, prefix, n) == [h] + Plan(fs[1..], prefix, k)
    ensures Plan(gs, prefix, n) == [h] + Plan(gs[1..], prefix, k)
  {
    var p := Plan(fs, prefix, n);
    var q := Plan(gs, prefix, n);
    h := p[0];
    assert p == [h] + p[1..];
    assert q == [q[0]] + q[1..];
  }

  /** One step of the plan adds one asset exactly when the first image has a decision. */
  lemma PlanHeadCount(fs: seq<Option<Found>>, prefix: string, n: nat, k: nat)
    requires fs != [] && k == if fs[0].Some? then n + 1 else n
    ensures |Embedded(Plan(fs, prefix, n))| == (k - n) + |Embedded(Plan(fs[1..], prefix, k))|
  {
    var p := Plan(fs, prefix, n);
    assert p[1..] == Plan(fs[1..], prefix, k);
  }

  lemma ConsAppend<T>(a: seq<T>, b: seq<T>)
    requires a != []
    ensures (a + b)[0] == a[0] && (a + b)[1..] == a[1..] + b
  {
  }

  /**
   * Consecutive naming: the `j`-th embedded image (from 0) is called
   * `images/{prefix}{n + j}{ext}` with a dot-and-letters extension,
   * and exactly the images with a usable decision are embedded.
   */
  lemma {:induction false} PlanNumbering(fs: seq<Option<Found>>, prefix: string, n: nat)
    requires forall i | 0 <= i < |fs| :: fs[i].Some? ==> PlainExt(fs[i].value.ext)
    ensures var e := Embedded(Plan(fs, prefix, n));
      forall j | 0 <= j < |e| :: e[j].fileName == AssetName(prefix, n + j, e[j].ext) && PlainExt(e[j].ext)
    ensures forall i | 0 <= i < |fs| :: Plan(fs, prefix, n)[i].Some? <==> fs[i].Some?
  {
    if fs != [] {
      var p := Plan(fs, prefix, n);
      match fs[0]
      case None =>
        PlanNumbering(fs[1..], prefix, n);
        assert p[1..] == Plan(fs[1..], prefix, n);
        assert Embedded(p) == Embedded(p[1..]);
      case Some(f) =>
        PlanNumbering(fs[1..], prefix, n + 1);
        assert p[1..] == Plan(fs[1..], prefix, n + 1);
        assert Embedded(p) == [p[0].value] + Embedded(p[1..]);
    }
  }

  /** Within one page: the embedded images are numbered 1, 2, ... in order and are exactly the images `Decide` accepts. */
  lemma EmbedNumbering(doc: seq<Node>, prefix: string, net: Net)
    ensures var e := Embedded(EmbedPlan(doc, prefix, net));
      forall j | 0 <= j < |e| :: e[j].fileName == AssetName(prefix, j + 1, e[j].ext) && PlainExt(e[j].ext)
    ensures forall i | 0 <= i < |Imgs(doc)| :: EmbedPlan(doc, prefix, net)[i].Some? <==> Decide(Imgs(doc)[i], net).Some?
  {
    var imgs := Imgs(doc);
    var fs := Decisions(imgs, net);
    var p := EmbedPlan(doc, prefix, net);
    assert p == Plan(fs, prefix, 1);
    PlanNumbering(fs, prefix, 1);
    forall i | 0 <= i < |imgs| ensures p[i].Some? <==> Decide(imgs[i], net).Some? {
      DecisionsAt(imgs, net, i);
    }
  }

  /** One more image in the loop: its decision adds at most one asset, named after the count so far. */
  lemma PlanStep(fs: seq<Option<Found>>, i: nat, prefix: string)
    requires i < |fs|
    ensures var before := Plan(fs[..i], prefix, 1);
      var n := 1 + |Embedded(before)|;
      if fs[i].Some? then
        var f := fs[i].value;
        && Embedded(Plan(fs[..i + 1], prefix, 1)) == Embedded(before) + [Asset(AssetName(prefix, n, f.ext), f.ext, f.content, f.mediaType)]
        && NewSrcs(Plan(fs[..i + 1], prefix, 1)) == NewSrcs(before) + [Some(AssetName(prefix, n, f.ext))]
      else
        && Embedded(Plan(fs[..i + 1], prefix, 1)) == Embedded(before)
        && NewSrcs(Plan(fs[..i + 1], prefix, 1)) == NewSrcs(before) + [None]
  {
    var before := Plan(fs[..i], prefix, 1);
    var n := 1 + |Embedded(before)|;
    assert fs[..i + 1] == fs[..i] + [fs[i]];
    PlanAppend(fs[..i], [fs[i]], prefix, 1);
    var step := Plan([fs[i]], prefix, n);
    PlanSingle(fs[i], prefix, n);
    EmbeddedAppend(before, step);
    NewSrcsAppend(before, step);
  }

  lemma PlanSingle(f: Option<Found>, prefix: string, n: nat)
    ensures f.None? ==> Plan([f], prefix, n) == [None]
    ensures f.Some? ==>
      Plan([f], prefix, n) == [Some(Asset(AssetName(prefix, n, f.value.ext), f.value.ext, f.value.content, f.value.mediaType))]
  {
    assert [f][1..] == [];
  }

  lemma NewSrcsAppend(a: seq<Option<Asset>>, b: seq<Option<Asset>>)
    ensures NewSrcs(a + b) == NewSrcs(a) + NewSrcs(b)
  {
    var r, s := NewSrcs(a + b), NewSrcs(a) + NewSrcs(b);
    forall i | 0 <= i < |r| ensures r[i] == s[i] {
      if i < |a| {
        assert (a + b)[i] == a[i];
      } else {
        assert (a + b)[i] == b[i - |a|];
      }
    }
  }

  /** The decision on the `i`-th image of the page, as the loop of `EmbedImages` takes it. */
  method DecideImage(imgs: seq<seq<Attr>>, net: Net, i: nat) returns (found: Option<Found>)
    requires i < |imgs|
    ensures found == Decisions(imgs, net)[i]
  {
    found := Decide(imgs[i], net);
    DecisionsAt(imgs, net, i);
  }

  /** The loop of `embed_images_and_rewrite`: each image in turn, numbering the embedded ones from 1. */
  method PlanImages(imgs: seq<seq<Attr>>, prefix: string, net: Net) returns (srcs: seq<Option<string>>, assets: seq<Asset>)
    ensures assets == Embedded(Plan(Decisions(imgs, net), prefix, 1))
    ensures srcs == NewSrcs(Plan(Decisions(imgs, net), prefix, 1))
  {
    ghost var fs := Decisions(imgs, net);
    assert |fs| == |imgs|;
    var counter := 1;
    srcs := [];
    assets := [];
    for i := 0 to |imgs|
      invariant assets == Embedded(Plan(fs[..i], prefix, 1))
      invariant srcs == NewSrcs(Plan(fs[..i], prefix, 1))
      invariant counter == 1 + |assets|
    {
      var found := DecideImage(imgs, net, i);
      PlanStep(fs, i, prefix);
      if found.Some? {
        var f := found.value;
        var name := AssetName(prefix, counter, f.ext);
        assets := assets + [Asset(name, f.ext, f.content, f.mediaType)];
        srcs := srcs + [Some(name)];
        counter := counter + 1;
      } else {
        srcs := srcs + [None];
      }
    }
    assert fs[..|fs|] == fs;
  }

  /** `embed_images_and_rewrite`: the images the book gains and the page with its sources rewritten. */
  method EmbedImages(doc: seq<Node>, prefix: string, net: Net) returns (r: seq<Node>, assets: seq<Asset>)
    ensures assets == Embedded(EmbedPlan(doc, prefix, net))
    ensures r == Retag(doc, NewSrcs(EmbedPlan(doc, prefix, net)))
  {
    var srcs;
    srcs, assets := PlanImages(Imgs(doc), prefix, net);
    r := Retag(doc, srcs);
  }

  // -------------------------------------------------------------- the cover

  /** `pick_cover_from_first_image`: the first `<img>` of the page, inline or downloaded. */
  function PickCover(doc: seq<Node>, net: Net): (r: Option<Cover>)
    ensures r.Some? ==> Imgs(doc) != [] && GetAttr(Imgs(doc)[0], "src").Some?
  {
    var imgs := Imgs(doc);
    if imgs == [] then None
    else
      match GetAttr(imgs[0], "src")
      case None => None
      case Some(src) =>
        if src == [] then None
        else if StartsWith(src, "data:") then
          match SplitOnce(src, ',')
          case None => None
          case Some((header, payload)) =>
            match net.b64decode(payload)
            case None => None
            case Some(content) =>
              match DataMime(header)
              case None => None
              case Some(mime) => Some(Cover(content, mime))
        else
          match Download(src, net)
          case None => None
          case Some((content, ext)) => Some(Cover(content, CoverMediaType(ext)))
  }

  /** A local asset name is neither inline data nor a URL that `download_image` fetches. */
  lemma LocalNameNotFetched(prefix: string, n: nat, ext: string, net: Net)
    ensures var name := AssetName(prefix, n, ext);
      name != [] && !StartsWith(name, "data:") && Download(name, net).None?
  {
    var name := AssetName(prefix, n, ext);
    assert name[0] == 'i';
    SchemelessNotFetchable(name);
  }

  /** A URL that starts with a character other than whitespace, `h` or `H` has no scheme `requests` serves. */
  lemma SchemelessNotFetchable(url: string)
    requires url != [] && !IsSpace(url[0]) && LowerChar(url[0]) != 'h'
    ensures !Fetchable(url)
  {
    assert LStrip(url) == url;
    LowerAt(url, 0);
  }

  /**
   * Looking for the cover on the page after its images were embedded: the
   * first image, once embedded, points at a local file name, so it never
   * yields a cover.
   */
  lemma EmbeddedFirstImageNoCover(doc: seq<Node>, prefix: string, net: Net)
    requires Imgs(doc) != [] && Decide(Imgs(doc)[0], net).Some?
    ensures PickCover(Retag(doc, NewSrcs(EmbedPlan(doc, prefix, net))), net).None?
  {
    var plan := EmbedPlan(doc, prefix, net);
    var srcs := NewSrcs(plan);
    EmbedNumbering(doc, prefix, net);
    var a := plan[0].value;
    assert Embedded(plan)[0] == a;
    RetagEffect(doc, srcs, "img", 0);
    var imgs := Imgs(Retag(doc, srcs));
    assert imgs[0] == SetAttr(Imgs(doc)[0], "src", a.fileName);
    LocalNameNotFetched(prefix, 1, a.ext, net);
  }

  /**
   * Looking for the cover on the page before its images are rewritten: a
   * first image that would be embedded yields the cover, with the same
   * content (unless its source is protocol-relative, which only the
   * embedding retries).
   */
  lemma CoverFromFirstImage(doc: seq<Node>, net: Net)
    requires Imgs(doc) != [] && Decide(Imgs(doc)[0], net).Some?
    requires GetAttr(Imgs(doc)[0], "src").Some? ==> !StartsWith(GetAttr(Imgs(doc)[0], "src").value, "//")
    ensures PickCover(doc, net).Some?
    ensures PickCover(doc, net).value.content == Decide(Imgs(doc)[0], net).value.content
  {
  }
}
