/**
 * The single HTML document `build_book` hands to the PDF renderer: the
 * chapters joined with page breaks, then the references to the book's
 * images inlined as `data:` URIs and every other external reference
 * neutralised, and finally the style block put into the head.
 */
module FlatPdf {
  import opened Basics
  import Assets
  import Book

  // ------------------------------------------------------------ composition

  const PageBreakCss: string := "\n.pagebreak{ page-break-before: always; }\n"

  /** The element put between two chapters. */
  const PageBreak: string := "<div class=\"pagebreak\"></div>"

  function Heading(title: string): string
  {
    "<h1>" + Escape(title) + "</h1>"
  }

  /** One chapter: its heading only when the page had an `h1`, then its body. */
  function ChapterPart(c: Book.Chapter): seq<string>
  {
    (if c.includeH1 then [Heading(c.title)] else []) + [c.body]
  }

  /** The chapters in order, with a page break before every chapter but the first. */
  function ChapterParts(cs: seq<Book.Chapter>): seq<string>
  {
    if cs == [] then []
    else ChapterParts(cs[..|cs| - 1]) + (if |cs| > 1 then [PageBreak] else []) + ChapterPart(cs[|cs| - 1])
  }

  /** The document up to the opening of its body: title escaped, the book's CSS and the page-break rule. */
  function Head(title: string, css: string): seq<string>
  {
    ["<!DOCTYPE html>", "<html>", "<head>", "<meta charset=\"utf-8\"/>",
     "<title>" + Escape(title) + "</title>", "<style>" + css + PageBreakCss + "</style>", "</head>", "<body>"]
  }

  const Tail: seq<string> := ["</body>", "</html>"]

  function PdfParts(title: string, css: string, cs: seq<Book.Chapter>): seq<string>
  {
    Head(title, css) + ChapterParts(cs) + Tail
  }

  /**
   * The composed document: its parts joined by newlines. It always closes
   * its head, and it holds the body of every chapter.
   */
  function PdfHtml(title: string, css: string, cs: seq<Book.Chapter>): (r: string)
    ensures Contains(r, "</head>")
    ensures forall i | 0 <= i < |cs| :: Contains(r, cs[i].body)
  {
    JoinContains(PdfParts(title, css, cs), 6, "\n");
    PartsHoldBodies(title, css, cs);
    Join(PdfParts(title, css, cs), "\n")
  }

  /** Every chapter's body is one of the chapter parts. */
  lemma {:induction false} ChapterBodyIn(cs: seq<Book.Chapter>, i: nat)
    requires i < |cs|
    ensures cs[i].body in ChapterParts(cs)
  {
    var n := |cs| - 1;
    if i < n {
      assert cs[..n][i] == cs[i];
      ChapterBodyIn(cs[..n], i);
    } else {
      var last := ChapterPart(cs[n]);
      assert last[|last| - 1] == cs[n].body;
    }
  }

  lemma PartsHoldBodies(title: string, css: string, cs: seq<Book.Chapter>)
    ensures forall i | 0 <= i < |cs| :: Contains(Join(PdfParts(title, css, cs), "\n"), cs[i].body)
  {
    var parts := PdfParts(title, css, cs);
    forall i | 0 <= i < |cs|
      ensures Contains(Join(parts, "\n"), cs[i].body)
    {
      ChapterBodyIn(cs, i);
      var j :| 0 <= j < |ChapterParts(cs)| && ChapterParts(cs)[j] == cs[i].body;
      assert parts[|Head(title, css)| + j] == cs[i].body;
      JoinContains(parts, |Head(title, css)| + j, "\n");
    }
  }

  /** The loop that builds `parts`, with the `first` flag keeping the break off the first chapter. */
  method ComposeHtml(title: string, css: string, cs: seq<Book.Chapter>) returns (html: string)
    ensures html == PdfHtml(title, css, cs)
  {
    var parts := Head(title, css);
    var first := true;
    for i := 0 to |cs|
      invariant parts == Head(title, css) + ChapterParts(cs[..i])
      invariant first <==> i == 0
    {
      assert cs[..i + 1][..i] == cs[..i];
      if !first {
        parts := parts + [PageBreak];
      }
      first := false;
      if cs[i].includeH1 {
        parts := parts + [Heading(cs[i].title)];
      }
      parts := parts + [cs[i].body];
    }
    assert cs[..|cs|] == cs;
    parts := parts + Tail;
    html := Join(parts, "\n");
  }

  /**
   * Read from the front: the first chapter's parts come first with no break
   * before them, and a single break separates them from the rest.
   */
  lemma {:induction false} ChapterPartsCons(c: Book.Chapter, cs: seq<Book.Chapter>)
    ensures ChapterParts([c] + cs) == ChapterPart(c) + (if cs == [] then [] else [PageBreak] + ChapterParts(cs))
    decreases |cs|
  {
    var all := [c] + cs;
    if cs == [] {
      assert all[..0] == [];
    } else {
      var n := |cs| - 1;
      assert all[..|all| - 1] == [c] + cs[..n];
      assert all[|all| - 1] == cs[n];
      ChapterPartsCons(c, cs[..n]);
    }
  }

  // ------------------------------------------------------------ the head

  lemma {:induction false} ContainsRight(s: string, t: string, p: string)
    requires Contains(s, p)
    ensures Contains(s + t, p)
    decreases |s|
  {
    if !StartsWith(s, p) {
      assert (s + t)[1..] == s[1..] + t;
      ContainsRight(s[1..], t, p);
    } else {
      assert (s + t)[..|p|] == s[..|p|];
    }
  }

  lemma {:induction false} ContainsLeft(s: string, t: string, p: string)
    requires Contains(t, p)
    ensures Contains(s + t, p)
    decreases |s|
  {
    if s == [] {
      assert s + t == t;
    } else {
      assert (s + t)[1..] == s[1..] + t;
      ContainsLeft(s[1..], t, p);
    }
  }

  /** Every part occurs in the joined text. */
  lemma {:induction false} JoinContains(parts: seq<string>, k: nat, sep: string)
    requires k < |parts|
    ensures Contains(Join(parts, sep), parts[k])
    decreases k
  {
    if |parts| == 1 {
      assert StartsWith(parts[0], parts[0]);
    } else if k == 0 {
      assert StartsWith(parts[0], parts[0]);
      ContainsRight(parts[0], sep + Join(parts[1..], sep), parts[0]);
      assert Join(parts, sep) == parts[0] + (sep + Join(parts[1..], sep));
    } else {
      JoinContains(parts[1..], k - 1, sep);
      ContainsLeft(parts[0] + sep, Join(parts[1..], sep), parts[k]);
    }
  }

  /** The style block goes in front of every `</head>`, or in front of the whole text when there is none. */
  function InjectStyle(html: string, style: string): (r: string)
    ensures !Contains(html, "</head>") ==> r == style + html
  {
    if Contains(html, "</head>") then ReplaceAll(html, "</head>", style + "</head>") else style + html
  }

  lemma {:induction false} ReplaceAllPlaces(s: string, pat: string, rep: string)
    requires pat != [] && Contains(s, pat)
    ensures Contains(ReplaceAll(s, pat, rep), rep)
    decreases |s|
  {
    if StartsWith(s, pat) {
      assert StartsWith(rep, rep);
      ContainsRight(rep, ReplaceAll(s[|pat|..], pat, rep), rep);
    } else {
      ReplaceAllPlaces(s[1..], pat, rep);
      ContainsLeft([s[0]], ReplaceAll(s[1..], pat, rep), rep);
    }
  }

  /** A document with a head gets the style block inside it, just before `</head>`. */
  lemma InjectInHead(html: string, style: string)
    requires Contains(html, "</head>")
    ensures Contains(InjectStyle(html, style), style + "</head>")
  {
    ReplaceAllPlaces(html, "</head>", style + "</head>");
  }

  /** So in the composed document the style block always lands in the head. */
  lemma PdfStyleInHead(title: string, css: string, cs: seq<Book.Chapter>, style: string)
    ensures Contains(InjectStyle(PdfHtml(title, css, cs), style), style + "</head>")
  {
    InjectInHead(PdfHtml(title, css, cs), style);
  }

  // ------------------------------------------------------------ paths

  /** `s.strip().strip('"').strip("'")`. */
  function Unquote(s: string): string
  {
    StripChar(StripChar(Strip(s), '"'), '\'')
  }

  /** `r` is what is left of `p` after some leading characters are dropped. */
  predicate SuffixOf(r: string, p: string)
  {
    |r| <= |p| && r == p[|p| - |r|..]
  }

  /** Every leading copy of `pre` removed (`while p.startswith(pre): p = p[len(pre):]`). */
  function DropPrefixes(p: string, pre: string): (r: string)
    requires pre != []
    ensures SuffixOf(r, p)
    ensures !StartsWith(r, pre)
    decreases |p|
  {
    if StartsWith(p, pre) then DropPrefixes(p[|pre|..], pre) else p
  }

  /** `p.lstrip(c)`. */
  function DropLeading(p: string, c: char): (r: string)
    ensures SuffixOf(r, p)
    ensures r != [] ==> r[0] != c
  {
    if p != [] && p[0] == c then DropLeading(p[1..], c) else p
  }

  /** The reference without its fragment and query: `p.split('#', 1)[0].split('?', 1)[0]`. */
  function Bare(path: string): (r: string)
    ensures '#' !in r && '?' !in r
  {
    var a := Assets.Before(Unquote(path), '#');
    var b := Assets.Before(a, '?');
    assert b == a[..|b|];
    b
  }

  /** Leading `./` and then leading `../` removed. */
  function Undotted(b: string): (r: string)
    ensures SuffixOf(r, b)
  {
    DropPrefixes(DropPrefixes(b, "./"), "../")
  }

  /** A rooted path made relative. */
  function Unrooted(q: string): (r: string)
    ensures SuffixOf(r, q)
  {
    if StartsWith(q, "/") then DropLeading(q, '/') else q
  }

  function UnderImages(t: string): (r: string)
    ensures StartsWith(r, "images/")
    ensures '#' !in t && '?' !in t ==> '#' !in r && '?' !in r
  {
    if StartsWith(t, "images/") then t
    else
      var r := "images/" + t;
      assert forall k | 0 <= k < |r| :: r[k] == (if k < 7 then "images/"[k] else t[k - 7]);
      r
  }

  /** A suffix has no character its string lacks. */
  lemma SuffixLacks(p: string, r: string)
    requires SuffixOf(r, p)
    requires '#' !in p && '?' !in p
    ensures '#' !in r && '?' !in r
  {
    forall k | 0 <= k < |r|
      ensures r[k] == p[|p| - |r| + k] && r[k] in p
    {
    }
  }

  /**
   * The inventory key a reference is looked up under: unquoted, without
   * fragment and query, without leading `./`, `../` and `/`, and under
   * `images/`.
   */
  function NormPath(path: string): (r: string)
    ensures StartsWith(r, "images/")
    ensures '#' !in r && '?' !in r
  {
    var b := Bare(path);
    var u := Undotted(b);
    var t := Unrooted(u);
    SuffixLacks(b, u);
    SuffixLacks(u, t);
    UnderImages(t)
  }

  /** One of `_norm`'s loops: leading copies of `pre` cut off one at a time. */
  method CutPrefixes(p0: string, pre: string) returns (p: string)
    requires pre != []
    ensures p == DropPrefixes(p0, pre)
  {
    p := p0;
    while StartsWith(p, pre)
      invariant DropPrefixes(p, pre) == DropPrefixes(p0, pre)
      decreases |p|
    {
      p := p[|pre|..];
    }
  }

  /** `_norm`: its loops over `./` and `../`, then the leading slashes and the directory. */
  method Norm(path: string) returns (r: string)
    ensures r == NormPath(path)
  {
    var p := Bare(path);
    p := CutPrefixes(p, "./");
    p := CutPrefixes(p, "../");
    if StartsWith(p, "/") {
      p := DropLeading(p, '/');
    }
    r := UnderImages(p);
  }

  /** A path that neither starts nor ends with whitespace or a quote is its own unquoted form. */
  lemma UnquoteKeeps(s: string)
    requires s != [] && !IsSpace(s[0]) && !IsSpace(s[|s| - 1])
    requires s[0] != '"' && s[0] != '\'' && s[|s| - 1] != '"' && s[|s| - 1] != '\''
    ensures Unquote(s) == s
  {
    StripIdempotent(s);
  }

  lemma BareKeeps(s: string)
    requires Unquote(s) == s && '#' !in s && '?' !in s
    ensures Bare(s) == s
  {
  }

  /** A local image path comes out of `_norm` as it went in. */
  lemma NormKeepsImagePath(name: string)
    requires StartsWith(name, "images/") && '#' !in name && '?' !in name
    requires !IsSpace(name[|name| - 1]) && name[|name| - 1] != '"' && name[|name| - 1] != '\''
    ensures NormPath(name) == name
  {
    assert name[0] == 'i';
    UnquoteKeeps(name);
    BareKeeps(name);
    assert !StartsWith(name, "./") && !StartsWith(name, "../") && !StartsWith(name, "/");
  }

  lemma DotsLack(s: string, name: string)
    requires s == "../" + name && '#' !in name && '?' !in name
    ensures '#' !in s && '?' !in s
  {
    forall k | 0 <= k < |s|
      ensures s[k] != '#' && s[k] != '?'
    {
      if k >= 3 {
        assert s[k] == name[k - 3];
      }
    }
  }

  lemma RelativeUndotted(name: string)
    requires name != [] && name[0] == 'i'
    ensures Undotted("../" + name) == name
  {
    var s := "../" + name;
    assert s[1] == '.' && s[3..] == name;
    assert !StartsWith(s, "./");
    assert StartsWith(s, "../") && !StartsWith(name, "../");
    assert DropPrefixes(s, "./") == s;
    assert DropPrefixes(name, "../") == name;
    assert DropPrefixes(s, "../") == DropPrefixes(s[3..], "../");
  }

  /** So does the same path written relative to the chapter directory. */
  lemma NormKeepsRelativeImagePath(name: string)
    requires StartsWith(name, "images/") && '#' !in name && '?' !in name
    requires !IsSpace(name[|name| - 1]) && name[|name| - 1] != '"' && name[|name| - 1] != '\''
    ensures NormPath("../" + name) == name
  {
    var s := "../" + name;
    assert s[0] == '.' && s[|s| - 1] == name[|name| - 1];
    UnquoteKeeps(s);
    DotsLack(s, name);
    BareKeeps(s);
    assert name[0] == 'i';
    RelativeUndotted(name);
  }

  // ------------------------------------------------------------ references

  /** How an attribute value was written: `"…"`, `'…'` or bare. */
  datatype Quote = DoubleQuoted | SingleQuoted | Unquoted

  /**
   * The document as the rewriting passes see it: the matches of their
   * patterns, and the text between them.
   */
  datatype Token =
    | Chars(text: string)
      /** `src`, `data`, `data-src`, `data-original`, `data-lazy-src`, `href` or `xlink:href`, with its value. */
    | Ref(name: string, quote: Quote, value: string)
      /** A CSS `url(…)`, with what stands between the parentheses. */
    | Url(arg: string)
      /** A quoted `srcset` attribute with the whitespace before it. */
    | Srcset(text: string)
      /** A `<link …>` tag. */
    | Link(text: string)

  /** An image of the book as the flattened document carries it. */
  datatype Inline = Inline(mime: string, b64: string)

  type Inventory = map<string, Inline>

  function DataUri(x: Inline): string
  {
    "data:" + x.mime + ";base64," + x.b64
  }

  /** `img_items`: every image of the book under its file name, its content base64-encoded by `b64`. */
  function InventoryOf(assets: seq<Assets.Asset>, b64: Assets.Bytes -> string): (inv: Inventory)
    ensures inv.Keys == set a | a in assets :: a.fileName
  {
    if assets == [] then map[]
    else
      var last := assets[|assets| - 1];
      var init := assets[..|assets| - 1];
      var inv := InventoryOf(init, b64)[last.fileName := Inline(last.mediaType, b64(last.content))];
      assert assets == init + [last];
      inv
  }

  /** With distinct names no image hides another: each is found under its own name. */
  lemma {:induction false} InventoryEntry(assets: seq<Assets.Asset>, b64: Assets.Bytes -> string, i: nat)
    requires Book.DistinctNames(assets) && i < |assets|
    ensures InventoryOf(assets, b64)[assets[i].fileName] == Inline(assets[i].mediaType, b64(assets[i].content))
    decreases |assets|
  {
    var init := assets[..|assets| - 1];
    if i < |assets| - 1 {
      assert assets[i] == init[i];
      assert assets[i].fileName != assets[|assets| - 1].fileName;
      assert Book.DistinctNames(init) by {
        forall a, b | 0 <= a < b < |init| ensures init[a].fileName != init[b].fileName {
          assert init[a] == assets[a] && init[b] == assets[b];
        }
      }
      InventoryEntry(init, b64, i);
    }
  }

  /**
   * `_attr_repl`: a reference to an image of the book becomes its data URI.
   * A token either stays as it is or is a reference that keeps its
   * attribute name and now holds a value the neutralising keeps.
   */
  function InlineRef(t: Token, inv: Inventory): (r: Token)
    ensures r == t || (t.Ref? && r.Ref? && r.name == t.name && SafeValue(r.value))
  {
    match t
    case Ref(n, _, v) =>
      var key := NormPath(v);
      if key in inv then
        DataUriSafe(inv[key]);
        Ref(n, DoubleQuoted, DataUri(inv[key]))
      else t
    case _ => t
  }

  /**
   * `_url_repl`: the same for a CSS `url(…)`, looked up by its unquoted
   * argument. A token either stays as it is or is a `url(…)` that the
   * blanking keeps.
   */
  function InlineUrl(t: Token, inv: Inventory): (r: Token)
    ensures r == t || (t.Url? && r.Url? && BlankUrl(r) == r)
  {
    match t
    case Url(a) =>
      var key := NormPath(Unquote(a));
      if key in inv then
        DataUriSettles(inv[key]);
        Url(DataUri(inv[key]))
      else t
    case _ => t
  }

  /** A `url(…)` whose raw argument begins with a data URI or is empty. */
  predicate UrlSettledAsWritten(t: Token)
  {
    t.Url? ==> StartsWithCI(t.arg, "data:") || t.arg == "''"
  }

  /**
   * Every `url(…)` whose argument does not begin with `data:` emptied, as
   * the pattern does it: it tests the raw argument, quotes included.
   */
  function BlankUrlAsWritten(t: Token): (r: Token)
    ensures UrlSettledAsWritten(r)
    ensures r.Url? <==> t.Url?
    ensures !t.Url? ==> r == t
  {
    match t
    case Url(a) => if StartsWithCI(a, "data:") then t else Url("''")
    case _ => t
  }

  /** Every `url(…)` whose target is not a `data:` URI emptied, quoted or not. */
  function BlankUrl(t: Token): (r: Token)
    ensures UrlSettled(r)
    ensures r.Url? <==> t.Url?
    ensures !t.Url? ==> r == t
  {
    match t
    case Url(a) => if StartsWithCI(Unquote(a), "data:") then t else Url("''")
    case _ => t
  }

  /** A value the PDF renderer will not try to fetch. */
  predicate SafeValue(v: string)
  {
    var s := Strip(v);
    StartsWithCI(s, "data:") || StartsWith(s, "#") || StartsWithCI(s, "mailto:") || StartsWithCI(s, "javascript:")
  }

  /** `_neutralize_external`: external and unresolved references become `"#"`. */
  function Neutralise(t: Token): (r: Token)
    ensures r.Ref? <==> t.Ref?
    ensures !t.Ref? ==> r == t
  {
    match t
    case Ref(n, _, v) =>
      var val := Strip(v);
      var low := Lower(val);
      if StartsWith(low, "http://") || StartsWith(low, "https://") || StartsWith(val, "//") then
        Ref(n, DoubleQuoted, Anchor())
      else if !StartsWith(low, "data:") && !StartsWith(val, "#") && !StartsWith(low, "mailto:") && !StartsWith(low, "javascript:") then
        Ref(n, DoubleQuoted, Anchor())
      else t
    case _ => t
  }

  /** Whatever `_neutralize_external` leaves in an attribute is safe. */
  lemma NeutraliseSafe(t: Token)
    requires t.Ref?
    ensures SafeValue(Neutralise(t).value)
  {
  }

  /** `"#"`, which is safe. */
  function Anchor(): (r: string)
    ensures SafeValue(r) && Strip(r) == r
  {
    StripIdempotent("#");
    "#"
  }

  /** What a safe value begins with, after stripping and lower-casing. */
  lemma SafeLead(v: string)
    requires SafeValue(v)
    ensures var val := Strip(v);
      val != [] && (Lower(val)[0] in {'d', 'm', 'j'} || val[0] == '#')
  {
    var val := Strip(v);
    var low := Lower(val);
    if StartsWith(low, "data:") { assert low[0] == low[..5][0]; }
    else if StartsWith(low, "mailto:") { assert low[0] == low[..7][0]; }
    else if StartsWith(low, "javascript:") { assert low[0] == low[..11][0]; }
    else { assert val[0] == val[..1][0]; }
  }

  /** A safe value is neither external nor unresolved. */
  lemma SafeNotExternal(v: string)
    requires SafeValue(v)
    ensures var val := Strip(v); var low := Lower(val);
      !StartsWith(low, "http://") && !StartsWith(low, "https://") && !StartsWith(val, "//")
  {
    var val := Strip(v);
    SafeLead(v);
    LowerAt(val, 0);
    var low := Lower(val);
    assert low[0] != 'h' && val[0] != '/';
  }

  /** A value is left alone exactly when it is already safe. */
  lemma NeutraliseFixes(n: string, q: Quote, v: string)
    ensures Neutralise(Ref(n, q, v)) == Ref(n, q, v) <==> SafeValue(v)
  {
    if SafeValue(v) {
      SafeNotExternal(v);
    }
  }

  lemma NeutraliseIdempotent(t: Token)
    ensures Neutralise(Neutralise(t)) == Neutralise(t)
  {
    if t.Ref? {
      var r := Neutralise(t);
      NeutraliseFixes(r.name, r.quote, r.value);
    }
  }

  /** The `_attr_repl` pass over the whole document. */
  function InlineRefs(ts: seq<Token>, inv: Inventory): (r: seq<Token>)
    ensures |r| == |ts|
    ensures forall i | 0 <= i < |ts| :: r[i] == InlineRef(ts[i], inv)
  {
    if ts == [] then [] else [InlineRef(ts[0], inv)] + InlineRefs(ts[1..], inv)
  }

  /** The `_url_repl` pass. */
  function InlineUrls(ts: seq<Token>, inv: Inventory): (r: seq<Token>)
    ensures |r| == |ts|
    ensures forall i | 0 <= i < |ts| :: r[i] == InlineUrl(ts[i], inv)
  {
    if ts == [] then [] else [InlineUrl(ts[0], inv)] + InlineUrls(ts[1..], inv)
  }

  function BlankUrlsAsWritten(ts: seq<Token>): (r: seq<Token>)
    ensures |r| == |ts|
    ensures forall i | 0 <= i < |ts| :: r[i] == BlankUrlAsWritten(ts[i])
  {
    if ts == [] then [] else [BlankUrlAsWritten(ts[0])] + BlankUrlsAsWritten(ts[1..])
  }

  function BlankUrls(ts: seq<Token>): (r: seq<Token>)
    ensures |r| == |ts|
    ensures forall i | 0 <= i < |ts| :: r[i] == BlankUrl(ts[i])
  {
    if ts == [] then [] else [BlankUrl(ts[0])] + BlankUrls(ts[1..])
  }

  /** The `_neutralize_external` pass. */
  function NeutraliseAll(ts: seq<Token>): (r: seq<Token>)
    ensures |r| == |ts|
    ensures forall i | 0 <= i < |ts| :: r[i] == Neutralise(ts[i])
  {
    if ts == [] then [] else [Neutralise(ts[0])] + NeutraliseAll(ts[1..])
  }

  /** The `srcset` removal works run by run: what is kept keeps its order. */
  lemma {:induction false} DropSrcsetsAppend(a: seq<Token>, b: seq<Token>)
    ensures DropSrcsets(a + b) == DropSrcsets(a) + DropSrcsets(b)
  {
    if a == [] {
      assert a + b == b;
    } else {
      assert (a + b)[0] == a[0] && (a + b)[1..] == a[1..] + b;
      DropSrcsetsAppend(a[1..], b);
    }
  }

  /** The `<link>` removal works run by run: what is kept keeps its order. */
  lemma {:induction false} DropLinksAppend(a: seq<Token>, b: seq<Token>)
    ensures DropLinks(a + b) == DropLinks(a) + DropLinks(b)
  {
    if a == [] {
      assert a + b == b;
    } else {
      assert (a + b)[0] == a[0] && (a + b)[1..] == a[1..] + b;
      DropLinksAppend(a[1..], b);
    }
  }

  /** The two `srcset` substitutions: every quoted `srcset` removed, all else kept in order. */
  function DropSrcsets(ts: seq<Token>): (r: seq<Token>)
    ensures forall i | 0 <= i < |r| :: r[i] in ts && !r[i].Srcset?
    ensures forall i | 0 <= i < |ts| && !ts[i].Srcset? :: ts[i] in r
    ensures |r| <= |ts|
  {
    if ts == [] then [] else (if ts[0].Srcset? then [] else [ts[0]]) + DropSrcsets(ts[1..])
  }

  /** The `<link>` substitution. */
  function DropLinks(ts: seq<Token>): (r: seq<Token>)
    ensures forall i | 0 <= i < |r| :: r[i] in ts && !r[i].Link?
    ensures forall i | 0 <= i < |ts| && !ts[i].Link? :: ts[i] in r
    ensures |r| <= |ts|
  {
    if ts == [] then [] else (if ts[0].Link? then [] else [ts[0]]) + DropLinks(ts[1..])
  }

  /**
   * The passes in the order the code runs them, with the `url(…)` blanking
   * as written: afterwards every reference is safe, no `srcset` or `<link>`
   * is left, and every `url(…)` starts with `data:` or is empty.
   */
  function FlattenAsWritten(ts: seq<Token>, inv: Inventory): (r: seq<Token>)
    ensures forall t | t in r :: (t.Ref? ==> SafeValue(t.value)) && UrlSettledAsWritten(t) && !t.Srcset? && !t.Link?
  {
    var c := BlankUrlsAsWritten(InlineUrls(InlineRefs(ts, inv), inv));
    BlankStageAsWritten(c, DropSrcsets(c));
    NeutraliseStageAsWritten(DropSrcsets(c));
    DropLinks(NeutraliseAll(DropSrcsets(c)))
  }

  lemma BlankStageAsWritten(c: seq<Token>, d: seq<Token>)
    requires forall i | 0 <= i < |c| :: UrlSettledAsWritten(c[i])
    requires forall t | t in d :: t in c && !t.Srcset?
    ensures forall t | t in d :: UrlSettledAsWritten(t) && !t.Srcset?
  {
  }

  lemma NeutraliseStageAsWritten(d: seq<Token>)
    requires forall u | u in d :: UrlSettledAsWritten(u) && !u.Srcset?
    ensures forall u | u in NeutraliseAll(d) :: (u.Ref? ==> SafeValue(u.value)) && UrlSettledAsWritten(u) && !u.Srcset?
  {
    var e := NeutraliseAll(d);
    forall u | u in e
      ensures (u.Ref? ==> SafeValue(u.value)) && UrlSettledAsWritten(u) && !u.Srcset?
    {
      var j :| 0 <= j < |e| && e[j] == u;
      assert d[j] in d;
      if d[j].Ref? {
        NeutraliseSafe(d[j]);
      }
    }
  }

  /**
   * The same passes, with quoted `data:` URLs kept: after flattening every
   * reference is safe, every `url(…)` is a data URI or empty, and no
   * `srcset` or `<link>` is left.
   */
  function Flatten(ts: seq<Token>, inv: Inventory): (r: seq<Token>)
    ensures forall t | t in r :: Offline(t)
  {
    var b := InlineUrls(InlineRefs(ts, inv), inv);
    BlankStage(b);
    NeutraliseStage(DropSrcsets(BlankUrls(b)));
    DropLinks(NeutraliseAll(DropSrcsets(BlankUrls(b))))
  }

  /** A `url(…)` that points at a data URI or at nothing. */
  predicate UrlSettled(t: Token)
  {
    t.Url? ==> StartsWithCI(Unquote(t.arg), "data:") || t.arg == "''"
  }

  /** What is left for the renderer to fetch: nothing. */
  predicate Offline(t: Token)
  {
    (t.Ref? ==> SafeValue(t.value)) && UrlSettled(t) && !t.Srcset? && !t.Link?
  }

  lemma BlankStage(b: seq<Token>)
    ensures forall u | u in BlankUrls(b) :: UrlSettled(u)
  {
    var c := BlankUrls(b);
    forall u | u in c
      ensures UrlSettled(u)
    {
      var j :| 0 <= j < |c| && c[j] == u;
    }
  }

  lemma NeutralisedOffline(t: Token)
    requires UrlSettled(t) && !t.Srcset?
    ensures Offline(Neutralise(t)) || Neutralise(t).Link?
  {
    if t.Ref? {
      NeutraliseSafe(t);
    }
  }

  lemma NeutraliseStage(d: seq<Token>)
    requires forall u | u in d :: UrlSettled(u) && !u.Srcset?
    ensures forall u | u in NeutraliseAll(d) :: Offline(u) || u.Link?
  {
    var e := NeutraliseAll(d);
    forall u | u in e
      ensures Offline(u) || u.Link?
    {
      var j :| 0 <= j < |e| && e[j] == u;
      assert d[j] in d;
      NeutralisedOffline(d[j]);
    }
  }

  // ------------------------------------------------------------ data URIs

  /** Characters no stripping pass removes. */
  predicate Plain(p: string)
  {
    forall i | 0 <= i < |p| :: !IsSpace(p[i]) && p[i] != '"' && p[i] != '\''
  }

  lemma StripKeepsPrefix(s: string, p: string)
    requires StartsWith(s, p) && p != [] && Plain(p)
    ensures StartsWith(Strip(s), p)
  {
    StripSlice(s);
    assert s[0] == p[0] && s[|p| - 1] == p[|p| - 1];
    assert !IsSpace(s[0]) && !IsSpace(s[|p| - 1]);
    forall j | 0 <= j < |p|
      ensures Strip(s)[j] == p[j]
    {
      assert s[j] == p[j];
    }
  }

  lemma {:induction false} StripCharKeepsPrefix(s: string, c: char, p: string)
    requires StartsWith(s, p) && p != [] && c !in p
    ensures StartsWith(StripChar(s, c), p)
    decreases |s|
  {
    assert s[0] == p[0];
    if s[|s| - 1] == c {
      assert p[|p| - 1] != c && s[|p| - 1] == p[|p| - 1];
      assert s[..|s| - 1][..|p|] == p;
      StripCharKeepsPrefix(s[..|s| - 1], c, p);
    }
  }

  lemma UnquoteKeepsPrefix(s: string, p: string)
    requires StartsWith(s, p) && p != [] && Plain(p)
    ensures StartsWith(Unquote(s), p)
  {
    StripKeepsPrefix(s, p);
    assert '"' !in p && '\'' !in p;
    StripCharKeepsPrefix(Strip(s), '"', p);
    StripCharKeepsPrefix(StripChar(Strip(s), '"'), '\'', p);
  }

  lemma CIPrefix(s: string, p: string)
    requires StartsWith(s, p) && Lower(p) == p
    ensures StartsWithCI(s, p)
  {
    forall j | 0 <= j < |p|
      ensures Lower(s)[j] == p[j]
    {
      LowerAt(s, j);
      LowerAt(p, j);
      assert s[j] == p[j];
    }
  }

  lemma DataPlain()
    ensures Plain("data:") && Lower("data:") == "data:"
  {
  }

  /** The data URI `_url_repl` writes is one the blanking keeps. */
  lemma DataUriSettles(x: Inline)
    ensures BlankUrl(Url(DataUri(x))) == Url(DataUri(x))
  {
    var u := DataUri(x);
    assert StartsWith(u, "data:");
    DataPlain();
    UnquoteKeepsPrefix(u, "data:");
    CIPrefix(Unquote(u), "data:");
  }

  /** The data URI `_attr_repl` writes is one the neutralising keeps. */
  lemma DataUriSafe(x: Inline)
    ensures SafeValue(DataUri(x))
  {
    var u := DataUri(x);
    assert StartsWith(u, "data:");
    DataPlain();
    StripKeepsPrefix(u, "data:");
    CIPrefix(Strip(u), "data:");
  }

  /** The passes before the neutralising one, as one stage. */
  function Prepared(ts: seq<Token>, inv: Inventory): seq<Token>
  {
    DropSrcsets(BlankUrls(InlineUrls(InlineRefs(ts, inv), inv)))
  }

  lemma FlattenByStages(ts: seq<Token>, inv: Inventory)
    ensures Flatten(ts, inv) == DropLinks(NeutraliseAll(Prepared(ts, inv)))
  {
  }

  /** A token the last two passes leave alone reaches the renderer. */
  lemma Survives(d: seq<Token>, r: Token)
    requires r in d && Neutralise(r) == r && !r.Link?
    ensures r in DropLinks(NeutraliseAll(d))
  {
    var j :| 0 <= j < |d| && d[j] == r;
    assert NeutraliseAll(d)[j] == r;
  }

  lemma PreparedRef(ts: seq<Token>, inv: Inventory, k: nat, key: string)
    requires k < |ts| && ts[k].Ref? && key == NormPath(ts[k].value) && key in inv
    ensures Ref(ts[k].name, DoubleQuoted, DataUri(inv[key])) in Prepared(ts, inv)
  {
    var c := BlankUrls(InlineUrls(InlineRefs(ts, inv), inv));
    assert c[k] in c;
  }

  /** A reference to an image of the book reaches the renderer as that image's data URI. */
  lemma FlattenInlinesRef(ts: seq<Token>, inv: Inventory, k: nat, key: string)
    requires k < |ts| && ts[k].Ref? && key == NormPath(ts[k].value) && key in inv
    ensures Ref(ts[k].name, DoubleQuoted, DataUri(inv[key])) in Flatten(ts, inv)
  {
    var x := inv[key];
    PreparedRef(ts, inv, k, key);
    DataUriSafe(x);
    NeutraliseFixes(ts[k].name, DoubleQuoted, DataUri(x));
    Survives(Prepared(ts, inv), Ref(ts[k].name, DoubleQuoted, DataUri(x)));
    FlattenByStages(ts, inv);
  }

  lemma PreparedUrl(ts: seq<Token>, inv: Inventory, k: nat, key: string)
    requires k < |ts| && ts[k].Url? && key == NormPath(Unquote(ts[k].arg)) && key in inv
    ensures Url(DataUri(inv[key])) in Prepared(ts, inv)
  {
    var a := InlineRefs(ts, inv);
    assert a[k] == ts[k];
    var u := Url(DataUri(inv[key]));
    var b := InlineUrls(a, inv);
    assert b[k] == u;
    DataUriSettles(inv[key]);
    var c := BlankUrls(b);
    assert c[k] == u;
  }

  /** So does a CSS `url(…)` naming one. */
  lemma FlattenInlinesUrl(ts: seq<Token>, inv: Inventory, k: nat, key: string)
    requires k < |ts| && ts[k].Url? && key == NormPath(Unquote(ts[k].arg)) && key in inv
    ensures Url(DataUri(inv[key])) in Flatten(ts, inv)
  {
    PreparedUrl(ts, inv, k, key);
    Survives(Prepared(ts, inv), Url(DataUri(inv[key])));
    FlattenByStages(ts, inv);
  }

  /** A path under `images/` that `_norm` leaves as it is. */
  predicate LocalPath(name: string)
  {
    StartsWith(name, "images/") && '#' !in name && '?' !in name &&
    !IsSpace(name[|name| - 1]) && name[|name| - 1] != '"' && name[|name| - 1] != '\''
  }

  /** A plain name, written only in letters, digits, `.`, `_` and `/`, is a local path. */
  lemma PlainNameLocal(name: string)
    requires Assets.PlainName(name)
    ensures LocalPath(name)
  {
    assert Assets.NameChar(name[|name| - 1]);
  }

  /** Every image name the book loop writes is a local path, so `FlattenEmbedsAsset` applies to each of them. */
  lemma RunAssetsLocal(pages: seq<Book.Page>, env: Book.Env)
    ensures forall i | 0 <= i < |Book.Run(pages, env).assets| :: LocalPath(Book.Run(pages, env).assets[i].fileName)
  {
    Book.HandlerNamesAssets(env);
    Book.FoldPlainNames(pages, Book.HandlerOf(env));
    var a := Book.Run(pages, env).assets;
    assert a == Book.Fold(pages, Book.HandlerOf(env)).assets;
    forall i | 0 <= i < |a|
      ensures LocalPath(a[i].fileName)
    {
      PlainNameLocal(a[i].fileName);
    }
  }

  /** A reference written as a local image path is inlined with what the inventory holds under it. */
  lemma FlattenInlinesLocal(ts: seq<Token>, inv: Inventory, k: nat, x: Inline)
    requires k < |ts| && ts[k].Ref? && LocalPath(ts[k].value)
    requires ts[k].value in inv && inv[ts[k].value] == x
    ensures Ref(ts[k].name, DoubleQuoted, DataUri(x)) in Flatten(ts, inv)
  {
    NormKeepsImagePath(ts[k].value);
    FlattenInlinesRef(ts, inv, k, ts[k].value);
  }

  /** An image the book embedded, referenced by its own name, is inlined with its own content. */
  lemma FlattenEmbedsAsset(assets: seq<Assets.Asset>, b64: Assets.Bytes -> string, i: nat, ts: seq<Token>, k: nat)
    requires Book.DistinctNames(assets) && i < |assets| && k < |ts|
    requires ts[k].Ref? && ts[k].value == assets[i].fileName && LocalPath(assets[i].fileName)
    ensures Ref(ts[k].name, DoubleQuoted, DataUri(Inline(assets[i].mediaType, b64(assets[i].content))))
      in Flatten(ts, InventoryOf(assets, b64))
  {
    InventoryEntry(assets, b64, i);
    FlattenInlinesLocal(ts, InventoryOf(assets, b64), k, Inline(assets[i].mediaType, b64(assets[i].content)));
  }

  // ------------------------------------------------------------ image items

  /** The extensions ebooklib types as images: it reads an item's type off its file name. */
  const ImageExtensions: set<string> := {".jpg", ".jpeg", ".gif", ".png", ".tif", ".tiff"}

  /** An item `get_items_of_type(ITEM_IMAGE)` returns: its lower-cased extension is an image extension. */
  predicate ImageItem(name: string)
  {
    Lower(Assets.Suffix(name)) in ImageExtensions
  }

  /** Of the extensions the embedding gives, only `.jpg`, `.png` and `.gif` are typed as images. */
  lemma EmbeddedExtensionTyped(name: string)
    requires Assets.Suffix(name) in [".jpg", ".png", ".gif", ".webp", ".svg", ".bin"]
    ensures ImageItem(name) <==> Assets.Suffix(name) in [".jpg", ".png", ".gif"]
  {
    var e := Assets.Suffix(name);
    Assets.LowerOfLower(e);
    if e == ".webp" || e == ".svg" || e == ".bin" {
      NotImageExtension(e);
    }
  }

  lemma NotImageExtension(e: string)
    requires e == ".webp" || e == ".svg" || e == ".bin"
    ensures e !in ImageExtensions
  {
    assert e[1] !in "jgpt";
    assert forall x | x in ImageExtensions :: x[1] in "jgpt";
  }

  /** `img_items` as written: only the items typed as images, each under its file name. */
  function InventoryAsWritten(assets: seq<Assets.Asset>, b64: Assets.Bytes -> string): (inv: Inventory)
    ensures inv.Keys == set a | a in assets && ImageItem(a.fileName) :: a.fileName
  {
    if assets == [] then map[]
    else
      var last := assets[|assets| - 1];
      var init := assets[..|assets| - 1];
      var inv := InventoryAsWritten(init, b64);
      assert assets == init + [last];
      if ImageItem(last.fileName) then inv[last.fileName := Inline(last.mediaType, b64(last.content))] else inv
  }

  /** A token the neutralising changes into something other than a `<link>` reaches the renderer changed. */
  lemma SurvivesNeutralised(d: seq<Token>, r: Token)
    requires r in d && !Neutralise(r).Link?
    ensures Neutralise(r) in DropLinks(NeutraliseAll(d))
  {
    var j :| 0 <= j < |d| && d[j] == r;
    assert NeutraliseAll(d)[j] == Neutralise(r);
  }

  /** A local image path is an unresolved reference: the neutralising makes it `"#"`. */
  lemma LocalPathNeutralised(n: string, q: Quote, v: string)
    requires LocalPath(v)
    ensures Neutralise(Ref(n, q, v)) == Ref(n, DoubleQuoted, Anchor())
  {
    assert Plain("images/");
    StripKeepsPrefix(v, "images/");
    var val := Strip(v);
    assert val[0] == val[..7][0] == 'i';
    LowerAt(val, 0);
    var low := Lower(val);
    NoLead(low, "http://");
    NoLead(low, "https://");
    NoLead(val, "//");
    NoLead(low, "data:");
    NoLead(val, "#");
    NoLead(low, "mailto:");
    NoLead(low, "javascript:");
  }

  lemma NoLead(s: string, p: string)
    requires s != [] && s[0] == 'i' && p != [] && p[0] != 'i'
    ensures !StartsWith(s, p)
  {
  }

  /**
   * As written, a reference to an embedded file that ebooklib does not type
   * as an image (a `.svg`, `.webp` or `.bin` one) is not inlined: the
   * neutralising turns it into `"#"`, so the image is missing from the PDF.
   */
  lemma NonImageAssetNeutralised(assets: seq<Assets.Asset>, b64: Assets.Bytes -> string, i: nat, ts: seq<Token>, k: nat)
    requires i < |assets| && k < |ts|
    requires ts[k].Ref? && ts[k].value == assets[i].fileName && LocalPath(assets[i].fileName)
    requires !ImageItem(assets[i].fileName)
    ensures Ref(ts[k].name, DoubleQuoted, Anchor()) in FlattenAsWritten(ts, InventoryAsWritten(assets, b64))
  {
    var inv := InventoryAsWritten(assets, b64);
    NoImageEntry(assets, b64, ts[k].value);
    LocalRefNeutralised(ts, inv, k);
  }

  /** A reference to a local path the inventory lacks reaches the renderer as `"#"`. */
  lemma LocalRefNeutralised(ts: seq<Token>, inv: Inventory, k: nat)
    requires k < |ts| && ts[k].Ref? && LocalPath(ts[k].value) && ts[k].value !in inv
    ensures Ref(ts[k].name, DoubleQuoted, Anchor()) in FlattenAsWritten(ts, inv)
  {
    var t := ts[k];
    NormKeepsImagePath(t.value);
    PreparedAsWrittenKeeps(ts, inv, k);
    LocalPathNeutralised(t.name, t.quote, t.value);
    SurvivesNeutralised(PreparedAsWritten(ts, inv), t);
  }

  /** As written, a name that is not an image item has no entry. */
  lemma NoImageEntry(assets: seq<Assets.Asset>, b64: Assets.Bytes -> string, x: string)
    requires !ImageItem(x)
    ensures x !in InventoryAsWritten(assets, b64)
  {
  }

  /** The passes before the neutralising one, as written. */
  function PreparedAsWritten(ts: seq<Token>, inv: Inventory): (r: seq<Token>)
    ensures FlattenAsWritten(ts, inv) == DropLinks(NeutraliseAll(r))
  {
    DropSrcsets(BlankUrlsAsWritten(InlineUrls(InlineRefs(ts, inv), inv)))
  }

  /** A reference the inventory does not know passes the passes before the neutralising one untouched. */
  lemma PreparedAsWrittenKeeps(ts: seq<Token>, inv: Inventory, k: nat)
    requires k < |ts| && ts[k].Ref? && NormPath(ts[k].value) !in inv
    ensures ts[k] in PreparedAsWritten(ts, inv)
  {
    var c := BlankUrlsAsWritten(InlineUrls(InlineRefs(ts, inv), inv));
    assert c[k] == ts[k];
  }

  // ------------------------------------------------------------ quoted data URLs

  /** `url("data:…")`: a data URI written in double quotes, as CSS allows. */
  function QuotedData(d: string): string
  {
    "\"data:" + d + "\""
  }

  lemma InlineRefsSkip(u: Token, inv: Inventory)
    requires !u.Ref?
    ensures InlineRefs([u], inv) == [u]
  {
  }

  lemma InlineUrlsSkip(u: Token, inv: Inventory)
    requires InlineUrl(u, inv) == u
    ensures InlineUrls([u], inv) == [u]
  {
  }

  /** Tokens the last three passes leave alone. */
  lemma TailSkip(w: Token)
    requires w.Url?
    ensures DropSrcsets([w]) == [w] && NeutraliseAll([w]) == [w] && DropLinks([w]) == [w]
  {
  }

  /** A lone `url(…)` that names no image is untouched by the inlining passes. */
  lemma LoneUrlNotInlined(a: string, inv: Inventory, key: string)
    requires key == NormPath(Unquote(a)) && key !in inv
    ensures InlineUrls(InlineRefs([Url(a)], inv), inv) == [Url(a)]
  {
    InlineRefsSkip(Url(a), inv);
    assert InlineUrl(Url(a), inv) == Url(a);
    InlineUrlsSkip(Url(a), inv);
  }

  /** So it goes through the passes with only the blanking applied. */
  lemma LoneUrlAsWritten(a: string, inv: Inventory, key: string)
    requires key == NormPath(Unquote(a)) && key !in inv
    ensures FlattenAsWritten([Url(a)], inv) == [BlankUrlAsWritten(Url(a))]
  {
    LoneUrlNotInlined(a, inv, key);
    var w := BlankUrlAsWritten(Url(a));
    assert BlankUrlsAsWritten([Url(a)]) == [w];
    TailSkip(w);
  }

  lemma LoneUrl(a: string, inv: Inventory, key: string)
    requires key == NormPath(Unquote(a)) && key !in inv
    ensures Flatten([Url(a)], inv) == [BlankUrl(Url(a))]
  {
    LoneUrlNotInlined(a, inv, key);
    var c := BlankUrl(Url(a));
    assert BlankUrls([Url(a)]) == [c];
    TailSkip(c);
  }

  /** As written, the blanking pattern tests the raw argument, so the quoted data URI is emptied. */
  lemma QuotedDataBlankedAsWritten(d: string)
    ensures FlattenAsWritten([Url(QuotedData(d))], map[]) == [Url("''")]
  {
    var q := QuotedData(d);
    QuotedDataRaw(d);
    LoneUrlAsWritten(q, map[], NormPath(Unquote(q)));
  }

  lemma QuotedDataRaw(d: string)
    ensures BlankUrlAsWritten(Url(QuotedData(d))) == Url("''")
  {
    var q := QuotedData(d);
    LowerAt(q, 0);
    assert !StartsWithCI(q, "data:");
  }

  /** Unquoted, the argument does begin with `data:`. */
  lemma QuotedDataUnquoted(d: string)
    ensures StartsWithCI(Unquote(QuotedData(d)), "data:")
  {
    var q := QuotedData(d);
    assert q[0] == '"' && q[|q| - 1] == '"';
    StripIdempotent(q);
    var inner := q[1..];
    assert StartsWith(inner, "data:");
    DataPlain();
    assert StripChar(q, '"') == StripChar(inner, '"');
    StripCharKeepsPrefix(inner, '"', "data:");
    StripCharKeepsPrefix(StripChar(inner, '"'), '\'', "data:");
    CIPrefix(Unquote(q), "data:");
  }

  /** Testing the unquoted argument keeps it. */
  lemma QuotedDataKept(d: string)
    ensures Flatten([Url(QuotedData(d))], map[]) == [Url(QuotedData(d))]
  {
    QuotedDataUnquoted(d);
    LoneUrl(QuotedData(d), map[], NormPath(Unquote(QuotedData(d))));
  }
}
