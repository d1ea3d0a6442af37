/**
 * The per-page decisions of `build_book` once a page is cleaned and its
 * images are embedded: the chapter title, the gate that skips empty or
 * reader-chrome pages, the reshaping of bare text into paragraphs, and the
 * XHTML validity test that a chapter must pass to enter the book.
 */
module Gate {
  import opened Basics
  import opened Dom
  import Sanitizer

  // ---------------------------------------------------------------- titles

  /** `find(tag).get_text(sep, strip=True)`, or "" when there is no such element. */
  function FirstText(doc: seq<Node>, tag: string, sep: string): (r: string)
    ensures r == [] <==> Find(doc, tag).None? || Blank([Find(doc, tag).value])
  {
    match Find(doc, tag)
    case None => ""
    case Some(n) => BlankText([n], sep); GetText([n], sep)
  }

  /** `_h1_text`: the text of the first `<h1>`. */
  function HeadingText(doc: seq<Node>): string
  {
    FirstText(doc, "h1", "")
  }

  /** `extract_title`: the first `<h1>`'s text, else the `<title>` text, else the fallback. */
  function ExtractTitle(doc: seq<Node>, fallback: string): (r: string)
    ensures r != [] || r == fallback
    ensures r == HeadingText(doc) || r == FirstText(doc, "title", "") || r == fallback
  {
    var h := HeadingText(doc);
    if h != [] then h
    else
      var t := FirstText(doc, "title", "");
      if t != [] then t else fallback
  }

  /** The chapter title: `_h1_text` when it is non-empty, else `extract_title` with the file stem. */
  function ChapterTitle(doc: seq<Node>, stem: string): string
  {
    var h := HeadingText(doc);
    if h != [] then h else ExtractTitle(doc, stem)
  }

  /** `include_h1_in_pdf`. */
  predicate IncludeH1(doc: seq<Node>)
  {
    HeadingText(doc) != []
  }

  /**
   * The heading goes into the PDF exactly when the first `<h1>` has visible
   * text; the chapter title is then that text, and in every case it is what
   * `extract_title` would give, so the first branch of the source is redundant.
   * A page with a non-empty stem always gets a non-empty title.
   */
  lemma TitleChoice(doc: seq<Node>, stem: string)
    ensures IncludeH1(doc) <==> Find(doc, "h1").Some? && !Blank([Find(doc, "h1").value])
    ensures IncludeH1(doc) ==> ChapterTitle(doc, stem) == HeadingText(doc)
    ensures ChapterTitle(doc, stem) == ExtractTitle(doc, stem)
    ensures stem != [] ==> ChapterTitle(doc, stem) != []
  {
  }

  // --------------------------------------------------------- what is measured

  /** `soup.body`, or the whole page when it has none. */
  predicate HasBody(doc: seq<Node>)
  {
    Find(doc, "body").Some?
  }

  /** The nodes whose markup is `inner`: the children of `<body>`, or the page itself. */
  function Content(doc: seq<Node>): seq<Node>
  {
    match Find(doc, "body")
    case Some(b) => b.kids
    case None => doc
  }

  /** `inner`: the body's children written out and stripped (or `str(soup).strip()` without a body). */
  function Inner(doc: seq<Node>): string
  {
    Strip(Serialize(Content(doc)))
  }

  /** What the gate reads off the re-parsed `inner`. */
  datatype Measures = Measures(plain: string, hasImg: bool, paragraphs: nat, links: nat)

  /**
   * The re-parse of `inner` opens a `<p>` of its own: libxml2's HTML parser
   * wraps character data that comes before any element in an implied
   * paragraph, so a text-led `inner` counts one `<p>` more than it holds.
   */
  predicate ImpliedParagraph(c: seq<Node>)
  {
    !AllSpace(LeadingText(c))
  }

  /**
   * The plain text keeps every non-space character of the content, in order;
   * no `<p>` is counted exactly when the content has none and does not start
   * with text.
   */
  function Measure(doc: seq<Node>): (m: Measures)
    ensures NonSpace(m.plain) == NonSpace(Concat(Strings(Content(doc))))
    ensures m.paragraphs == 0 <==> Count(Content(doc), "p") == 0 && AllSpace(LeadingText(Content(doc)))
    ensures m.hasImg <==> Count(Content(doc), "img") > 0
  {
    var c := Content(doc);
    JoinNonSpace(Visible(Strings(c)), " ");
    VisibleText(Strings(c));
    var implied := if ImpliedParagraph(c) then 1 else 0;
    Measures(GetText(c, " "), Count(c, "img") > 0, Count(c, "p") + implied, Count(c, "a"))
  }

  // ------------------------------------------------------- tag-name patterns

  /**
   * The regex `<name\b` (case-insensitive) at the start tag of an element
   * named `tag`: the lower-cased name begins with `name` and no word character
   * follows it.
   */
  predicate TagMatches(tag: string, name: string)
  {
    StartsWith(Lower(tag), name) && (|tag| == |name| || !IsWordChar(tag[|name|]))
  }

  predicate MatchesAny(tag: string, names: seq<string>)
  {
    exists j | 0 <= j < |names| :: TagMatches(tag, names[j])
  }

  /** The alternatives of the `has_visible` tag pattern. */
  const VisibleNames: seq<string> :=
    ["img", "p", "h1", "h2", "h3", "h4", "h5", "h6", "ul", "ol", "li", "a", "blockquote", "table"]

  /** The alternatives of the block-tag pattern that prevents reshaping. */
  const BlockNames: seq<string> :=
    ["p", "h1", "h2", "h3", "h4", "h5", "h6", "ul", "ol", "li", "blockquote", "table", "img"]

  /** The element names the validity test looks for below `<body>`. */
  const ValidNames: set<string> :=
    {"p", "img", "h1", "h2", "h3", "ul", "ol", "li", "a", "blockquote", "table"}

  predicate VisibleTag(tag: string) { MatchesAny(tag, VisibleNames) }
  predicate BlockTag(tag: string) { MatchesAny(tag, BlockNames) }
  predicate ValidTag(tag: string) { tag in ValidNames }

  /** Some element of the forest, at any depth, has a name that `P` accepts. */
  predicate Somewhere(ns: seq<Node>, P: string -> bool)
  {
    exists i | 0 <= i < |ns| :: ns[i].Elem? && (P(ns[i].tag) || Somewhere(ns[i].kids, P))
  }

  /** The forest of one node, for each of the recursive walks. */
  lemma One(n: Node, tag: string, P: string -> bool)
    ensures Find([n], tag) == FindNode(n, tag)
    ensures Count([n], tag) == NodeCount(n, tag)
    ensures Strings([n]) == NodeStrings(n)
    ensures Somewhere([n], P) <==> n.Elem? && (P(n.tag) || Somewhere(n.kids, P))
  {
    assert [n][1..] == [];
  }

  /** An element named `tag` is found by any name test that accepts `tag`. */
  lemma {:induction false} CountedSomewhere(ns: seq<Node>, tag: string, P: string -> bool)
    requires Count(ns, tag) > 0 && P(tag)
    ensures Somewhere(ns, P)
  {
    var n := ns[0];
    if NodeCount(n, tag) > 0 {
      if n.tag != tag {
        CountedSomewhere(n.kids, tag, P);
      }
      assert ns[0].Elem? && (P(ns[0].tag) || Somewhere(ns[0].kids, P));
    } else {
      CountedSomewhere(ns[1..], tag, P);
      var i :| 0 <= i < |ns[1..]| && ns[1..][i].Elem? && (P(ns[1..][i].tag) || Somewhere(ns[1..][i].kids, P));
      assert ns[i + 1] == ns[1..][i];
    }
  }

  /** `"img"` is one of the names each of the three tests accepts. */
  lemma ImgNamed()
    ensures VisibleTag("img") && BlockTag("img") && ValidTag("img")
  {
    assert Lower("img") == "img";
    assert TagMatches("img", VisibleNames[0]);
    assert TagMatches("img", BlockNames[12]);
  }

  // ------------------------------------------------------------------ the gate

  /** Plain text at least this long keeps the page whatever else holds. */
  const ForcedKeepLength: nat := 200
  const JunkLength: nat := 240
  const ShortLength: nat := 160
  const ShortLinks: nat := 5
  const ChromeBodyLength: nat := 400

  /** `has_visible`: a visible-element tag or any word character in `inner`. */
  predicate HasVisible(doc: seq<Node>)
  {
    Somewhere(Content(doc), VisibleTag) || HasWord(Inner(doc))
  }

  /** `looks_junk`; `junk` is the full match of the reader-chrome pattern. */
  predicate LooksJunk(m: Measures, junk: string -> bool)
  {
    !m.hasImg && |m.plain| < JunkLength && junk(m.plain)
  }

  predicate VeryShort(m: Measures)
  {
    !m.hasImg && |m.plain| < ShortLength && m.paragraphs == 0 && m.links <= ShortLinks
  }

  predicate BodyTooSmall(m: Measures)
  {
    !m.hasImg && |m.plain| < ChromeBodyLength && m.paragraphs <= 1
  }

  /** `doc_title`: the `<title>` text, lower-cased. */
  function DocTitle(doc: seq<Node>): string
  {
    Lower(FirstText(doc, "title", " "))
  }

  predicate TitleLooksChrome(doc: seq<Node>)
  {
    Contains(DocTitle(doc), Sanitizer.ChromeTitle)
  }

  /**
   * The page is skipped before it becomes a chapter. A skipped page has less
   * than 200 characters of plain text and no image.
   */
  predicate Skip(doc: seq<Node>, junk: string -> bool)
    ensures Skip(doc, junk) ==> |Measure(doc).plain| < ForcedKeepLength && Count(Content(doc), "img") == 0
  {
    ImageShows(doc);
    var m := Measure(doc);
    && |m.plain| < ForcedKeepLength
    && (|| Inner(doc) == []
        || !HasVisible(doc)
        || LooksJunk(m, junk)
        || VeryShort(m)
        || (TitleLooksChrome(doc) && BodyTooSmall(m)))
  }

  /** An image makes `inner` non-empty and visible. */
  lemma ImageShows(doc: seq<Node>)
    ensures Count(Content(doc), "img") > 0 ==> Inner(doc) != [] && HasVisible(doc)
  {
    if Count(Content(doc), "img") > 0 {
      ImageSeen(doc);
    }
  }

  /** `inner` is empty exactly when the page's content is blank text only. */
  lemma InnerEmpty(doc: seq<Node>)
    ensures Inner(doc) == [] <==>
      forall i | 0 <= i < |Content(doc)| :: Content(doc)[i].Text? && AllSpace(Content(doc)[i].text)
  {
    SerializeSpace(Content(doc));
  }

  /** `inner` contains markup exactly when the content has an element at its top level. */
  lemma InnerMarkup(doc: seq<Node>)
    ensures '<' in Inner(doc) <==> HasElem(Content(doc))
  {
    StripKeepsChar(Serialize(Content(doc)), '<');
    SerializeMarkup(Content(doc));
  }

  /** Every name of the visible-tag pattern starts with a letter, so its element writes a word. */
  lemma VisibleTagWord(tag: string)
    requires VisibleTag(tag)
    ensures HasWord(tag)
  {
    var j :| 0 <= j < |VisibleNames| && TagMatches(tag, VisibleNames[j]);
    var name := VisibleNames[j];
    assert 'a' <= name[0] <= 'z';
    LowerAt(tag, 0);
    assert Lower(tag)[0] == name[0];
    assert IsWordChar(tag[0]);
  }

  /** The markup an element opens with: `<`, its name and its attributes. */
  function OpenTag(n: Node): string
    requires n.Elem?
  {
    "<" + n.tag + SerializeAttrs(n.attrs)
  }

  lemma ElemMarkup(n: Node)
    requires n.Elem?
    ensures n.kids != [] ==> SerializeNode(n) == OpenTag(n) + ">" + Serialize(n.kids) + "</" + n.tag + ">"
    ensures StartsWith(SerializeNode(n), OpenTag(n))
  {
  }

  /** An element writes a word when its name is a word or its children write one. */
  lemma ElemWord(n: Node)
    requires n.Elem? && (HasWord(n.tag) || HasWord(Serialize(n.kids)))
    ensures HasWord(SerializeNode(n))
  {
    ElemMarkup(n);
    var w := SerializeNode(n);
    var o := OpenTag(n);
    if HasWord(n.tag) {
      HasWordAppend("<", n.tag);
      HasWordAppend("<" + n.tag, SerializeAttrs(n.attrs));
      WordInPrefix(w, o);
    } else {
      var k := Serialize(n.kids);
      assert n.kids != [] by {
        assert !HasWord(Serialize([]));
      }
      HasWordAppend(o + ">", k);
      HasWordAppend(o + ">" + k, "</");
      HasWordAppend(o + ">" + k + "</", n.tag);
      HasWordAppend(o + ">" + k + "</" + n.tag, ">");
    }
  }

  lemma WordInPrefix(w: string, o: string)
    requires StartsWith(w, o) && HasWord(o)
    ensures HasWord(w)
  {
    var i :| 0 <= i < |o| && IsWordChar(o[i]);
    assert w[i] == o[i];
  }

  /** A visible-element tag anywhere in the forest puts a word character in its markup. */
  lemma {:induction false} SomewhereWord(ns: seq<Node>)
    requires Somewhere(ns, VisibleTag)
    ensures HasWord(Serialize(ns))
  {
    var i :| 0 <= i < |ns| && ns[i].Elem? && (VisibleTag(ns[i].tag) || Somewhere(ns[i].kids, VisibleTag));
    if i > 0 {
      assert ns[1..][i - 1] == ns[i];
      SomewhereWord(ns[1..]);
    } else if VisibleTag(ns[0].tag) {
      VisibleTagWord(ns[0].tag);
      ElemWord(ns[0]);
    } else {
      SomewhereWord(ns[0].kids);
      ElemWord(ns[0]);
    }
    HasWordAppend(SerializeNode(ns[0]), Serialize(ns[1..]));
  }

  /**
   * The tag pattern of `has_visible` adds nothing to the `\w` test: a page has
   * visible content exactly when its markup has a word character, that is
   * (when its top-level tags are words) when some top-level node is an
   * element or a text that shows a word.
   */
  lemma VisibleIsWord(doc: seq<Node>)
    ensures HasVisible(doc) <==> HasWord(Inner(doc))
    ensures (forall i | 0 <= i < |Content(doc)| :: Content(doc)[i].Elem? ==> HasWord(Content(doc)[i].tag)) ==>
      (HasVisible(doc) <==> ShowsWord(Content(doc)))
  {
    HasWordStrip(Serialize(Content(doc)));
    if Somewhere(Content(doc), VisibleTag) {
      SomewhereWord(Content(doc));
    }
    if forall i | 0 <= i < |Content(doc)| :: Content(doc)[i].Elem? ==> HasWord(Content(doc)[i].tag) {
      SerializeWord(Content(doc));
    }
  }

  /** A page without a `<title>` never looks like reader chrome by its title. */
  lemma UntitledNotChrome(doc: seq<Node>)
    requires Count(doc, "title") == 0
    ensures !TitleLooksChrome(doc)
  {
    assert DocTitle(doc) == [];
  }

  // ---------------------------------------------------------------- reshaping

  /** The reshaping condition: no `<p>`, and no markup or no block tag in `inner`. */
  predicate NeedsReshape(doc: seq<Node>)
  {
    Measure(doc).paragraphs == 0 && ('<' !in Inner(doc) || !Somewhere(Content(doc), BlockTag))
  }

  /**
   * The "no markup" half of the reshaping condition is implied by the other:
   * a page is reshaped exactly when it holds no `<p>`, does not start with
   * text (which the re-parse would wrap in a `<p>`) and holds no block tag.
   */
  lemma ReshapeCondition(doc: seq<Node>)
    ensures NeedsReshape(doc) <==>
      Count(Content(doc), "p") == 0 && AllSpace(LeadingText(Content(doc))) && !Somewhere(Content(doc), BlockTag)
  {
    InnerMarkup(doc);
  }

  /** The end of the whitespace run that starts at `k`. */
  function RunEnd(s: string, k: nat): (e: nat)
    requires k <= |s|
    ensures k <= e <= |s|
    ensures forall i | k <= i < e :: IsSpace(s[i])
    ensures e < |s| ==> !IsSpace(s[e])
    decreases |s| - k
  {
    if k < |s| && IsSpace(s[k]) then RunEnd(s, k + 1) else k
  }

  /**
   * The first paragraph break at or after `k`: a maximal whitespace run that
   * holds at least two line feeds, as the pair (start, end). `re.split` on
   * `\n\s*\n` cuts such a run from its first to its last line feed; the rest
   * of the run is whitespace that the stripping of the pieces removes anyway.
   */
  function NextBreak(s: string, k: nat): (r: Option<(nat, nat)>)
    requires k <= |s|
    ensures r.Some? ==> k <= r.value.0 < r.value.1 <= |s|
    ensures r.Some? ==> forall j | r.value.0 <= j < r.value.1 :: IsSpace(s[j])
    decreases |s| - k
  {
    if k == |s| then None
    else if IsSpace(s[k]) then
      var e := RunEnd(s, k);
      if multiset(s[k..e])['\n'] >= 2 then Some((k, e)) else NextBreak(s, e)
    else NextBreak(s, k + 1)
  }

  /** `re.split(r"\n\s*\n", s)`, each piece up to whitespace at its ends. */
  function Pieces(s: string): (r: seq<string>)
    ensures r != []
    decreases |s|
  {
    match NextBreak(s, 0)
    case None => [s]
    case Some((i, e)) => [s[..i]] + Pieces(s[e..])
  }

  /** Non-empty, with no whitespace at either end: what `strip` leaves of a non-blank text. */
  predicate Trimmed(s: string)
  {
    s != [] && !IsSpace(s[0]) && !IsSpace(s[|s| - 1])
  }

  /** `[t.strip() for t in pieces if t.strip()]`. */
  function Stripped(ps: seq<string>): (r: seq<string>)
    ensures forall i | 0 <= i < |r| :: Trimmed(r[i])
  {
    if ps == [] then [] else KeepPiece(Strip(ps[0]), Stripped(ps[1..]))
  }

  /** One stripped piece in front of the kept ones, dropped when it is empty. */
  function KeepPiece(t: string, rest: seq<string>): (r: seq<string>)
    requires t != [] ==> Trimmed(t)
    requires forall i | 0 <= i < |rest| :: Trimmed(rest[i])
    ensures forall i | 0 <= i < |r| :: Trimmed(r[i])
    ensures r == (if t == [] then [] else [t]) + rest
  {
    if t == [] then rest else TrimmedCons(t, rest); [t] + rest
  }

  lemma TrimmedCons(t: string, rest: seq<string>)
    requires Trimmed(t) && forall i | 0 <= i < |rest| :: Trimmed(rest[i])
    ensures forall i | 0 <= i < |[t] + rest| :: Trimmed(([t] + rest)[i])
  {
    forall i | 0 <= i < |[t] + rest|
      ensures Trimmed(([t] + rest)[i])
    {
      if i > 0 { assert ([t] + rest)[i] == rest[i - 1]; }
    }
  }

  /**
   * `parts_txt`, with the single-paragraph fallback of the source: every
   * paragraph is non-empty and stripped, together they hold exactly the
   * non-space text in its order, and there are none exactly when the text is
   * blank.
   */
  function Paragraphs(plain: string): (r: seq<string>)
    ensures forall i | 0 <= i < |r| :: Trimmed(r[i])
    ensures NonSpace(Concat(r)) == NonSpace(plain)
    ensures r == [] <==> AllSpace(plain)
  {
    var ps := Pieces(plain);
    var parts := Stripped(ps);
    PiecesText(plain);
    StrippedText(ps);
    PartsBlank(parts);
    NonSpaceBlank(plain);
    BlankExactly(NonSpace(Concat(parts)), NonSpace(Concat(ps)), NonSpace(plain), parts == [], AllSpace(plain));
    if parts == [] && Strip(plain) != [] then [Strip(plain)] else parts
  }

  lemma {:induction false} PiecesText(s: string)
    ensures NonSpace(Concat(Pieces(s))) == NonSpace(s)
    decreases |s|
  {
    var nb := NextBreak(s, 0);
    if nb.None? {
      assert Pieces(s) == [s];
      ConcatCons(s, []);
      assert [s] + [] == [s];
      assert Concat([s]) == s;
    } else {
      var i, e := nb.value.0, nb.value.1;
      var rest := Pieces(s[e..]);
      assert Pieces(s) == [s[..i]] + rest;
      ConcatCons(s[..i], rest);
      PiecesText(s[e..]);
      NonSpaceAppend(s[..i], Concat(rest));
      NonSpaceGap(s, i, e);
    }
  }

  lemma {:induction false} StrippedText(ps: seq<string>)
    ensures NonSpace(Concat(Stripped(ps))) == NonSpace(Concat(ps))
  {
    if ps != [] {
      var t := Strip(ps[0]);
      var head := if t != [] then [t] else [];
      assert Stripped(ps) == head + Stripped(ps[1..]);
      ConcatAppend(head, Stripped(ps[1..]));
      StrippedText(ps[1..]);
      NonSpaceStrip(ps[0]);
      NonSpaceBlank(ps[0]);
      assert Concat(head) == (if t != [] then t else []) by {
        if t != [] { assert Concat([t]) == t + Concat([]); }
      }
      NonSpaceAppend(Concat(head), Concat(Stripped(ps[1..])));
      NonSpaceAppend(ps[0], Concat(ps[1..]));
    }
  }

  /** Stripped, non-empty paragraphs have no text exactly when there are none. */
  lemma PartsBlank(parts: seq<string>)
    requires forall i | 0 <= i < |parts| :: Trimmed(parts[i])
    ensures NonSpace(Concat(parts)) == [] <==> parts == []
  {
    if parts != [] {
      var t := parts[0];
      assert !IsSpace(t[0]);
      NonSpaceBlank(t);
      NonSpaceAppend(t, Concat(parts[1..]));
    }
  }

  /** The one-paragraph fallback of the source is never taken. */
  lemma ParagraphsOf(plain: string)
    ensures Paragraphs(plain) == Stripped(Pieces(plain))
  {
    var ps := Pieces(plain);
    var parts := Stripped(ps);
    PiecesText(plain);
    StrippedText(ps);
    PartsBlank(parts);
    NonSpaceBlank(plain);
    BlankExactly(NonSpace(Concat(parts)), NonSpace(Concat(ps)), NonSpace(plain), parts == [], AllSpace(plain));
    assert parts == [] ==> Strip(plain) == [];
  }

  lemma BlankExactly(a: string, b: string, c: string, none: bool, blank: bool)
    requires a == b && b == c
    requires a == [] <==> none
    requires c == [] <==> blank
    ensures none <==> blank
  {
  }

  /** One reshaped paragraph as markup. */
  function ParagraphHtml(t: string): string
  {
    "<p>" + Escape(t) + "</p>"
  }

  function ParagraphsHtml(parts: seq<string>): (r: seq<string>)
    ensures |r| == |parts|
  {
    if parts == [] then [] else [ParagraphHtml(parts[0])] + ParagraphsHtml(parts[1..])
  }

  /** The reshaped `inner`: one escaped `<p>` per paragraph, one per line. */
  function ReshapeHtml(parts: seq<string>): string
  {
    Join(ParagraphsHtml(parts), "\n")
  }

  /** One reshaped paragraph as the parser reads it back. */
  function ParagraphNode(t: string): Node
  {
    Elem(0, "p", [], [Text(t)])
  }

  /** The forest the reshaped markup parses to: the paragraphs with line feeds between them. */
  function ReshapeTree(parts: seq<string>): seq<Node>
  {
    if parts == [] then []
    else if |parts| == 1 then [ParagraphNode(parts[0])]
    else [ParagraphNode(parts[0]), Text("\n")] + ReshapeTree(parts[1..])
  }

  predicate Unquoted(s: string) { '"' !in s && '\'' !in s }

  lemma {:induction false} EscapeTextUnquoted(s: string)
    requires Unquoted(s)
    ensures EscapeText(s) == Escape(s)
  {
    if s != [] {
      EscapeTextUnquoted(s[1..]);
    }
  }

  /** Without quote characters, writing the reshaped forest out gives the reshaped markup back. */
  lemma {:induction false} ReshapeWritesTree(parts: seq<string>)
    requires forall i | 0 <= i < |parts| :: Unquoted(parts[i])
    ensures Serialize(ReshapeTree(parts)) == ReshapeHtml(parts)
  {
    if parts != [] {
      var t := parts[0];
      ParagraphWrites(t);
      if |parts| == 1 {
        assert ReshapeTree(parts) == [ParagraphNode(t)];
      } else {
        var rest := ReshapeTree(parts[1..]);
        ReshapeWritesTree(parts[1..]);
        SerializeParagraphLine(t, rest);
        JoinHead(ParagraphsHtml(parts), "\n");
        assert ParagraphsHtml(parts)[1..] == ParagraphsHtml(parts[1..]);
      }
    }
  }

  /** A paragraph of plain text serializes to its `<p>` markup. */
  lemma ParagraphWrites(t: string)
    requires Unquoted(t)
    ensures SerializeNode(ParagraphNode(t)) == ParagraphHtml(t)
  {
    EscapeTextUnquoted(t);
    assert Serialize([Text(t)]) == EscapeText(t);
  }

  lemma SerializeParagraphLine(t: string, rest: seq<Node>)
    ensures Serialize([ParagraphNode(t), Text("\n")] + rest)
         == SerializeNode(ParagraphNode(t)) + ("\n" + Serialize(rest))
  {
    var ns := [ParagraphNode(t), Text("\n")] + rest;
    assert ns[0] == ParagraphNode(t);
    assert ns[1..] == [Text("\n")] + rest && ns[1..][0] == Text("\n") && ns[1..][1..] == rest;
    assert SerializeNode(Text("\n")) == "\n";
    assert Serialize(ns[1..]) == "\n" + Serialize(rest);
    assert Serialize(ns) == SerializeNode(ParagraphNode(t)) + Serialize(ns[1..]);
  }

  lemma JoinHead(xs: seq<string>, sep: string)
    requires |xs| > 1
    ensures Join(xs, sep) == xs[0] + (sep + Join(xs[1..], sep))
  {
  }

  /** A paragraph followed by a line feed shows that paragraph and holds one `<p>`. */
  lemma ParagraphPair(t: string)
    requires Trimmed(t)
    ensures Visible(Strings([ParagraphNode(t), Text("\n")])) == [t]
    ensures Count([ParagraphNode(t), Text("\n")], "p") == 1
  {
    var p := ParagraphNode(t);
    assert [p, Text("\n")] == [p] + [Text("\n")];
    ParagraphAlone(t);
    PairText(p, t);
    One(Text("\n"), "p", ValidTag);
    CountAppend([p], [Text("\n")], "p");
  }

  lemma PairText(p: Node, t: string)
    requires Visible(Strings([p])) == [t]
    ensures Visible(Strings([p] + [Text("\n")])) == [t]
  {
    One(Text("\n"), "p", ValidTag);
    StringsAppend([p], [Text("\n")]);
    VisibleAppend(Strings([p]), ["\n"]);
    NewlineInvisible();
  }

  lemma NewlineInvisible()
    ensures Visible(["\n"]) == []
  {
    assert AllSpace("\n");
    assert ["\n"][1..] == [];
  }

  lemma ParagraphAlone(t: string)
    requires Trimmed(t)
    ensures Visible(Strings([ParagraphNode(t)])) == [t]
    ensures Count([ParagraphNode(t)], "p") == 1
  {
    var p := ParagraphNode(t);
    One(p, "p", ValidTag);
    One(Text(t), "p", ValidTag);
    StripIdempotent(t);
    assert Visible([t]) == [t] by {
      assert [t][1..] == [];
    }
  }

  /** The reshaped forest shows exactly the paragraphs, in order. */
  lemma {:induction false} ReshapeTreeText(parts: seq<string>)
    requires forall i | 0 <= i < |parts| :: Trimmed(parts[i])
    ensures Visible(Strings(ReshapeTree(parts))) == parts
  {
    if |parts| == 1 {
      ParagraphAlone(parts[0]);
    } else if parts != [] {
      var pair := [ParagraphNode(parts[0]), Text("\n")];
      var rest := ReshapeTree(parts[1..]);
      ReshapeTreeText(parts[1..]);
      ParagraphPair(parts[0]);
      StringsAppend(pair, rest);
      VisibleAppend(Strings(pair), Strings(rest));
      assert parts == [parts[0]] + parts[1..];
    }
  }

  /** The reshaped forest has one `<p>` per paragraph. */
  lemma {:induction false} ReshapeTreeCount(parts: seq<string>)
    requires forall i | 0 <= i < |parts| :: Trimmed(parts[i])
    ensures Count(ReshapeTree(parts), "p") == |parts|
  {
    if |parts| == 1 {
      ParagraphAlone(parts[0]);
    } else if parts != [] {
      var pair := [ParagraphNode(parts[0]), Text("\n")];
      ReshapeTreeCount(parts[1..]);
      ParagraphPair(parts[0]);
      CountAppend(pair, ReshapeTree(parts[1..]), "p");
    }
  }

  // ---------------------------------------------------------------- validity

  /** The text before the first element of the body: `body_node.text`. */
  function LeadingText(ns: seq<Node>): string
  {
    if ns == [] || ns[0].Elem? then [] else ns[0].text + LeadingText(ns[1..])
  }

  /**
   * The validity test on the chapter body: leading text, or an element of
   * interest at any depth; so a body holding a `p`, `img`, `h1`, `h2`, `h3`,
   * `ul`, `ol`, `li`, `a`, `blockquote` or `table` element is valid.
   */
  predicate Valid(body: seq<Node>)
    ensures (exists t | t in ValidNames :: Count(body, t) > 0) ==> Valid(body)
  {
    CountedValid(body);
    !AllSpace(LeadingText(body)) || Somewhere(body, ValidTag)
  }

  lemma CountedValid(body: seq<Node>)
    ensures (exists t | t in ValidNames :: Count(body, t) > 0) ==> Somewhere(body, ValidTag)
  {
    if t :| t in ValidNames && Count(body, t) > 0 {
      CountedSomewhere(body, t, ValidTag);
    }
  }

  /** A reshaped body is valid exactly when it has at least one paragraph. */
  lemma ReshapedValid(parts: seq<string>)
    ensures Valid(ReshapeTree(parts)) <==> parts != []
  {
    if parts != [] {
      var ns := ReshapeTree(parts);
      assert ns[0] == ParagraphNode(parts[0]);
      assert ValidTag("p");
      assert LeadingText(ns) == [];
    }
  }

  // ------------------------------------------------------------- the verdict

  /** The chapter body as the book stores it. */
  function BodyHtml(doc: seq<Node>): string
  {
    if !HasBody(doc) then Serialize(doc)
    else if NeedsReshape(doc) then ReshapeHtml(Paragraphs(Measure(doc).plain))
    else Inner(doc)
  }

  /** The body the validity test parses. */
  function BodyTree(doc: seq<Node>): seq<Node>
  {
    if !HasBody(doc) then doc
    else if NeedsReshape(doc) then ReshapeTree(Paragraphs(Measure(doc).plain))
    else Content(doc)
  }

  /** The outcome for one page: skipped by the gate, or a chapter that may still fail validity. */
  datatype Verdict =
    | Skipped
    | Kept(title: string, includeH1: bool, body: string, valid: bool)

  function Assess(doc: seq<Node>, stem: string, junk: string -> bool): (v: Verdict)
    ensures v.Skipped? ==> |Measure(doc).plain| < ForcedKeepLength && Count(Content(doc), "img") == 0
    ensures Count(Content(doc), "img") > 0 ==> v.Kept? && v.valid
  {
    ImageBodyValid(doc);
    if Skip(doc, junk) then Skipped
    else Kept(ChapterTitle(doc, stem), IncludeH1(doc), BodyHtml(doc), Valid(BodyTree(doc)))
  }

  lemma {:induction false} CountedElem(ns: seq<Node>, tag: string)
    requires Count(ns, tag) > 0
    ensures HasElem(ns)
  {
    if NodeCount(ns[0], tag) > 0 {
      assert ns[0].Elem?;
    } else {
      CountedElem(ns[1..], tag);
      var i :| 0 <= i < |ns[1..]| && ns[1..][i].Elem?;
      assert ns[i + 1].Elem?;
    }
  }

  /** An image below the body is markup, a visible tag, a block tag and an element of interest. */
  lemma ImageSeen(doc: seq<Node>)
    requires Count(Content(doc), "img") > 0
    ensures '<' in Inner(doc) && HasVisible(doc)
    ensures Somewhere(Content(doc), BlockTag) && Valid(Content(doc))
  {
    var c := Content(doc);
    ImgNamed();
    CountedSomewhere(c, "img", VisibleTag);
    CountedSomewhere(c, "img", BlockTag);
    CountedSomewhere(c, "img", ValidTag);
    CountedElem(c, "img");
    InnerMarkup(doc);
  }

  /** A page with an image is never skipped by the gate. */
  lemma ImagePageKept(doc: seq<Node>, junk: string -> bool)
    requires Count(Content(doc), "img") > 0
    ensures !Skip(doc, junk)
  {
    ImageSeen(doc);
    assert Inner(doc) != [];
  }

  /** A page with an image is never reshaped and always passes the validity test. */
  lemma ImageBodyValid(doc: seq<Node>)
    ensures Count(Content(doc), "img") > 0 ==> Valid(BodyTree(doc))
  {
    if Count(Content(doc), "img") > 0 {
      ImagePageValid(doc);
    }
  }

  lemma ImagePageValid(doc: seq<Node>)
    requires Count(Content(doc), "img") > 0
    ensures !NeedsReshape(doc)
    ensures Valid(BodyTree(doc))
  {
    ImageSeen(doc);
    assert BodyTree(doc) == Content(doc);
  }

  /**
   * A reshaped page is a valid chapter exactly when its plain text is not
   * blank, and its body then shows exactly the paragraphs.
   */
  lemma ReshapedPage(doc: seq<Node>, stem: string, junk: string -> bool)
    requires HasBody(doc) && NeedsReshape(doc) && !Skip(doc, junk)
    ensures Assess(doc, stem, junk).valid <==> !AllSpace(Measure(doc).plain)
    ensures Visible(Strings(BodyTree(doc))) == Paragraphs(Measure(doc).plain)
  {
    var parts := Paragraphs(Measure(doc).plain);
    ParagraphsOf(Measure(doc).plain);
    ReshapedValid(parts);
    ReshapeTreeText(parts);
  }

  /** A page whose body holds one `<h4>` heading with text `t`. */
  function HeadingPage(t: string): seq<Node>
  {
    [Elem(1, "html", [], [Elem(2, "body", [], [Elem(3, "h4", [], [Text(t)])])])]
  }

  /** The body, the counts and the text of the heading-only page. */
  lemma HeadingPageShape(t: string)
    requires Trimmed(t)
    ensures HasBody(HeadingPage(t)) && Content(HeadingPage(t)) == [Elem(3, "h4", [], [Text(t)])]
    ensures Measure(HeadingPage(t)) == Measures(t, false, 0, 0)
    ensures !TitleLooksChrome(HeadingPage(t))
  {
    var doc := HeadingPage(t);
    HeadingPageFind(t);
    HeadingPageUntitled(t);
    UntitledNotChrome(doc);
    HeadingCounts(t);
  }

  lemma HeadingPageFind(t: string)
    ensures Find(HeadingPage(t), "body") == Some(Elem(2, "body", [], [Elem(3, "h4", [], [Text(t)])]))
  {
    var h4 := Elem(3, "h4", [], [Text(t)]);
    var body := Elem(2, "body", [], [h4]);
    var html := Elem(1, "html", [], [body]);
    One(Text(t), "body", ValidTag);
    One(h4, "body", ValidTag);
    One(body, "body", ValidTag);
    One(html, "body", ValidTag);
  }

  lemma HeadingPageUntitled(t: string)
    ensures Count(HeadingPage(t), "title") == 0
  {
    var h4 := Elem(3, "h4", [], [Text(t)]);
    var body := Elem(2, "body", [], [h4]);
    var html := Elem(1, "html", [], [body]);
    One(Text(t), "title", ValidTag);
    One(h4, "title", ValidTag);
    One(body, "title", ValidTag);
    One(html, "title", ValidTag);
  }

  lemma HeadingCounts(t: string)
    requires Trimmed(t)
    ensures var c := [Elem(3, "h4", [], [Text(t)])];
      GetText(c, " ") == t && Count(c, "img") == 0 && Count(c, "p") == 0 && Count(c, "a") == 0
  {
    var h4 := Elem(3, "h4", [], [Text(t)]);
    One(h4, "img", ValidTag);
    One(h4, "p", ValidTag);
    One(h4, "a", ValidTag);
    One(Text(t), "img", ValidTag);
    StripIdempotent(t);
    assert Visible([t]) == [t] by {
      assert [t][1..] == [];
    }
  }

  /** The heading-only page's `h4` is a visible tag and a block tag, but not an element of interest. */
  lemma HeadingTags(t: string)
    ensures Somewhere([Elem(3, "h4", [], [Text(t)])], VisibleTag)
    ensures Somewhere([Elem(3, "h4", [], [Text(t)])], BlockTag)
    ensures !Somewhere([Elem(3, "h4", [], [Text(t)])], ValidTag)
  {
    var h4 := Elem(3, "h4", [], [Text(t)]);
    H4Named();
    One(h4, "", VisibleTag);
    One(h4, "", BlockTag);
    One(h4, "", ValidTag);
    One(Text(t), "", ValidTag);
  }

  lemma H4Named()
    ensures VisibleTag("h4") && BlockTag("h4") && !ValidTag("h4")
  {
    assert Lower("h4") == "h4";
    assert TagMatches("h4", VisibleNames[5]);
    assert TagMatches("h4", BlockNames[4]);
  }

  /**
   * A heading-only page passes the gate (`h4` is a visible and a block tag)
   * and is not reshaped, but fails the validity test (`h4` is not an element
   * of interest there): it becomes a kept page that is then rejected.
   */
  lemma HeadingPageRejected(t: string, junk: string -> bool)
    requires Trimmed(t) && ShortLength <= |t| < ForcedKeepLength && !junk(t)
    ensures !Skip(HeadingPage(t), junk)
    ensures !Valid(BodyTree(HeadingPage(t)))
  {
    HeadingPagePasses(t, junk);
    HeadingPageInvalid(t);
  }

  lemma HeadingPagePasses(t: string, junk: string -> bool)
    requires Trimmed(t) && ShortLength <= |t| < ForcedKeepLength && !junk(t)
    ensures !Skip(HeadingPage(t), junk) && !NeedsReshape(HeadingPage(t))
  {
    var doc := HeadingPage(t);
    HeadingPageShape(t);
    HeadingTags(t);
    assert HasElem(Content(doc));
    InnerMarkup(doc);
    GatePasses(doc, junk);
  }

  /** A page with markup, a visible tag, a block tag and no skip reason in its measures passes the gate unreshaped. */
  lemma GatePasses(doc: seq<Node>, junk: string -> bool)
    requires '<' in Inner(doc) && Somewhere(Content(doc), VisibleTag) && Somewhere(Content(doc), BlockTag)
    requires !LooksJunk(Measure(doc), junk) && !VeryShort(Measure(doc)) && !TitleLooksChrome(doc)
    ensures !Skip(doc, junk) && !NeedsReshape(doc)
  {
  }

  lemma HeadingPageInvalid(t: string)
    requires Trimmed(t)
    ensures !Valid(BodyTree(HeadingPage(t)))
  {
    var h4 := Elem(3, "h4", [], [Text(t)]);
    HeadingPageShape(t);
    HeadingTags(t);
    assert HasElem([h4]);
    InnerMarkup(HeadingPage(t));
    assert BodyTree(HeadingPage(t)) == [h4];
    assert LeadingText([h4]) == [];
  }
}
