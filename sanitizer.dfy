/**
 * `clean_html_keep_structure`: the sequence of passes that strips reader
 * chrome from a parsed page. Every pass whose loop takes a snapshot of the
 * elements in document order and decomposes some of them is the top-down
 * `Prune` of the Dom module; the passes whose outcome depends on the order of
 * earlier removals (the noise pass, the overlay pass, the bounded title scan)
 * are modelled step by step.
 */
module Sanitizer {
  import opened Basics
  import opened Dom

  /** The source's regular expressions, as predicates meaning "the pattern is found in". */
  datatype Patterns = Patterns(noise: string -> bool, titleFragment: string -> bool)

  /** The book title the reader site repeats on every page, lower-cased. */
  const ChromeTitle: string := "il cammino neocatecumenale"

  /** The full title line removed from text nodes. */
  const TitleText: string := "Il Cammino Neocatecumenale: Storia e pratica religiosa (Vol. I)"

  const ChromeKeywords: seq<string> := [
    "toolbar", "pagination", "pager", "rating", "review", "message",
    "notification", "cta", "book-navigation", "book_nav", "breadcrumb",
    "sidebar", "overlay", "modal", "banner", "cookie", "progressbar",
    "progress-bar"
  ]

  const UtilWords: set<string> := {"highlight", "delete", "add note", "share quote"}

  // ------------------------------------------------------- pass 1: scripts

  /** Script-like elements, `<style>`, and `<link>` whose `rel` tokens lack "stylesheet". */
  predicate ScriptLike(n: Node)
  {
    n.Elem? &&
    (n.tag in {"script", "noscript", "iframe", "embed", "object", "style"} ||
     (n.tag == "link" && "stylesheet" !in Words(AttrOr(n.attrs, "rel"))))
  }

  function DropScripts(ns: seq<Node>): seq<Node>
  {
    Prune(ns, ScriptLike, None)
  }

  /** A drop rule that looks only at an element's own tag and attributes leaves no such element. */
  lemma {:induction false} DropScriptsClean(ns: seq<Node>)
    ensures AllElems(DropScripts(ns), (n: Node) => !ScriptLike(n))
  {
    PruneByTagClean(ns);
  }

  lemma {:induction false} PruneByTagClean(ns: seq<Node>)
    ensures AllElems(Prune(ns, ScriptLike, None), (n: Node) => !ScriptLike(n))
  {
    if ns != [] {
      var pn := PruneNode(ns[0], ScriptLike, None);
      var rest := Prune(ns[1..], ScriptLike, None);
      PruneByTagClean(ns[1..]);
      if ns[0].Elem? && !ScriptLike(ns[0]) {
        PruneByTagClean(ns[0].kids);
      }
      AllElemsJoin(pn, rest, (n: Node) => !ScriptLike(n));
    }
  }

  // ---------------------------------------------------- main content root

  predicate IsCandidate(n: Node)
  {
    n.Elem? && n.tag in {"article", "main", "div", "section"}
  }

  /** The elements of the forest in document order. */
  function Elements(ns: seq<Node>): (r: seq<Node>)
    ensures forall i | 0 <= i < |r| :: r[i].Elem?
  {
    if ns == [] then []
    else
      (match ns[0]
       case Text(_) => []
       case Elem(_, _, _, kids) => [ns[0]] + Elements(kids))
      + Elements(ns[1..])
  }

  /** `soup.find_all(["article", "main", "div", "section"])`. */
  function Candidates(ns: seq<Node>): (r: seq<Node>)
    ensures forall i | 0 <= i < |r| :: IsCandidate(r[i])
  {
    Filter(Elements(ns))
  }

  function Filter(es: seq<Node>): (r: seq<Node>)
    ensures forall i | 0 <= i < |r| :: IsCandidate(r[i])
  {
    if es == [] then []
    else (if IsCandidate(es[0]) then [es[0]] else []) + Filter(es[1..])
  }

  /** `p_count * 200 + txt_len` for a candidate. */
  function Score(n: Node): nat
    requires n.Elem?
  {
    Count(n.kids, "p") * 200 + TextLen(n.kids)
  }

  /** The minimum a winner must meet to count as main content. */
  predicate Substantial(n: Node)
    requires n.Elem?
  {
    Count(n.kids, "p") >= 3 || TextLen(n.kids) >= 800
  }

  lemma {:induction false} ElementsAppend(a: seq<Node>, b: seq<Node>)
    ensures Elements(a + b) == Elements(a) + Elements(b)
  {
    if a == [] {
      assert a + b == b;
    } else {
      assert (a + b)[0] == a[0] && (a + b)[1..] == a[1..] + b;
      ElementsAppend(a[1..], b);
    }
  }

  lemma {:induction false} FilterAppend(a: seq<Node>, b: seq<Node>)
    ensures Filter(a + b) == Filter(a) + Filter(b)
  {
    if a == [] {
      assert a + b == b;
    } else {
      assert (a + b)[0] == a[0] && (a + b)[1..] == a[1..] + b;
      FilterAppend(a[1..], b);
    }
  }

  /** Candidates of consecutive siblings come in sibling order. */
  lemma CandidatesAppend(a: seq<Node>, b: seq<Node>)
    ensures Candidates(a + b) == Candidates(a) + Candidates(b)
  {
    ElementsAppend(a, b);
    FilterAppend(Elements(a), Elements(b));
  }

  /** An element comes before the candidates below it. */
  lemma CandidatesNode(n: Node)
    requires n.Elem?
    ensures Candidates([n]) == (if IsCandidate(n) then [n] else []) + Candidates(n.kids)
  {
    assert [n][1..] == [];
    assert Elements([n]) == [n] + Elements(n.kids);
    FilterAppend([n], Elements(n.kids));
    assert [n][1..] == [];
  }

  /** Every `article`, `main`, `div` and `section` element of the page is a candidate. */
  lemma CandidatesComplete(ns: seq<Node>, p: Path)
    requires ValidPath(ns, p) && IsCandidate(At(ns, p))
    ensures At(ns, p) in Candidates(ns)
  {
    ElementsComplete(ns, p);
    FilterKeeps(Elements(ns), At(ns, p));
  }

  lemma {:induction false} ElementsComplete(ns: seq<Node>, p: Path)
    requires ValidPath(ns, p) && At(ns, p).Elem?
    ensures At(ns, p) in Elements(ns)
    decreases ns
  {
    var n := ns[0];
    var head := if n.Elem? then [n] + Elements(n.kids) else [];
    assert Elements(ns) == head + Elements(ns[1..]);
    if p[0] == 0 {
      if |p| > 1 {
        ElementsComplete(n.kids, p[1..]);
      }
    } else {
      var q := [p[0] - 1] + p[1..];
      assert q[1..] == p[1..];
      assert ValidPath(ns[1..], q) && At(ns[1..], q) == At(ns, p);
      ElementsComplete(ns[1..], q);
    }
  }

  lemma {:induction false} FilterKeeps(es: seq<Node>, x: Node)
    requires x in es && IsCandidate(x)
    ensures x in Filter(es)
  {
    if es[0] != x {
      assert x in es[1..];
      FilterKeeps(es[1..], x);
    }
  }

  /** The score of every candidate, in order. */
  function Scores(cands: seq<Node>): (r: seq<nat>)
    requires forall j | 0 <= j < |cands| :: cands[j].Elem?
    ensures |r| == |cands|
    ensures forall j | 0 <= j < |cands| :: r[j] == Score(cands[j])
  {
    seq(|cands|, j requires 0 <= j < |cands| => Score(cands[j]))
  }

  /** `i` holds the highest score, and every earlier position scores strictly less. */
  predicate IsFirstMax(scores: seq<nat>, i: nat)
  {
    i < |scores| &&
    (forall j | 0 <= j < |scores| :: scores[j] <= scores[i]) &&
    (forall j | 0 <= j < i :: scores[j] < scores[i])
  }

  /** The winner of the strict `score > best_score` scan, as a function of the scores. */
  function Best(scores: seq<nat>): (r: Option<nat>)
    ensures r.Some? <==> scores != []
    ensures r.Some? ==> r.value < |scores|
  {
    if scores == [] then None
    else
      var prev := Best(scores[..|scores| - 1]);
      var last := |scores| - 1;
      if prev.None? || scores[last] > scores[prev.value] then Some(last) else prev
  }

  lemma BestStep(scores: seq<nat>, k: nat)
    requires k < |scores|
    ensures Best(scores[..k + 1]) ==
      var prev := Best(scores[..k]);
      if prev.None? || scores[k] > scores[prev.value] then Some(k) else prev
  {
    assert scores[..k + 1][..k] == scores[..k];
  }

  /** The scan picks the first position of highest score. */
  lemma {:induction false} BestIsFirstMax(scores: seq<nat>)
    requires scores != []
    ensures IsFirstMax(scores, Best(scores).value)
  {
    var last := |scores| - 1;
    var init := scores[..last];
    if init != [] {
      BestIsFirstMax(init);
      assert forall j | 0 <= j < last :: scores[j] == init[j];
    }
  }

  /** There is only one first maximum. */
  lemma FirstMaxUnique(scores: seq<nat>, i: nat, j: nat)
    requires IsFirstMax(scores, i) && IsFirstMax(scores, j)
    ensures i == j
  {
    assert scores[j] <= scores[i] && scores[i] <= scores[j];
  }

  /** The main root: the best candidate's identity, if it is substantial enough. */
  function MainRoot(doc: seq<Node>): (r: Option<nat>)
    ensures r.Some? ==> exists i | 0 <= i < |Candidates(doc)| ::
      Candidates(doc)[i].id == r.value && Substantial(Candidates(doc)[i])
  {
    var cands := Candidates(doc);
    match Best(Scores(cands))
    case None => None
    case Some(i) => if Substantial(cands[i]) then Some(cands[i].id) else None
  }

  /**
   * The main root is the first highest-scoring candidate when that one is
   * substantial, and there is none otherwise.
   */
  lemma MainRootIsFirstMax(doc: seq<Node>)
    ensures MainRoot(doc).Some? <==>
      exists i: nat :: IsFirstMax(Scores(Candidates(doc)), i) && Substantial(Candidates(doc)[i])
    ensures MainRoot(doc).Some? ==>
      exists i: nat :: IsFirstMax(Scores(Candidates(doc)), i) && MainRoot(doc).value == Candidates(doc)[i].id
  {
    var cands := Candidates(doc);
    var scores := Scores(cands);
    if cands != [] {
      var i := Best(scores).value;
      BestIsFirstMax(scores);
      forall j: nat | IsFirstMax(scores, j) ensures j == i {
        FirstMaxUnique(scores, i, j);
      }
    }
  }

  /** The `best_score` / `main_root` loop over the candidates. */
  method FindMainRoot(doc: seq<Node>) returns (mr: Option<nat>)
    ensures mr == MainRoot(doc)
  {
    var cands := Candidates(doc);
    ghost var scores := Scores(cands);
    var bestScore: int := -1;
    var best: Option<nat> := None;
    for k := 0 to |cands|
      invariant best == Best(scores[..k])
      invariant best.None? ==> bestScore == -1
      invariant best.Some? ==> best.value < k && bestScore == scores[best.value]
    {
      BestStep(scores, k);
      var score := Score(cands[k]);
      if score > bestScore {
        bestScore := score;
        best := Some(k);
      }
    }
    assert scores[..|cands|] == scores;
    mr := None;
    if best.Some? && Substantial(cands[best.value]) {
      mr := Some(cands[best.value].id);
    }
  }

  // ------------------------------------------- structural chrome removal

  const StructuralTags: set<string> := {"header", "footer", "nav", "aside", "form", "button", "svg"}

  /** The element is the main root or contains it. */
  predicate Protects(mr: Option<nat>, n: Node)
  {
    mr.Some? && NodeHasId(n, mr.value)
  }

  predicate StructuralChrome(mr: Option<nat>, n: Node)
  {
    n.Elem? && n.tag in StructuralTags && !Protects(mr, n)
  }

  /** Headers, footers, navigation, asides, forms, buttons and svg go, unless they hold the main root. */
  function DropStructural(ns: seq<Node>, mr: Option<nat>): seq<Node>
  {
    Prune(ns, (n: Node) => StructuralChrome(mr, n), None)
  }

  /**
   * The main root survives, and every structural element left is the main
   * root or contains it.
   */
  lemma {:induction false} DropStructuralSparesMain(ns: seq<Node>, mr: Option<nat>)
    ensures mr.Some? && HasId(ns, mr.value) ==> HasId(DropStructural(ns, mr), mr.value)
    ensures AllElems(DropStructural(ns, mr), (n: Node) => n.Elem? && n.tag in StructuralTags ==> Protects(mr, n))
  {
    if mr.Some? {
      PruneKeepsId(ns, (n: Node) => StructuralChrome(mr, n), None, mr.value);
    }
    StructuralLeft(ns, mr);
  }

  lemma {:induction false} StructuralLeft(ns: seq<Node>, mr: Option<nat>)
    ensures AllElems(DropStructural(ns, mr), (n: Node) => n.Elem? && n.tag in StructuralTags ==> Protects(mr, n))
  {
    var drop := (n: Node) => StructuralChrome(mr, n);
    var P := (n: Node) => n.Elem? && n.tag in StructuralTags ==> Protects(mr, n);
    if ns != [] {
      var pn := PruneNode(ns[0], drop, None);
      StructuralLeft(ns[1..], mr);
      if ns[0].Elem? && !drop(ns[0]) {
        var e := ns[0];
        StructuralLeft(e.kids, mr);
        if mr.Some? {
          PruneKeepsId(e.kids, drop, None, mr.value);
        }
        assert P(pn[0]);
      }
      AllElemsJoin(pn, Prune(ns[1..], drop, None), P);
    }
  }

  // ------------------------------------------ class / id keyword chrome

  const ChromeContainers: set<string> := {"div", "nav", "aside", "section", "header", "footer"}

  /** `" ".join(str(v).split()).lower()`. */
  function Normalized(v: string): string
  {
    Lower(Join(Words(v), " "))
  }

  predicate HasChromeKeyword(attrs: seq<Attr>)
  {
    exists k | 0 <= k < |ChromeKeywords| ::
      Contains(Normalized(AttrOr(attrs, "id")), ChromeKeywords[k]) ||
      Contains(Normalized(AttrOr(attrs, "class")), ChromeKeywords[k])
  }

  /** The guard that keeps a keyword container: several paragraphs, much text, or an image. */
  predicate LooksLikeContent(n: Node)
    requires n.Elem?
  {
    Count(n.kids, "p") >= 3 || TextLen(n.kids) > 500 || Count(n.kids, "img") > 0
  }

  predicate ReaderChrome(mr: Option<nat>, n: Node)
  {
    n.Elem? && n.tag in ChromeContainers && HasChromeKeyword(n.attrs) &&
    !Protects(mr, n) && !LooksLikeContent(n)
  }

  /**
   * Keyword containers go unless they are, hold or lie inside the main root,
   * or look like content; everything inside the main root is left alone.
   */
  function DropReaderChrome(ns: seq<Node>, mr: Option<nat>): seq<Node>
  {
    Prune(ns, (n: Node) => ReaderChrome(mr, n), mr)
  }

  /** Images and the main root survive the keyword pass. */
  lemma DropReaderChromeKeeps(ns: seq<Node>, mr: Option<nat>)
    ensures Count(DropReaderChrome(ns, mr), "img") == Count(ns, "img")
    ensures mr.Some? && HasId(ns, mr.value) ==> HasId(DropReaderChrome(ns, mr), mr.value)
  {
    ReaderChromeDrops(mr);
    PruneCount(ns, (n: Node) => ReaderChrome(mr, n), mr, "img");
    if mr.Some? {
      PruneKeepsId(ns, (n: Node) => ReaderChrome(mr, n), mr, mr.value);
    }
  }

  /** A keyword container never is or holds an image, and never is or holds the main root. */
  lemma ReaderChromeDrops(mr: Option<nat>)
    ensures forall n :: ReaderChrome(mr, n) ==> NodeCount(n, "img") == 0
    ensures forall n :: ReaderChrome(mr, n) ==> !Protects(mr, n)
  {
    forall n | ReaderChrome(mr, n) ensures NodeCount(n, "img") == 0 {
      ContainerNotImage(n.tag);
      assert Count(n.kids, "img") == 0;
    }
  }

  lemma ContainerNotImage(t: string)
    requires t in ChromeContainers
    ensures t != "img"
  {
  }

  // ------------------------------------------------ empty element removal

  predicate EmptyBox(n: Node)
  {
    n.Elem? && n.tag in {"div", "p", "span"} && Blank(n.kids) &&
    Count(n.kids, "img") == 0 && Count(n.kids, "table") == 0
  }

  /**
   * Empty `div`, `p` and `span` elements go. Only blank subtrees without
   * images or tables are removed: the visible text and the numbers of images
   * and tables stay as they were.
   */
  function DropEmpty(ns: seq<Node>): (r: seq<Node>)
    ensures Visible(Strings(r)) == Visible(Strings(ns))
    ensures Count(r, "img") == Count(ns, "img")
    ensures Count(r, "table") == Count(ns, "table")
  {
    PruneVisible(ns, EmptyBox, None);
    PruneCount(ns, EmptyBox, None, "img");
    PruneCount(ns, EmptyBox, None, "table");
    Prune(ns, EmptyBox, None)
  }

  /** Afterwards every `div`, `p` and `span` has visible text or an image or table below it. */
  lemma {:induction false} DropEmptyClean(ns: seq<Node>)
    ensures AllElems(DropEmpty(ns), (n: Node) => !EmptyBox(n))
  {
    if ns != [] {
      var pn := PruneNode(ns[0], EmptyBox, None);
      DropEmptyClean(ns[1..]);
      if ns[0].Elem? && !EmptyBox(ns[0]) {
        DropEmptyClean(ns[0].kids);
        var _ := DropEmpty(ns[0].kids);
        assert !EmptyBox(pn[0]);
      }
      AllElemsJoin(pn, DropEmpty(ns[1..]), (n: Node) => !EmptyBox(n));
    }
  }

  // ------------------------------------------------------- title text line

  /** Every text node holding the full title line loses every occurrence of it. */
  function StripTitleText(ns: seq<Node>): seq<Node>
  {
    if ns == [] then [] else [StripTitleTextNode(ns[0])] + StripTitleText(ns[1..])
  }

  function StripTitleTextNode(n: Node): Node
  {
    match n
    case Text(s) => if Contains(s, TitleText) then Text(ReplaceAll(s, TitleText, "")) else n
    case Elem(id, tag, attrs, kids) => Elem(id, tag, attrs, StripTitleText(kids))
  }

  /** Only text changes: every element, and so every count and identity, stays. */
  lemma {:induction false} StripTitleTextKeepsElements(ns: seq<Node>, tag: string, x: nat)
    ensures Count(StripTitleText(ns), tag) == Count(ns, tag)
    ensures HasId(StripTitleText(ns), x) == HasId(ns, x)
    ensures Size(StripTitleText(ns)) == Size(ns)
    ensures ImgsAreVoid(ns) ==> ImgsAreVoid(StripTitleText(ns))
  {
    if ns != [] {
      StripTitleTextKeepsElements(ns[1..], tag, x);
      if ns[0].Elem? {
        StripTitleTextKeepsElements(ns[0].kids, tag, x);
      }
      var P := (n: Node) => n.Elem? && n.tag == "img" ==> n.kids == [];
      if ImgsAreVoid(ns) {
        AllElemsSlice(ns, 1, |ns|, P);
        AllElemsJoin([StripTitleTextNode(ns[0])], StripTitleText(ns[1..]), P);
      }
    }
  }

  // ------------------------------------------------------------ noise pass

  /** Containers the noise pass removes as a whole. */
  const BlockTags: set<string> := {"section", "div", "nav", "header", "footer", "aside"}

  /** The path of the first text node, in document order, that `P` accepts. */
  function FirstText(ns: seq<Node>, P: string -> bool): (r: Option<Path>)
    ensures r.None? <==> AllTexts(ns, (s: string) => !P(s))
    ensures r.Some? ==> ValidPath(ns, r.value) && At(ns, r.value).Text? && P(At(ns, r.value).text)
  {
    if ns == [] then None
    else
      match ns[0]
      case Text(s) =>
        if P(s) then Some([0])
        else
          (match FirstText(ns[1..], P)
           case None => None
           case Some(q) => PathShift(ns, q); Some([q[0] + 1] + q[1..]))
      case Elem(_, _, _, kids) =>
        match FirstText(kids, P)
        case Some(q) => PathDown(ns, q); Some([0] + q)
        case None =>
          match FirstText(ns[1..], P)
          case None => None
          case Some(q) => PathShift(ns, q); Some([q[0] + 1] + q[1..])
  }

  /** No text `P` accepts comes before the one `FirstText` finds, in document order. */
  lemma {:induction false} FirstTextIsFirst(ns: seq<Node>, P: string -> bool, q: Path)
    requires ValidPath(ns, q) && At(ns, q).Text? && P(At(ns, q).text)
    ensures FirstText(ns, P).Some? && !Before(q, FirstText(ns, P).value)
    decreases ns
  {
    var n := ns[0];
    if n.Text? {
      if !P(n.text) {
        FirstTextShift(ns, P, q);
      }
    } else if q[0] == 0 {
      FirstTextIsFirst(n.kids, P, q[1..]);
    } else if FirstText(n.kids, P).None? {
      FirstTextShift(ns, P, q);
    }
  }

  lemma FirstTextShift(ns: seq<Node>, P: string -> bool, q: Path)
    requires ValidPath(ns, q) && At(ns, q).Text? && P(At(ns, q).text) && q[0] > 0
    requires ns[0].Text? ==> !P(ns[0].text)
    requires ns[0].Elem? ==> FirstText(ns[0].kids, P).None?
    ensures FirstText(ns, P).Some? && !Before(q, FirstText(ns, P).value)
    decreases ns, 0
  {
    var q' := [q[0] - 1] + q[1..];
    assert q'[1..] == q[1..];
    assert ValidPath(ns[1..], q') && At(ns[1..], q') == At(ns, q);
    FirstTextIsFirst(ns[1..], P, q');
    var r := FirstText(ns[1..], P).value;
    var r' := [r[0] + 1] + r[1..];
    assert r'[1..] == r[1..];
  }

  /** The element `j` steps down the path to `p` is a block container. */
  predicate BlockAt(ns: seq<Node>, p: Path, j: nat)
  {
    0 < j <= |p| && ValidPath(ns, p[..j]) && At(ns, p[..j]).Elem? && At(ns, p[..j]).tag in BlockTags
  }

  /** Depth of the nearest block ancestor at depth at most `k` (0: none). */
  function NearestBlock(ns: seq<Node>, p: Path, k: nat): (b: nat)
    requires ValidPath(ns, p) && k < |p|
    ensures b <= k
    ensures b > 0 ==> BlockAt(ns, p, b)
    ensures forall j | b < j <= k :: !BlockAt(ns, p, j)
    decreases k
  {
    if k == 0 then 0
    else
      PathPrefix(ns, p, k);
      if At(ns, p[..k]).tag in BlockTags then k else NearestBlock(ns, p, k - 1)
  }

  /** A `<span>` whose inline style makes it a block. */
  predicate DisplayBlockSpan(n: Node)
  {
    n.Elem? && n.tag == "span" &&
    var style := Lower(AttrOr(n.attrs, "style"));
    Contains(style, "display:block") || Contains(style, "display: block")
  }

  /** The parent of the node at `p` is a display-block span. */
  predicate SpanParent(ns: seq<Node>, p: Path)
  {
    |p| >= 2 && ValidPath(ns, p[..|p| - 1]) && DisplayBlockSpan(At(ns, p[..|p| - 1]))
  }

  /**
   * Depth of the block the noise text at `p` belongs to: the nearest block
   * ancestor, else the parent; a display-block span parent overrides both.
   * Depth 0 is the document itself.
   */
  function BlockDepth(ns: seq<Node>, p: Path): (b: nat)
    requires ValidPath(ns, p)
    ensures b < |p|
    ensures SpanParent(ns, p) ==> b == |p| - 1
    ensures b < |p| - 1 ==> BlockAt(ns, p, b)
    ensures forall j | b < j < |p| :: !BlockAt(ns, p, j)
    ensures b == |p| - 1 && !SpanParent(ns, p) && !BlockAt(ns, p, |p| - 1) ==>
      forall j | 0 < j < |p| :: !BlockAt(ns, p, j)
  {
    var parent := |p| - 1;
    var nearest := NearestBlock(ns, p, parent);
    if parent >= 1 && (PathPrefix(ns, p, parent); DisplayBlockSpan(At(ns, p[..parent]))) then parent
    else if nearest > 0 then nearest
    else parent
  }

  /** The children of the block at depth `b` on the way to `p`. */
  function BlockKids(ns: seq<Node>, p: Path, b: nat): seq<Node>
    requires ValidPath(ns, p) && b < |p|
  {
    if b == 0 then ns else PathPrefix(ns, p, b); At(ns, p[..b]).kids
  }

  /** The block is the main root or holds it. */
  predicate BlockProtected(ns: seq<Node>, p: Path, b: nat, mr: Option<nat>)
    requires ValidPath(ns, p) && b < |p|
  {
    mr.Some? &&
    if b == 0 then HasId(ns, mr.value) else PathPrefix(ns, p, b); NodeHasId(At(ns, p[..b]), mr.value)
  }

  /** At most one paragraph, under 400 characters and no image. */
  predicate SmallBlock(kids: seq<Node>)
  {
    Count(kids, "p") <= 1 && TextLen(kids) < 400 && Count(kids, "img") == 0
  }

  /**
   * One noise hit: a small unprotected block goes whole; otherwise only the
   * text node goes. A block at depth 0 is the document, which is emptied.
   */
  function NoiseStep(ns: seq<Node>, p: Path, mr: Option<nat>): seq<Node>
    requires ValidPath(ns, p) && At(ns, p).Text?
  {
    var b := BlockDepth(ns, p);
    if !BlockProtected(ns, p, b, mr) && SmallBlock(BlockKids(ns, p, b)) then
      if b == 0 then [] else PathPrefix(ns, p, b); RemoveAt(ns, p[..b])
    else RemoveAt(ns, p)
  }

  /** A parsed `<img>` that contains something does not occur. */
  lemma {:induction false} VoidAt(ns: seq<Node>, q: Path)
    requires ValidPath(ns, q) && ImgsAreVoid(ns) && At(ns, q).Elem? && At(ns, q).kids != []
    ensures At(ns, q).tag != "img"
  {
    if |q| > 1 {
      VoidAt(ns[q[0]].kids, q[1..]);
    }
  }

  /** A noise step shrinks the page, keeps the main root and keeps every image. */
  lemma NoiseStepKeeps(ns: seq<Node>, p: Path, mr: Option<nat>)
    requires ValidPath(ns, p) && At(ns, p).Text?
    ensures Size(NoiseStep(ns, p, mr)) < Size(ns)
    ensures mr.Some? && HasId(ns, mr.value) ==> HasId(NoiseStep(ns, p, mr), mr.value)
    ensures ImgsAreVoid(ns) ==>
      ImgsAreVoid(NoiseStep(ns, p, mr)) && Count(NoiseStep(ns, p, mr), "img") == Count(ns, "img")
  {
    var b := BlockDepth(ns, p);
    RemoveAtMeasures(ns, p, "img");
    if !BlockProtected(ns, p, b, mr) && SmallBlock(BlockKids(ns, p, b)) {
      if b > 0 {
        var q := p[..b];
        PathPrefix(ns, p, b);
        RemoveAtMeasures(ns, q, "img");
        if mr.Some? {
          RemoveAtKeepsId(ns, q, mr.value);
        }
        if ImgsAreVoid(ns) {
          RemoveAtVoid(ns, q);
          VoidAt(ns, q);
        }
      }
    } else {
      if mr.Some? {
        RemoveAtKeepsId(ns, p, mr.value);
      }
      if ImgsAreVoid(ns) {
        RemoveAtVoid(ns, p);
      }
    }
  }

  /** The noise pass: hits are handled in document order until none is left. */
  function NoiseSpec(ns: seq<Node>, mr: Option<nat>, noise: string -> bool): (r: seq<Node>)
    ensures AllTexts(r, (s: string) => !noise(s))
    decreases Size(ns)
  {
    match FirstText(ns, noise)
    case None => ns
    case Some(p) =>
      NoiseStepKeeps(ns, p, mr);
      NoiseSpec(NoiseStep(ns, p, mr), mr, noise)
  }

  /**
   * After the noise pass no text matches the noise pattern, the main root is
   * still there and no image was lost.
   */
  lemma {:induction false} NoiseSpecClean(ns: seq<Node>, mr: Option<nat>, noise: string -> bool)
    ensures AllTexts(NoiseSpec(ns, mr, noise), (s: string) => !noise(s))
    ensures mr.Some? && HasId(ns, mr.value) ==> HasId(NoiseSpec(ns, mr, noise), mr.value)
    ensures ImgsAreVoid(ns) ==> Count(NoiseSpec(ns, mr, noise), "img") == Count(ns, "img")
    decreases Size(ns)
  {
    match FirstText(ns, noise)
    case None =>
    case Some(p) =>
      NoiseStepKeeps(ns, p, mr);
      NoiseSpecClean(NoiseStep(ns, p, mr), mr, noise);
  }

  /**
   * The `for t in soup.find_all(string=noise_re)` loop: since every hit it
   * handles leaves the page, handling the snapshot in order is handling the
   * first remaining hit each time.
   */
  method NoisePass(ns: seq<Node>, mr: Option<nat>, noise: string -> bool) returns (r: seq<Node>)
    ensures r == NoiseSpec(ns, mr, noise)
  {
    r := ns;
    var hit := FirstText(r, noise);
    while hit.Some?
      invariant hit == FirstText(r, noise)
      invariant NoiseSpec(r, mr, noise) == NoiseSpec(ns, mr, noise)
      decreases Size(r)
    {
      var p := hit.value;
      var b := FindBlock(r, p);
      var kids := if b == 0 then r else (PathPrefix(r, p, b); At(r, p[..b]).kids);
      var guarded := mr.Some? &&
        if b == 0 then HasId(r, mr.value) else (PathPrefix(r, p, b); NodeHasId(At(r, p[..b]), mr.value));
      NoiseStepKeeps(r, p, mr);
      ghost var next := NoiseStep(r, p, mr);
      if !guarded && Count(kids, "p") <= 1 && TextLen(kids) < 400 && Count(kids, "img") == 0 {
        r := if b == 0 then [] else (PathPrefix(r, p, b); RemoveAt(r, p[..b]));
      } else {
        r := RemoveAt(r, p);
      }
      assert r == next;
      hit := FirstText(r, noise);
    }
  }

  /** The walk from a noise text's parent up to its block container. */
  method FindBlock(ns: seq<Node>, p: Path) returns (b: nat)
    requires ValidPath(ns, p)
    ensures b == BlockDepth(ns, p)
  {
    var k := |p| - 1;
    while k > 0 && (PathPrefix(ns, p, k); At(ns, p[..k]).tag !in BlockTags)
      invariant 0 <= k < |p|
      invariant NearestBlock(ns, p, k) == NearestBlock(ns, p, |p| - 1)
      decreases k
    {
      k := k - 1;
    }
    b := if k > 0 then k else |p| - 1;
    if |p| - 1 >= 1 && (PathPrefix(ns, p, |p| - 1); DisplayBlockSpan(At(ns, p[..|p| - 1]))) {
      b := |p| - 1;
    }
  }

  // ------------------------------------------------- pass 3: overlays

  predicate Positioned(attrs: seq<Attr>)
  {
    var style := Lower(AttrOr(attrs, "style"));
    Contains(style, "position:absolute") || Contains(style, "position: absolute") ||
    Contains(style, "position:fixed") || Contains(style, "position: fixed")
  }

  /** A positioned non-image element with no image inside. */
  predicate Overlay(n: Node)
  {
    n.Elem? && n.tag != "img" && Positioned(n.attrs) && Count(n.kids, "img") == 0
  }

  predicate HasElementKid(ns: seq<Node>)
  {
    exists i | 0 <= i < |ns| :: ns[i].Elem?
  }

  /**
   * The overlay pass over a forest; `active` says the forest lies inside an
   * element that has an image. Overlays there are removed. Removing an
   * overlay that has elements inside makes the next element of the snapshot a
   * decomposed one, whose `get` raises and ends the whole pass: the second
   * component says the pass stopped, leaving the rest as it was.
   */
  function Overlays(ns: seq<Node>, active: bool): (r: (seq<Node>, bool))
    ensures Count(r.0, "img") == Count(ns, "img")
  {
    if ns == [] then ([], false)
    else
      var (a, stop) := OverlaysNode(ns[0], active);
      if stop then
        CountAppend(a, ns[1..], "img");
        (a + ns[1..], true)
      else
        var (b, stop') := Overlays(ns[1..], active);
        CountAppend(a, b, "img");
        (a + b, stop')
  }

  function OverlaysNode(n: Node, active: bool): (r: (seq<Node>, bool))
    ensures Count(r.0, "img") == NodeCount(n, "img")
  {
    Singleton(n, "img", 0);
    match n
    case Text(_) => ([n], false)
    case Elem(id, tag, attrs, kids) =>
      if active && Overlay(n) then ([], HasElementKid(kids))
      else
        var (k, stop) := Overlays(kids, active || Count(kids, "img") > 0);
        Singleton(Elem(id, tag, attrs, k), "img", 0);
        ([Elem(id, tag, attrs, k)], stop)
  }

  /** No overlay is left inside an element with an image. */
  predicate OverlayFree(ns: seq<Node>, active: bool)
  {
    forall i | 0 <= i < |ns| :: ns[i].Elem? ==>
      !(active && Overlay(ns[i])) && OverlayFree(ns[i].kids, active || Count(ns[i].kids, "img") > 0)
  }

  /** The overlay pass never removes an image, and when it runs to the end no overlay is left. */
  lemma {:induction false} OverlaysKeep(ns: seq<Node>, active: bool)
    ensures Count(Overlays(ns, active).0, "img") == Count(ns, "img")
    ensures !Overlays(ns, active).1 ==> OverlayFree(Overlays(ns, active).0, active)
  {
    if ns != [] {
      var (a, stop) := OverlaysNode(ns[0], active);
      OverlaysNodeKeep(ns[0], active);
      if stop {
        CountAppend(a, ns[1..], "img");
      } else {
        OverlaysKeep(ns[1..], active);
        var (b, stop') := Overlays(ns[1..], active);
        CountAppend(a, b, "img");
        if !stop' {
          OverlayFreeJoin(a, b, active);
        }
      }
    }
  }

  lemma {:induction false} OverlaysNodeKeep(n: Node, active: bool)
    ensures Count(OverlaysNode(n, active).0, "img") == NodeCount(n, "img")
    ensures !OverlaysNode(n, active).1 ==> OverlayFree(OverlaysNode(n, active).0, active)
  {
    Singleton(n, "img", 0);
    match n
    case Text(_) =>
    case Elem(id, tag, attrs, kids) =>
      if !(active && Overlay(n)) {
        var inner := active || Count(kids, "img") > 0;
        OverlaysKeep(kids, inner);
        var e := Elem(id, tag, attrs, Overlays(kids, inner).0);
        Singleton(e, "img", 0);
        assert Overlay(e) == Overlay(n);
      }
  }

  lemma OverlayFreeJoin(a: seq<Node>, b: seq<Node>, active: bool)
    requires OverlayFree(a, active) && OverlayFree(b, active)
    ensures OverlayFree(a + b, active)
  {
    forall i | 0 <= i < |a + b| && (a + b)[i].Elem?
      ensures !(active && Overlay((a + b)[i])) &&
        OverlayFree((a + b)[i].kids, active || Count((a + b)[i].kids, "img") > 0)
    {
      if i < |a| {
        assert (a + b)[i] == a[i];
      } else {
        assert (a + b)[i] == b[i - |a|];
      }
    }
  }

  // --------------------------------------------- pass 4b: utility lists

  /** The link elements of a forest, in document order. */
  function Links(ns: seq<Node>): (r: seq<Node>)
    ensures forall i | 0 <= i < |r| :: r[i].Elem? && r[i].tag == "a"
  {
    if ns == [] then []
    else
      (match ns[0]
       case Text(_) => []
       case Elem(_, tag, _, kids) => (if tag == "a" then [ns[0]] else []) + Links(kids))
      + Links(ns[1..])
  }

  /** There are links and every link's text, lower-cased, is a reader utility word. */
  predicate OnlyUtilityLinks(ns: seq<Node>)
  {
    var links := Links(ns);
    |links| > 0 && forall i | 0 <= i < |links| :: Lower(GetText(links[i].kids, " ")) in UtilWords
  }

  predicate UtilityList(mr: Option<nat>, n: Node)
  {
    n.Elem? && n.tag in {"ul", "ol"} &&
    (OnlyUtilityLinks(n.kids) || (Count(n.kids, "a") <= 3 && TextLen(n.kids) < 120)) &&
    !Protects(mr, n)
  }

  /** Lists of reader utilities, or with few links and little text, go anywhere in the page. */
  function DropUtilityLists(ns: seq<Node>, mr: Option<nat>): seq<Node>
  {
    Prune(ns, (n: Node) => UtilityList(mr, n), None)
  }

  /** The main root survives the list pass. */
  lemma DropUtilityListsKeepsMain(ns: seq<Node>, mr: Option<nat>)
    ensures mr.Some? && HasId(ns, mr.value) ==> HasId(DropUtilityLists(ns, mr), mr.value)
  {
    if mr.Some? {
      PruneKeepsId(ns, (n: Node) => UtilityList(mr, n), None, mr.value);
    }
  }

  /**
   * What the list pass removes: an element that is gone lay in a list that,
   * as the page stood before the pass, was a utility list not protecting the
   * main root.
   */
  lemma DropUtilityListsRemoves(ns: seq<Node>, mr: Option<nat>, x: nat) returns (p: Path)
    requires HasId(ns, x) && !HasId(DropUtilityLists(ns, mr), x)
    ensures ValidPath(ns, p) && UtilityList(mr, At(ns, p)) && NodeHasId(At(ns, p), x)
  {
    p := PruneDropped(ns, (n: Node) => UtilityList(mr, n), None, x);
  }

  // ------------------------------------------------------ body-level passes

  predicate IsBody(n: Node)
  {
    n.Elem? && n.tag == "body"
  }

  /** `soup.body or soup`: the passes below work on the children of the body, or of the document. */
  function InBody(ns: seq<Node>, f: seq<Node> -> seq<Node>): seq<Node>
  {
    match FirstElem(ns, IsBody)
    case None => f(ns)
    case Some(p) => SetKidsAt(ns, p, f(At(ns, p).kids))
  }

  // pass 4c: the first short title fragment among the first 201 descendants

  predicate TitleFragment(n: Node, title: string -> bool)
  {
    n.Elem? && n.tag in {"h1", "h2", "h3", "div", "p", "span"} &&
    var t := Lower(GetText(n.kids, " "));
    t != [] && |t| < 200 && title(t) && Count(n.kids, "img") == 0
  }

  /**
   * The walk over `body.descendants` with its counter `seen`: it stops once
   * more than 200 nodes were counted, and it stops after the first removal,
   * because a decomposed element has no successor to continue from. The
   * result is the forest, the counter, and whether the walk stopped.
   */
  function TitleScan(ns: seq<Node>, seen: nat, title: string -> bool): (r: (seq<Node>, nat, bool))
    ensures !r.2 ==> r.0 == ns
  {
    if ns == [] then ([], seen, false)
    else
      var (a, seen', stop) := TitleScanNode(ns[0], seen, title);
      if stop then (a + ns[1..], seen', true)
      else
        var (b, seen'', stop') := TitleScan(ns[1..], seen', title);
        (a + b, seen'', stop')
  }

  function TitleScanNode(n: Node, seen: nat, title: string -> bool): (r: (seq<Node>, nat, bool))
    ensures !r.2 ==> r.0 == [n]
  {
    if seen > 200 then ([n], seen, true)
    else if TitleFragment(n, title) then ([], seen + 1, true)
    else
      match n
      case Text(_) => ([n], seen + 1, false)
      case Elem(id, tag, attrs, kids) =>
        var (k, seen', stop) := TitleScan(kids, seen + 1, title);
        ([Elem(id, tag, attrs, k)], seen', stop)
  }

  /** `r` is `ns` with one title fragment (and what it holds) taken out. */
  ghost predicate RemovedOneFragment(ns: seq<Node>, r: seq<Node>, title: string -> bool)
  {
    exists q :: ValidPath(ns, q) && TitleFragment(At(ns, q), title) && r == RemoveAt(ns, q)
  }

  /** The scan removes at most one element, and only a title fragment. */
  lemma {:induction false} TitleScanAtMostOne(ns: seq<Node>, seen: nat, title: string -> bool)
    ensures TitleScan(ns, seen, title).0 == ns || RemovedOneFragment(ns, TitleScan(ns, seen, title).0, title)
    decreases Size(ns), 1
  {
    if ns != [] {
      var t := TitleScanNode(ns[0], seen, title);
      TitleScanHeadAtMostOne(ns, seen, title);
      if !t.2 {
        assert Size(ns) == NodeSize(ns[0]) + Size(ns[1..]);
        TitleScanAtMostOne(ns[1..], t.1, title);
        var b := TitleScan(ns[1..], t.1, title).0;
        assert TitleScan(ns, seen, title).0 == [ns[0]] + b;
        if b != ns[1..] {
          RemovedShift(ns, b, title);
        }
      }
    }
  }

  /** A fragment removed from the tail of a forest is one removed from the forest. */
  lemma RemovedShift(ns: seq<Node>, b: seq<Node>, title: string -> bool)
    requires ns != [] && RemovedOneFragment(ns[1..], b, title)
    ensures RemovedOneFragment(ns, [ns[0]] + b, title)
  {
    var q :| ValidPath(ns[1..], q) && TitleFragment(At(ns[1..], q), title) && b == RemoveAt(ns[1..], q);
    var q' := ShiftedWitness(ns, q);
    assert TitleFragment(At(ns, q'), title);
  }

  lemma ShiftedWitness(ns: seq<Node>, q: Path) returns (q': Path)
    requires ns != [] && ValidPath(ns[1..], q)
    ensures ValidPath(ns, q') && At(ns, q') == At(ns[1..], q)
    ensures RemoveAt(ns, q') == [ns[0]] + RemoveAt(ns[1..], q)
  {
    RemoveAtShift(ns, q);
    PathShift(ns, q);
    q' := [q[0] + 1] + q[1..];
  }

  /** A fragment removed from the children of the first node is one removed from the forest. */
  lemma RemovedDown(ns: seq<Node>, k: seq<Node>, title: string -> bool)
    requires ns != [] && ns[0].Elem? && RemovedOneFragment(ns[0].kids, k, title)
    ensures RemovedOneFragment(ns, [Elem(ns[0].id, ns[0].tag, ns[0].attrs, k)] + ns[1..], title)
  {
    var q :| ValidPath(ns[0].kids, q) && TitleFragment(At(ns[0].kids, q), title) && k == RemoveAt(ns[0].kids, q);
    var q' := DownWitness(ns, q);
    assert TitleFragment(At(ns, q'), title);
  }

  lemma DownWitness(ns: seq<Node>, q: Path) returns (q': Path)
    requires ns != [] && ns[0].Elem? && ValidPath(ns[0].kids, q)
    ensures ValidPath(ns, q') && At(ns, q') == At(ns[0].kids, q)
    ensures RemoveAt(ns, q') == [Elem(ns[0].id, ns[0].tag, ns[0].attrs, RemoveAt(ns[0].kids, q))] + ns[1..]
  {
    RemoveAtDown(ns, q);
    PathDown(ns, q);
    q' := [0] + q;
  }

  lemma {:induction false} TitleScanHeadAtMostOne(ns: seq<Node>, seen: nat, title: string -> bool)
    requires ns != []
    ensures var a := TitleScanNode(ns[0], seen, title).0;
      a + ns[1..] == ns || RemovedOneFragment(ns, a + ns[1..], title)
    decreases Size(ns), 0
  {
    if seen <= 200 && TitleFragment(ns[0], title) {
      assert TitleScanNode(ns[0], seen, title).0 + ns[1..] == RemoveAt(ns, [0]);
    } else if seen <= 200 && ns[0].Elem? {
      var e := ns[0];
      assert Size(ns) == 1 + Size(e.kids) + Size(ns[1..]);
      TitleScanAtMostOne(e.kids, seen + 1, title);
      var k := TitleScan(e.kids, seen + 1, title).0;
      assert TitleScanNode(ns[0], seen, title).0 == [Elem(e.id, e.tag, e.attrs, k)];
      if k != e.kids {
        RemovedDown(ns, k, title);
      }
    }
  }

  // pass 4: navigation lists and title headings among the first ten children

  /** A list of many links with little text, of utilities only, or of few links and very little text. */
  predicate NavList(n: Node)
  {
    n.Elem? && n.tag in {"ul", "ol"} &&
    var links := Count(n.kids, "a");
    var len := TextLen(n.kids);
    (links >= 3 && len < 300) || OnlyUtilityLinks(n.kids) || (links <= 3 && len < 120)
  }

  /** A short heading that repeats the book title. */
  predicate TitleHeading(n: Node)
  {
    n.Elem? && n.tag in {"h1", "h2", "div", "p"} &&
    var t := Lower(GetText(n.kids, " "));
    Contains(t, ChromeTitle) && |t| < 200
  }

  predicate TopChrome(n: Node)
  {
    NavList(n) || TitleHeading(n)
  }

  function Reject(ns: seq<Node>, drop: Node -> bool): (r: seq<Node>)
    ensures |r| <= |ns|
    ensures forall i | 0 <= i < |r| :: !drop(r[i]) && r[i] in ns
    ensures forall i | 0 <= i < |ns| :: !drop(ns[i]) ==> ns[i] in r
  {
    if ns == [] then [] else (if drop(ns[0]) then [] else [ns[0]]) + Reject(ns[1..], drop)
  }

  /** Rejecting from two runs of children is rejecting from each: the kept nodes keep their order. */
  lemma {:induction false} RejectAppend(a: seq<Node>, b: seq<Node>, drop: Node -> bool)
    ensures Reject(a + b, drop) == Reject(a, drop) + Reject(b, drop)
  {
    if a == [] {
      assert a + b == b;
    } else {
      assert (a + b)[0] == a[0] && (a + b)[1..] == a[1..] + b;
      RejectAppend(a[1..], b, drop);
    }
  }

  /** Only the first ten children are judged; each one that is top chrome goes. */
  function TrimTopBlocks(kids: seq<Node>): (r: seq<Node>)
    ensures var k := if |kids| < 10 then |kids| else 10;
      |r| >= |kids| - k && r[|r| - (|kids| - k)..] == kids[k..]
    ensures var k := if |kids| < 10 then |kids| else 10;
      forall i | 0 <= i < |r| - (|kids| - k) :: !TopChrome(r[i]) && r[i] in kids[..k]
    ensures var k := if |kids| < 10 then |kids| else 10;
      forall i | 0 <= i < k :: !TopChrome(kids[i]) ==> kids[i] in r[..|r| - (|kids| - k)]
  {
    var k := if |kids| < 10 then |kids| else 10;
    var head := Reject(kids[..k], TopChrome);
    assert forall i | 0 <= i < k :: kids[..k][i] == kids[i];
    head + kids[k..]
  }

  // pass 5: the first heading-like child, if it repeats the title

  predicate HeadingLike(n: Node)
  {
    n.Elem? && n.tag in {"h1", "h2", "div", "p"}
  }

  function FirstHeadingLike(kids: seq<Node>, from: nat): (r: Option<nat>)
    requires from <= |kids|
    ensures r.Some? ==> from <= r.value < |kids| && HeadingLike(kids[r.value])
    ensures r.Some? ==> forall j | from <= j < r.value :: !HeadingLike(kids[j])
    ensures r.None? ==> forall j | from <= j < |kids| :: !HeadingLike(kids[j])
    decreases |kids| - from
  {
    if from == |kids| then None
    else if HeadingLike(kids[from]) then Some(from)
    else FirstHeadingLike(kids, from + 1)
  }

  /** Child `i` is the first heading-like child. */
  predicate FirstHeadingAt(kids: seq<Node>, i: nat)
  {
    i < |kids| && HeadingLike(kids[i]) && forall j | 0 <= j < i :: !HeadingLike(kids[j])
  }

  /**
   * The first `h1`/`h2`/`div`/`p` child goes exactly when it is a short title
   * repeat; nothing else changes.
   */
  function DropLeadingTitle(kids: seq<Node>): (r: seq<Node>)
    ensures || (exists i | 0 <= i < |kids| ::
                 FirstHeadingAt(kids, i) && TitleHeading(kids[i]) && r == kids[..i] + kids[i + 1..])
            || (r == kids && forall i | 0 <= i < |kids| :: FirstHeadingAt(kids, i) ==> !TitleHeading(kids[i]))
  {
    match FirstHeadingLike(kids, 0)
    case None => kids
    case Some(i) =>
      assert FirstHeadingAt(kids, i);
      if TitleHeading(kids[i]) then kids[..i] + kids[i + 1..]
      else
        assert forall j | 0 <= j < |kids| :: FirstHeadingAt(kids, j) ==> j == i;
        kids
  }

  // pass 6: a standalone INTRODUZIONE heading among the first eight children

  predicate IntroHeading(n: Node)
  {
    n.Elem? && n.tag in {"h1", "h2", "h3", "div", "p"} &&
    var t := Strip(GetText(n.kids, " "));
    Upper(t) == "INTRODUZIONE" || StartsWith(Lower(t), "introduzione")
  }

  /** The first of the first eight children from `from` on that `intro` accepts. */
  function FirstIntro(kids: seq<Node>, from: nat, intro: Node -> bool): (r: Option<nat>)
    requires from <= |kids|
    ensures r.Some? ==> from <= r.value < |kids| && r.value < 8 && intro(kids[r.value])
    ensures r.Some? ==> forall j | from <= j < r.value :: !intro(kids[j])
    ensures r.None? ==> forall j | from <= j < |kids| && j < 8 :: !intro(kids[j])
    decreases |kids| - from
  {
    if from == |kids| || from >= 8 then None
    else if intro(kids[from]) then Some(from)
    else FirstIntro(kids, from + 1, intro)
  }

  /** At most one child goes: the first introduction heading among the first eight. */
  function DropIntroHeading(kids: seq<Node>): (r: seq<Node>)
    ensures r == kids <==> forall j | 0 <= j < |kids| && j < 8 :: !IntroHeading(kids[j])
    ensures r != kids ==> exists i | 0 <= i < |kids| && i < 8 ::
      IntroHeading(kids[i]) && (forall j | 0 <= j < i :: !IntroHeading(kids[j])) &&
      r == kids[..i] + kids[i + 1..]
  {
    match FirstIntro(kids, 0, IntroHeading)
    case None => kids
    case Some(i) =>
      assert |kids[..i] + kids[i + 1..]| < |kids|;
      kids[..i] + kids[i + 1..]
  }

  // ------------------------------------------------ tracker attributes

  predicate TrackerAttr(a: Attr)
  {
    StartsWith(a.name, "data-") || StartsWith(a.name, "on")
  }

  function KeepAttrs(attrs: seq<Attr>): (r: seq<Attr>)
    ensures forall i | 0 <= i < |r| :: !TrackerAttr(r[i]) && r[i] in attrs
    ensures forall i | 0 <= i < |attrs| :: !TrackerAttr(attrs[i]) ==> attrs[i] in r
  {
    if attrs == [] then []
    else (if TrackerAttr(attrs[0]) then [] else [attrs[0]]) + KeepAttrs(attrs[1..])
  }

  /** Every element loses its `data-*` and `on*` attributes. */
  function StripTrackerAttrs(ns: seq<Node>): seq<Node>
  {
    if ns == [] then [] else [StripTrackerAttrsNode(ns[0])] + StripTrackerAttrs(ns[1..])
  }

  function StripTrackerAttrsNode(n: Node): Node
  {
    match n
    case Text(_) => n
    case Elem(id, tag, attrs, kids) => Elem(id, tag, KeepAttrs(attrs), StripTrackerAttrs(kids))
  }

  predicate NoTrackerAttrs(n: Node)
  {
    n.Elem? && forall i | 0 <= i < |n.attrs| :: !TrackerAttr(n.attrs[i])
  }

  /** Afterwards no element has a tracker attribute; text and elements are as they were. */
  lemma {:induction false} StripTrackerAttrsClean(ns: seq<Node>, tag: string)
    ensures AllElems(StripTrackerAttrs(ns), NoTrackerAttrs)
    ensures Strings(StripTrackerAttrs(ns)) == Strings(ns)
    ensures Count(StripTrackerAttrs(ns), tag) == Count(ns, tag)
  {
    if ns != [] {
      StripTrackerAttrsClean(ns[1..], tag);
      if ns[0].Elem? {
        StripTrackerAttrsClean(ns[0].kids, tag);
      }
      AllElemsJoin([StripTrackerAttrsNode(ns[0])], StripTrackerAttrs(ns[1..]), NoTrackerAttrs);
    }
  }

  // ------------------------------------------------------------ the cleaner

  /** The passes of `clean_html_keep_structure`, in source order. */
  function CleanSpec(doc: seq<Node>, pats: Patterns): (r: seq<Node>)
    ensures AllElems(r, NoTrackerAttrs)
  {
    var d1 := DropScripts(doc);
    var mr := MainRoot(d1);
    var d2 := DropStructural(d1, mr);
    var d3 := DropReaderChrome(d2, mr);
    var d4 := DropEmpty(d3);
    var d5 := StripTitleText(d4);
    var d6 := NoiseSpec(d5, mr, pats.noise);
    var d7 := Overlays(d6, false).0;
    var d8 := DropUtilityLists(d7, mr);
    var d9 := InBody(d8, (k: seq<Node>) => TitleScan(k, 0, pats.titleFragment).0);
    var d10 := InBody(d9, TrimTopBlocks);
    var d11 := InBody(d10, DropLeadingTitle);
    var d12 := InBody(d11, DropIntroHeading);
    StripTrackerAttrsClean(d12, "");
    StripTrackerAttrs(d12)
  }

  /** `clean_html_keep_structure` on an already parsed page. */
  method Clean(doc: seq<Node>, pats: Patterns) returns (r: seq<Node>)
    ensures r == CleanSpec(doc, pats)
    ensures AllElems(r, NoTrackerAttrs)
  {
    var d := DropScripts(doc);
    var mr := FindMainRoot(d);
    d := DropStructural(d, mr);
    d := DropReaderChrome(d, mr);
    d := DropEmpty(d);
    d := StripTitleText(d);
    d := NoisePass(d, mr, pats.noise);
    d := Overlays(d, false).0;
    d := DropUtilityLists(d, mr);
    d := InBody(d, (k: seq<Node>) => TitleScan(k, 0, pats.titleFragment).0);
    d := InBody(d, TrimTopBlocks);
    d := InBody(d, DropLeadingTitle);
    d := InBody(d, DropIntroHeading);
    StripTrackerAttrsClean(d, "");
    r := StripTrackerAttrs(d);
  }
}
