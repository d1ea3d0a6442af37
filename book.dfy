/**
 * The main loop of `build_book`: every input page in turn is cleaned, its
 * images are embedded under a per-file prefix, the cover is taken from the
 * first page that yields one, and the page either becomes the next numbered
 * chapter or is dropped by the gate or by the validity test.
 */
module Book {
  import opened Basics
  import opened Dom
  import Sanitizer
  import opened Assets
  import SortKey
  import Gate

  /** One input file: its stem and its parsed markup. */
  datatype Page = Page(stem: string, doc: seq<Node>)

  /** What the run depends on besides the pages: the cleaner's patterns, the junk pattern and the network. */
  datatype Env = Env(pats: Sanitizer.Patterns, junk: string -> bool, net: Net)

  /** A chapter as the book and the PDF keep it: file, title, body markup and the heading flag. */
  datatype Chapter = Chapter(fileName: string, title: string, body: string, includeH1: bool)

  /** The variables the loop updates. */
  datatype State = State(fileIdx: nat, chapIndex: nat, cover: Option<Cover>, assets: seq<Asset>, chapters: seq<Chapter>)

  const Start: State := State(0, 0, None, [], [])

  /** How the run ends: no input files, no chapter left (both exit with status 1), or a book. */
  datatype Outcome =
    | NoFiles
    | NoChapters
    | Built(cover: Option<Cover>, assets: seq<Asset>, chapters: seq<Chapter>)

  /** `img_{file_idx}_`: the file number, in decimal, between `img_` and `_`. */
  function ImagePrefix(fileIdx: nat): (r: string)
    ensures |r| >= 6 && r[..4] == "img_" && r[|r| - 1] == '_'
    ensures AllDigits(r[4..|r| - 1]) && DigitsValue(r[4..|r| - 1]) == fileIdx
  {
    var d := NatToString(fileIdx);
    assert ("img_" + d + "_")[4..|d| + 4] == d;
    "img_" + d + "_"
  }

  /** `chapters/ch_{chap_index:03}.xhtml`: the chapter number reads back from the name. */
  function ChapterFile(n: nat): (r: string)
    ensures ChapterNo(r) == n
  {
    var r := "chapters/ch_" + Pad3(n) + ".xhtml";
    assert r[12..] == Pad3(n) + ".xhtml";
    DigitsThen(Pad3(n), ".xhtml");
    r
  }

  /** The chapter number a chapter file carries: the digits after `chapters/ch_`. */
  function ChapterNo(name: string): nat
  {
    if |name| < 12 then 0
    else
      var rest := name[12..];
      DigitsValue(rest[..SortKey.DigitRun(rest)])
  }

  /** The file the cover is stored under. */
  const CoverFile: string := "images/cover.jpg"

  // ------------------------------------------------------------ one file

  /**
   * What handling one file yields: the cover it offers (looked for only
   * while there is no cover), the rewritten page, the assets it adds to the
   * book and the gate's verdict on it.
   */
  datatype Handled = Handled(offer: Option<Cover>, doc: seq<Node>, added: seq<Asset>, verdict: Gate.Verdict)

  /** How the loop handles the file at a position: page, file number, whether a cover is still wanted. */
  type Handler = (Page, nat, bool) -> Handled

  /**
   * File number `idx` as the source handles it: cleaned, images embedded
   * under the file's prefix, the cover looked for on the page after its
   * images were rewritten, then assessed.
   */
  function HandleAsWritten(page: Page, idx: nat, needCover: bool, env: Env): (r: Handled)
    ensures !needCover ==> r.offer.None?
    ensures WellNamed(r.added, idx)
  {
    var clean := Sanitizer.CleanSpec(page.doc, env.pats);
    EmbeddedWellNamed(clean, idx, env.net);
    var plan := EmbedPlan(clean, ImagePrefix(idx), env.net);
    var doc := Retag(clean, NewSrcs(plan));
    Handled(if needCover then PickCover(doc, env.net) else None, doc, Embedded(plan), Gate.Assess(doc, page.stem, env.junk))
  }

  /**
   * File number `idx` with the cover looked for on the cleaned page, before
   * its images are rewritten: the page offers its cover candidate exactly
   * while a cover is wanted, and adds its images under the file's prefix.
   */
  function Handle(page: Page, idx: nat, needCover: bool, env: Env): (r: Handled)
    ensures r.offer == (if needCover then PageCover(page, env) else None)
    ensures WellNamed(r.added, idx)
  {
    var clean := Sanitizer.CleanSpec(page.doc, env.pats);
    EmbeddedWellNamed(clean, idx, env.net);
    var plan := EmbedPlan(clean, ImagePrefix(idx), env.net);
    var doc := Retag(clean, NewSrcs(plan));
    Handled(if needCover then PickCover(clean, env.net) else None, doc, Embedded(plan), Gate.Assess(doc, page.stem, env.junk))
  }

  function HandlerAsWrittenOf(env: Env): Handler
  {
    (p: Page, n: nat, c: bool) => HandleAsWritten(p, n, c, env)
  }

  function HandlerOf(env: Env): Handler
  {
    (p: Page, n: nat, c: bool) => Handle(p, n, c, env)
  }

  /**
   * The body of the loop for one file: clean, look for the cover while
   * there is none yet, embed the images, assess.
   */
  method HandlePage(page: Page, idx: nat, needCover: bool, env: Env, ghost handle: Handler) returns (h: Handled)
    requires forall p, n, c {:trigger Handle(p, n, c, env)} :: handle(p, n, c) == Handle(p, n, c, env)
    ensures h == handle(page, idx, needCover)
  {
    assert handle(page, idx, needCover) == Handle(page, idx, needCover, env);
    var doc := Sanitizer.Clean(page.doc, env.pats);
    var offer := None;
    if needCover {
      offer := PickCover(doc, env.net);
    }
    var added;
    doc, added := EmbedImages(doc, ImagePrefix(idx), env.net);
    var v := Gate.Assess(doc, page.stem, env.junk);
    h := Handled(offer, doc, added, v);
  }

  // ------------------------------------------------------------ bookkeeping

  /** The chapter a kept page becomes under number `n`. */
  function ChapterOf(n: nat, v: Gate.Verdict): Chapter
    requires v.Kept?
  {
    Chapter(ChapterFile(n), v.title, v.body, v.includeH1)
  }

  /** The state after a file, before its verdict is acted on. */
  function Absorb(st: State, h: Handled): State
  {
    st.(fileIdx := st.fileIdx + 1, cover := if st.cover.Some? then st.cover else h.offer, assets := st.assets + h.added)
  }

  /**
   * The bookkeeping as the source writes it: the chapter number is taken by
   * every page the gate keeps, before the validity test drops the invalid
   * ones, so each kept invalid page opens a gap in the numbering.
   */
  function AdvanceAsWritten(st: State, h: Handled): (r: State)
    ensures r.fileIdx == st.fileIdx + 1 && r.assets == st.assets + h.added
    ensures st.cover.Some? ==> r.cover == st.cover
    ensures |r.chapters| >= |st.chapters| && r.chapters[..|st.chapters|] == st.chapters
    ensures |r.chapters| > |st.chapters| <==> h.verdict.Kept? && h.verdict.valid
    ensures |r.chapters| > |st.chapters| ==>
      (r.chapters == st.chapters + [r.chapters[|st.chapters|]] &&
       r.chapters[|st.chapters|].fileName == ChapterFile(st.chapIndex + 1))
    ensures r.chapIndex - |r.chapters| == st.chapIndex - |st.chapters| + (if h.verdict.Kept? && !h.verdict.valid then 1 else 0)
  {
    var st1 := Absorb(st, h);
    if h.verdict.Skipped? then st1
    else if h.verdict.valid then st1.(chapIndex := st1.chapIndex + 1, chapters := st1.chapters + [ChapterOf(st1.chapIndex + 1, h.verdict)])
    else st1.(chapIndex := st1.chapIndex + 1)
  }

  /**
   * The bookkeeping with a chapter number taken only by a chapter that
   * enters the book: the numbering never opens a gap.
   */
  function Advance(st: State, h: Handled): (r: State)
    ensures r.fileIdx == st.fileIdx + 1 && r.assets == st.assets + h.added
    ensures st.cover.Some? ==> r.cover == st.cover
    ensures |r.chapters| >= |st.chapters| && r.chapters[..|st.chapters|] == st.chapters
    ensures |r.chapters| > |st.chapters| <==> h.verdict.Kept? && h.verdict.valid
    ensures |r.chapters| > |st.chapters| ==>
      (r.chapters == st.chapters + [r.chapters[|st.chapters|]] &&
       r.chapters[|st.chapters|].fileName == ChapterFile(st.chapIndex + 1))
    ensures r.chapIndex - |r.chapters| == st.chapIndex - |st.chapters|
  {
    var st1 := Absorb(st, h);
    if h.verdict.Kept? && h.verdict.valid then st1.(chapIndex := st1.chapIndex + 1, chapters := st1.chapters + [ChapterOf(st1.chapIndex + 1, h.verdict)])
    else st1
  }

  /** The loop's variables after the files `pages`, as the source keeps them: a chapter number may be spent without a chapter. */
  function FoldAsWritten(pages: seq<Page>, handle: Handler): (r: State)
    ensures r.fileIdx == |pages| && |r.chapters| <= r.chapIndex <= |pages|
  {
    if pages == [] then Start
    else
      var st := FoldAsWritten(pages[..|pages| - 1], handle);
      AdvanceAsWritten(st, handle(pages[|pages| - 1], st.fileIdx + 1, st.cover.None?))
  }

  /**
   * The loop's variables after the files `pages`, each handled by `handle`:
   * one file number per file, and exactly one chapter number per chapter.
   */
  function Fold(pages: seq<Page>, handle: Handler): (r: State)
    ensures r.fileIdx == |pages| && r.chapIndex == |r.chapters| <= |pages|
  {
    if pages == [] then Start
    else
      var st := Fold(pages[..|pages| - 1], handle);
      Advance(st, handle(pages[|pages| - 1], st.fileIdx + 1, st.cover.None?))
  }

  /**
   * The loop over all pages as the source writes it: the chapter files are
   * still named after increasing numbers and so all different, and the
   * images still have different names, none of them the cover's.
   */
  function RunAsWritten(pages: seq<Page>, env: Env): (r: State)
    ensures Ascending(r.chapters, r.chapIndex) && r.chapIndex <= |pages|
    ensures forall i, j | 0 <= i < j < |r.chapters| :: r.chapters[i].fileName != r.chapters[j].fileName
    ensures DistinctNames(r.assets) && forall i | 0 <= i < |r.assets| :: r.assets[i].fileName != CoverFile
  {
    FoldAsWrittenShape(pages, HandlerAsWrittenOf(env));
    FoldAsWrittenChapterFiles(pages, HandlerAsWrittenOf(env));
    HandlerAsWrittenNamesAssets(env);
    FoldAsWrittenAssets(pages, HandlerAsWrittenOf(env));
    NoneIsCover(FoldAsWritten(pages, HandlerAsWrittenOf(env)).assets, |pages|);
    FoldAsWritten(pages, HandlerAsWrittenOf(env))
  }

  /**
   * The loop over all pages, with both corrections: the chapters are
   * numbered 1, 2, ... without gaps and so their files are all different,
   * the images have different names, none of them the cover's, and the cover
   * comes from the first page that has one.
   */
  function Run(pages: seq<Page>, env: Env): (r: State)
    ensures forall k | 0 <= k < |r.chapters| :: r.chapters[k].fileName == ChapterFile(k + 1)
    ensures forall i, j | 0 <= i < j < |r.chapters| :: r.chapters[i].fileName != r.chapters[j].fileName
    ensures DistinctNames(r.assets) && forall i | 0 <= i < |r.assets| :: r.assets[i].fileName != CoverFile
    ensures FirstCandidate(r.cover, pages, PageCoverOf(env))
  {
    FoldShape(pages, HandlerOf(env));
    FoldChapterFiles(pages, HandlerOf(env));
    HandlerNamesAssets(env);
    FoldAssets(pages, HandlerOf(env));
    NoneIsCover(Fold(pages, HandlerOf(env)).assets, |pages|);
    HandlerOffersCover(env);
    FoldCover(pages, HandlerOf(env), PageCoverOf(env));
    Fold(pages, HandlerOf(env))
  }

  /**
   * The end of `build_book`'s loop: no book exactly when there are no files
   * or no chapter entered; a book has chapters numbered 1, 2, ... and images
   * with different names.
   */
  function Build(pages: seq<Page>, env: Env): (r: Outcome)
    ensures r.NoFiles? <==> pages == []
    ensures r.Built? ==>
      (r.chapters != [] && DistinctNames(r.assets) &&
       forall k | 0 <= k < |r.chapters| :: r.chapters[k].fileName == ChapterFile(k + 1))
  {
    if pages == [] then NoFiles
    else
      var st := Run(pages, env);
      if st.chapters == [] then NoChapters else Built(st.cover, st.assets, st.chapters)
  }

  // ------------------------------------------------------------ the loop

  /** One more file folded in. */
  lemma FoldSnoc(pages: seq<Page>, i: nat, handle: Handler)
    requires i < |pages|
    ensures var st := Fold(pages[..i], handle);
      Fold(pages[..i + 1], handle) == Advance(st, handle(pages[i], st.fileIdx + 1, st.cover.None?))
  {
    assert pages[..i + 1][..i] == pages[..i];
  }

  /**
   * The bookkeeping around one file: the file number goes up, the cover is
   * kept once set, the file's assets are appended, and a kept valid page
   * becomes the next chapter.
   */
  method ProcessFile(st: State, page: Page, env: Env, ghost handle: Handler) returns (st': State)
    requires forall p, n, c {:trigger Handle(p, n, c, env)} :: handle(p, n, c) == Handle(p, n, c, env)
    ensures st' == Advance(st, handle(page, st.fileIdx + 1, st.cover.None?))
  {
    var fileIdx := st.fileIdx + 1;
    var h := HandlePage(page, fileIdx, st.cover.None?, env, handle);
    var cover := st.cover;
    if cover.None? {
      cover := h.offer;
    }
    var chapIndex := st.chapIndex;
    var chapters := st.chapters;
    if h.verdict.Kept? && h.verdict.valid {
      chapIndex := chapIndex + 1;
      chapters := chapters + [ChapterOf(chapIndex, h.verdict)];
    }
    st' := State(fileIdx, chapIndex, cover, st.assets + h.added, chapters);
    assert Absorb(st, h) == State(fileIdx, st.chapIndex, cover, st.assets + h.added, st.chapters);
  }

  /**
   * `build_book`'s loop over the listed files; `handle` names, for the
   * proof, what `HandlePage` computes.
   */
  method RunPages(pages: seq<Page>, env: Env, ghost handle: Handler) returns (st: State)
    requires forall p, n, c {:trigger Handle(p, n, c, env)} :: handle(p, n, c) == Handle(p, n, c, env)
    ensures st == Fold(pages, handle)
  {
    st := Start;
    for i := 0 to |pages|
      invariant st == Fold(pages[..i], handle)
    {
      st := ProcessFile(st, pages[i], env, handle);
      FoldSnoc(pages, i, handle);
    }
    assert pages[..|pages|] == pages;
  }

  /** `build_book` from the listing of the input files to the two early exits or the book. */
  method BuildBook(pages: seq<Page>, env: Env) returns (out: Outcome)
    ensures out == Build(pages, env)
  {
    if pages == [] {
      return NoFiles;
    }
    var st := RunPages(pages, env, HandlerOf(env));
    if st.chapters == [] {
      return NoChapters;
    }
    return Built(st.cover, st.assets, st.chapters);
  }

  // ------------------------------------------------------------ chapters

  /** Digits up to a non-digit are read back whole. */
  lemma DigitsThen(d: string, s: string)
    requires AllDigits(d) && (s == [] || !IsDigit(s[0]))
    ensures (d + s)[..SortKey.DigitRun(d + s)] == d
  {
    SortKey.DigitRunOf(d, s);
    assert (d + s)[..|d|] == d;
  }

  /**
   * After any files: one file number per file, and the chapters that
   * entered the book are numbered 1, 2, ... in order, with no number skipped.
   */
  lemma {:induction false} FoldShape(pages: seq<Page>, handle: Handler)
    ensures var st := Fold(pages, handle);
      && st.fileIdx == |pages|
      && st.chapIndex == |st.chapters| <= |pages|
      && forall k | 0 <= k < |st.chapters| :: st.chapters[k].fileName == ChapterFile(k + 1)
  {
    if pages != [] {
      var init := pages[..|pages| - 1];
      FoldShape(init, handle);
      var st := Fold(init, handle);
      var r := Fold(pages, handle);
      assert r == Advance(st, handle(pages[|pages| - 1], st.fileIdx + 1, st.cover.None?));
      NumberedStep(st.chapters, r.chapters, ChapterFile);
    }
  }

  /** Chapters numbered 1, 2, ... stay so when one more, under the next number, is appended. */
  lemma NumberedStep(cs: seq<Chapter>, rs: seq<Chapter>, name: nat -> string)
    requires forall k | 0 <= k < |cs| :: cs[k].fileName == name(k + 1)
    requires |rs| >= |cs| && rs[..|cs|] == cs
    requires |rs| <= |cs| + 1
    requires |rs| > |cs| ==> rs[|cs|].fileName == name(|cs| + 1)
    ensures forall k | 0 <= k < |rs| :: rs[k].fileName == name(k + 1)
  {
    forall k | 0 <= k < |rs|
      ensures rs[k].fileName == name(k + 1)
    {
      if k < |cs| {
        assert rs[k] == rs[..|cs|][k];
      }
    }
  }

  /** Chapter files are all different. */
  lemma {:induction false} FoldChapterFiles(pages: seq<Page>, handle: Handler)
    ensures var cs := Fold(pages, handle).chapters;
      forall i, j | 0 <= i < j < |cs| :: cs[i].fileName != cs[j].fileName
  {
    var cs := Fold(pages, handle).chapters;
    FoldShape(pages, handle);
    forall i, j | 0 <= i < j < |cs|
      ensures cs[i].fileName != cs[j].fileName
    {
      assert ChapterNo(cs[i].fileName) == i + 1 && ChapterNo(cs[j].fileName) == j + 1;
    }
  }

  /** Chapter files named after increasing numbers between 1 and `top`. */
  predicate Ascending(cs: seq<Chapter>, top: nat)
  {
    && (forall k | 0 <= k < |cs| :: cs[k].fileName == ChapterFile(ChapterNo(cs[k].fileName)) && 1 <= ChapterNo(cs[k].fileName) <= top)
    && (forall i, j | 0 <= i < j < |cs| :: ChapterNo(cs[i].fileName) < ChapterNo(cs[j].fileName))
  }

  lemma AscendingSnoc(cs: seq<Chapter>, top: nat, c: Chapter)
    requires Ascending(cs, top) && c.fileName == ChapterFile(top + 1)
    ensures Ascending(cs + [c], top + 1)
  {
    var r := cs + [c];
    assert ChapterNo(c.fileName) == top + 1;
    assert forall k | 0 <= k < |cs| :: r[k] == cs[k];
  }

  /** As written, the chapter files are named after increasing numbers, none above the last number taken. */
  lemma {:induction false} FoldAsWrittenShape(pages: seq<Page>, handle: Handler)
    ensures Ascending(FoldAsWritten(pages, handle).chapters, FoldAsWritten(pages, handle).chapIndex)
  {
    if pages != [] {
      var init := pages[..|pages| - 1];
      FoldAsWrittenShape(init, handle);
      var st := FoldAsWritten(init, handle);
      var r := FoldAsWritten(pages, handle);
      assert r == AdvanceAsWritten(st, handle(pages[|pages| - 1], st.fileIdx + 1, st.cover.None?));
      AscendingStep(st.chapters, st.chapIndex, r.chapters, r.chapIndex);
    }
  }

  /** One step of the as-written bookkeeping keeps the chapter numbers increasing. */
  lemma AscendingStep(cs: seq<Chapter>, top: nat, rs: seq<Chapter>, top': nat)
    requires Ascending(cs, top)
    requires |rs| >= |cs| && rs[..|cs|] == cs
    requires |rs| > |cs| ==> rs == cs + [rs[|cs|]] && rs[|cs|].fileName == ChapterFile(top + 1)
    requires top' - |rs| >= top - |cs|
    requires |rs| > |cs| ==> top' - |rs| == top - |cs|
    ensures Ascending(rs, top')
  {
    if |rs| > |cs| {
      AscendingSnoc(cs, top, rs[|cs|]);
    } else {
      assert rs == rs[..|cs|];
    }
  }

  /** As written, chapter files are still all different. */
  lemma FoldAsWrittenChapterFiles(pages: seq<Page>, handle: Handler)
    ensures var cs := FoldAsWritten(pages, handle).chapters;
      forall i, j | 0 <= i < j < |cs| :: cs[i].fileName != cs[j].fileName
  {
    FoldAsWrittenShape(pages, handle);
  }

  /**
   * As written, a page the gate keeps but the validity test drops still
   * uses up a chapter number: the next chapter that enters the book is
   * stored under the number after it.
   */
  lemma AsWrittenGap(st: State, h1: Handled, h2: Handled)
    requires st.chapIndex == |st.chapters|
    requires h1.verdict.Kept? && !h1.verdict.valid
    requires h2.verdict.Kept? && h2.verdict.valid
    ensures var st2 := AdvanceAsWritten(AdvanceAsWritten(st, h1), h2);
      && |st2.chapters| == |st.chapters| + 1
      && st2.chapters[|st.chapters|].fileName == ChapterFile(|st.chapters| + 2)
      && st2.chapters[|st.chapters|].fileName != ChapterFile(|st.chapters| + 1)
  {
    assert ChapterNo(ChapterFile(|st.chapters| + 2)) != ChapterNo(ChapterFile(|st.chapters| + 1));
  }

  /** Such pages exist: a page holding only a short `h4` heading is kept by the gate and then found invalid. */
  lemma HeadingVerdict(t: string, stem: string, junk: string -> bool)
    requires Gate.Trimmed(t) && Gate.ShortLength <= |t| < Gate.ForcedKeepLength && !junk(t)
    ensures Gate.Assess(Gate.HeadingPage(t), stem, junk).Kept?
    ensures !Gate.Assess(Gate.HeadingPage(t), stem, junk).valid
  {
    Gate.HeadingPageRejected(t, junk);
  }

  // ------------------------------------------------------------ assets

  /** The assets one file adds are `images/img_{n}_1…`, `images/img_{n}_2…`, in order. */
  predicate WellNamed(added: seq<Asset>, n: nat)
  {
    forall j | 0 <= j < |added| ::
      PlainExt(added[j].ext) && added[j].fileName == AssetName(ImagePrefix(n), j + 1, added[j].ext)
  }

  /** The file number an asset name carries: the digits after `images/img_`. */
  function FileNo(name: string): nat
  {
    if |name| < 11 then 0
    else
      var rest := name[11..];
      DigitsValue(rest[..SortKey.DigitRun(rest)])
  }

  lemma FileNoOf(n: nat, j: nat, ext: string)
    ensures FileNo(AssetName(ImagePrefix(n), j, ext)) == n
  {
    var tail := "_" + NatToString(j) + ext;
    var name := AssetName(ImagePrefix(n), j, ext);
    assert name == "images/img_" + (NatToString(n) + tail);
    assert name[11..] == NatToString(n) + tail;
    DigitsThen(NatToString(n), tail);
  }

  lemma CoverFileNo()
    ensures FileNo(CoverFile) == 0
  {
    assert CoverFile[11..] == "r.jpg";
  }

  /** Within one file, different image numbers give different names. */
  lemma SameFileNames(n: nat, j1: nat, e1: string, j2: nat, e2: string)
    requires e1 != [] && e1[0] == '.' && e2 != [] && e2[0] == '.'
    requires AssetName(ImagePrefix(n), j1, e1) == AssetName(ImagePrefix(n), j2, e2)
    ensures j1 == j2
  {
    var head := "images/" + ImagePrefix(n);
    assert AssetName(ImagePrefix(n), j1, e1) == head + (NatToString(j1) + e1);
    assert AssetName(ImagePrefix(n), j2, e2) == head + (NatToString(j2) + e2);
    assert (head + (NatToString(j1) + e1))[|head|..] == NatToString(j1) + e1;
    assert (head + (NatToString(j2) + e2))[|head|..] == NatToString(j2) + e2;
    DigitsThen(NatToString(j1), e1);
    DigitsThen(NatToString(j2), e2);
    NatToStringInjective(j1, j2);
  }

  /** A page embedded as file number `idx` adds its images under that file's prefix, numbered from 1. */
  lemma EmbeddedWellNamed(doc: seq<Node>, idx: nat, net: Net)
    ensures WellNamed(Embedded(EmbedPlan(doc, ImagePrefix(idx), net)), idx)
  {
    EmbedNumbering(doc, ImagePrefix(idx), net);
  }

  /** No two assets share a file name. */
  predicate DistinctNames(a: seq<Asset>)
  {
    forall i, j | 0 <= i < j < |a| :: a[i].fileName != a[j].fileName
  }

  /** Every asset carries the number of one of the first `count` files. */
  predicate FromFiles(a: seq<Asset>, count: nat)
  {
    forall i | 0 <= i < |a| :: 1 <= FileNo(a[i].fileName) <= count
  }

  /** Every call of the handler adds its images under the prefix of the file number it is given. */
  ghost predicate NamesAssets(handle: Handler)
  {
    forall p, n, c :: WellNamed(handle(p, n, c).added, n)
  }

  /** The images of one file have different names, all carrying its number. */
  lemma AddedNames(added: seq<Asset>, m: nat)
    requires WellNamed(added, m + 1)
    ensures DistinctNames(added)
    ensures forall i | 0 <= i < |added| :: FileNo(added[i].fileName) == m + 1
  {
    forall i | 0 <= i < |added|
      ensures FileNo(added[i].fileName) == m + 1
    {
      FileNoOf(m + 1, i + 1, added[i].ext);
    }
    forall i, j | 0 <= i < j < |added|
      ensures added[i].fileName != added[j].fileName
    {
      if added[i].fileName == added[j].fileName {
        SameFileNames(m + 1, i + 1, added[i].ext, j + 1, added[j].ext);
      }
    }
  }

  /** Two lists of assets with no name in common. */
  predicate Apart(a: seq<Asset>, b: seq<Asset>)
  {
    forall i, j | 0 <= i < |a| && 0 <= j < |b| :: a[i].fileName != b[j].fileName
  }

  lemma DistinctAppend(a: seq<Asset>, b: seq<Asset>)
    requires DistinctNames(a) && DistinctNames(b) && Apart(a, b)
    ensures DistinctNames(a + b)
  {
    var r := a + b;
    var k := |a|;
    forall i, j | 0 <= i < j < |r|
      ensures r[i].fileName != r[j].fileName
    {
      if i >= k {
        assert r[i] == b[i - k] && r[j] == b[j - k];
      } else if j >= k {
        assert r[i] == a[i] && r[j] == b[j - k];
      }
    }
  }

  lemma FromFilesAppend(a: seq<Asset>, b: seq<Asset>, m: nat)
    requires FromFiles(a, m) && forall i | 0 <= i < |b| :: FileNo(b[i].fileName) == m + 1
    ensures FromFiles(a + b, m + 1)
  {
    var r := a + b;
    forall i | 0 <= i < |r|
      ensures 1 <= FileNo(r[i].fileName) <= m + 1
    {
      if i >= |a| {
        assert r[i] == b[i - |a|];
      }
    }
  }

  /** The images of one more file never clash with those before it, nor with each other. */
  lemma AppendFile(a: seq<Asset>, added: seq<Asset>, m: nat)
    requires DistinctNames(a) && FromFiles(a, m) && WellNamed(added, m + 1)
    ensures DistinctNames(a + added) && FromFiles(a + added, m + 1)
  {
    AddedNames(added, m);
    FromFilesAppend(a, added, m);
    assert Apart(a, added) by {
      forall i, j | 0 <= i < |a| && 0 <= j < |added|
        ensures a[i].fileName != added[j].fileName
      {
        assert FileNo(a[i].fileName) <= m;
      }
    }
    DistinctAppend(a, added);
  }

  /** Every asset carries the number of the file it came from, and no two share a name. */
  lemma {:induction false} FoldAssets(pages: seq<Page>, handle: Handler)
    requires NamesAssets(handle)
    ensures DistinctNames(Fold(pages, handle).assets) && FromFiles(Fold(pages, handle).assets, |pages|)
  {
    if pages != [] {
      var m := |pages| - 1;
      var init := pages[..m];
      FoldAssets(init, handle);
      FoldShape(init, handle);
      var st := Fold(init, handle);
      var h := handle(pages[m], st.fileIdx + 1, st.cover.None?);
      assert WellNamed(h.added, m + 1);
      AppendFile(st.assets, h.added, m);
    }
  }

  lemma HandlerNamesAssets(env: Env)
    ensures NamesAssets(HandlerOf(env))
  {
    forall p, n, c
      ensures WellNamed(HandlerOf(env)(p, n, c).added, n)
    {
      assert HandlerOf(env)(p, n, c) == Handle(p, n, c, env);
    }
  }

  /** The prefix of a file's images is written in name characters. */
  lemma ImagePrefixPlain(n: nat)
    ensures forall i | 0 <= i < |ImagePrefix(n)| :: NameChar(ImagePrefix(n)[i])
  {
    var d := NatToString(n);
    var p := ImagePrefix(n);
    assert p == "img_" + d + "_";
    forall i | 0 <= i < |p|
      ensures NameChar(p[i])
    {
      if i < 4 {
        assert p[i] == "img_"[i];
      } else if i < 4 + |d| {
        assert p[i] == d[i - 4];
      }
    }
  }

  /** Every asset is stored under a plain name. */
  predicate PlainNames(a: seq<Asset>)
  {
    forall i | 0 <= i < |a| :: PlainName(a[i].fileName)
  }

  /** The names one file adds are plain, and so are all the names of the loop. */
  lemma AddedPlain(a: seq<Asset>, added: seq<Asset>, n: nat)
    requires PlainNames(a) && WellNamed(added, n)
    ensures PlainNames(a + added)
  {
    ImagePrefixPlain(n);
    var r := a + added;
    forall i | 0 <= i < |r|
      ensures PlainName(r[i].fileName)
    {
      if i >= |a| {
        assert r[i] == added[i - |a|];
        AssetNamePlain(ImagePrefix(n), i - |a| + 1, added[i - |a|].ext);
      }
    }
  }

  /** Every image the loop embeds is stored under `images/` with a name in name characters. */
  lemma {:induction false} FoldPlainNames(pages: seq<Page>, handle: Handler)
    requires NamesAssets(handle)
    ensures PlainNames(Fold(pages, handle).assets)
  {
    if pages != [] {
      var m := |pages| - 1;
      FoldPlainNames(pages[..m], handle);
      var st := Fold(pages[..m], handle);
      var h := handle(pages[m], st.fileIdx + 1, st.cover.None?);
      assert WellNamed(h.added, m + 1);
      AddedPlain(st.assets, h.added, m + 1);
    }
  }

  /** No asset numbered after a file is stored where the cover is. */
  lemma NoneIsCover(a: seq<Asset>, count: nat)
    requires FromFiles(a, count)
    ensures forall i | 0 <= i < |a| :: a[i].fileName != CoverFile
  {
    CoverFileNo();
  }

  /** As written, every asset still carries the number of the file it came from, and no two share a name. */
  lemma {:induction false} FoldAsWrittenAssets(pages: seq<Page>, handle: Handler)
    requires NamesAssets(handle)
    ensures DistinctNames(FoldAsWritten(pages, handle).assets) && FromFiles(FoldAsWritten(pages, handle).assets, |pages|)
  {
    if pages != [] {
      var m := |pages| - 1;
      var init := pages[..m];
      FoldAsWrittenAssets(init, handle);
      var st := FoldAsWritten(init, handle);
      var h := handle(pages[m], st.fileIdx + 1, st.cover.None?);
      assert WellNamed(h.added, m + 1);
      AppendFile(st.assets, h.added, m);
    }
  }

  lemma HandlerAsWrittenNamesAssets(env: Env)
    ensures NamesAssets(HandlerAsWrittenOf(env))
  {
    forall p, n, c
      ensures WellNamed(HandlerAsWrittenOf(env)(p, n, c).added, n)
    {
      assert HandlerAsWrittenOf(env)(p, n, c) == HandleAsWritten(p, n, c, env);
    }
  }

  // ------------------------------------------------------------ cover

  /** The cover candidate of a page: its first image, before the images are rewritten. */
  function PageCover(page: Page, env: Env): Option<Cover>
  {
    PickCover(Sanitizer.CleanSpec(page.doc, env.pats), env.net)
  }

  function PageCoverOf(env: Env): Page -> Option<Cover>
  {
    (p: Page) => PageCover(p, env)
  }

  /**
   * `cover` is the candidate of the first page that has one, and it is
   * None exactly when no page has one.
   */
  ghost predicate FirstCandidate(cover: Option<Cover>, pages: seq<Page>, coverOf: Page -> Option<Cover>)
  {
    && (cover.None? <==> forall k | 0 <= k < |pages| :: coverOf(pages[k]).None?)
    && (cover.Some? ==> exists k | 0 <= k < |pages| :: cover == coverOf(pages[k]) && forall i | 0 <= i < k :: coverOf(pages[i]).None?)
  }

  /** One more page: a cover already set stays, otherwise the page's candidate is taken. */
  lemma FirstCandidateSnoc(cover: Option<Cover>, pages: seq<Page>, coverOf: Page -> Option<Cover>)
    requires pages != [] && FirstCandidate(cover, pages[..|pages| - 1], coverOf)
    ensures FirstCandidate(if cover.Some? then cover else coverOf(pages[|pages| - 1]), pages, coverOf)
  {
    var init := pages[..|pages| - 1];
    assert forall k | 0 <= k < |init| :: pages[k] == init[k];
    if cover.Some? {
      var k :| 0 <= k < |init| && cover == coverOf(init[k]) && forall i | 0 <= i < k :: coverOf(init[i]).None?;
      assert cover == coverOf(pages[k]);
    }
  }


  /** Every call of the handler offers the page's candidate exactly while a cover is wanted. */
  ghost predicate OffersCover(handle: Handler, coverOf: Page -> Option<Cover>)
  {
    forall p, n, c :: handle(p, n, c).offer == (if c then coverOf(p) else None)
  }

  /** The cover is the candidate of the first page that has one. */
  lemma {:induction false} FoldCover(pages: seq<Page>, handle: Handler, coverOf: Page -> Option<Cover>)
    requires OffersCover(handle, coverOf)
    ensures FirstCandidate(Fold(pages, handle).cover, pages, coverOf)
  {
    if pages != [] {
      var m := |pages| - 1;
      var init := pages[..m];
      FoldCover(init, handle, coverOf);
      FoldCoverStep(pages, handle, coverOf);
      FirstCandidateSnoc(Fold(init, handle).cover, pages, coverOf);
    }
  }

  /** One more file: a cover already found stays, otherwise the file's candidate is taken. */
  lemma FoldCoverStep(pages: seq<Page>, handle: Handler, coverOf: Page -> Option<Cover>)
    requires pages != [] && OffersCover(handle, coverOf)
    ensures var c := Fold(pages[..|pages| - 1], handle).cover;
      Fold(pages, handle).cover == (if c.Some? then c else coverOf(pages[|pages| - 1]))
  {
    var st := Fold(pages[..|pages| - 1], handle);
    var h := handle(pages[|pages| - 1], st.fileIdx + 1, st.cover.None?);
    assert Fold(pages, handle) == Advance(st, h);
    assert Advance(st, h).cover == (if st.cover.Some? then st.cover else h.offer);
  }

  lemma HandlerOffersCover(env: Env)
    ensures OffersCover(HandlerOf(env), PageCoverOf(env))
  {
    forall p, n, c
      ensures HandlerOf(env)(p, n, c).offer == (if c then PageCoverOf(env)(p) else None)
    {
      assert HandlerOf(env)(p, n, c) == Handle(p, n, c, env);
    }
  }

  /**
   * As written, the cover is looked for after the images were embedded: a
   * page whose first image is embedded offers no cover.
   */
  lemma AsWrittenNoCover(page: Page, idx: nat, env: Env)
    requires var imgs := Imgs(Sanitizer.CleanSpec(page.doc, env.pats)); imgs != [] && Decide(imgs[0], env.net).Some?
    ensures HandleAsWritten(page, idx, true, env).offer.None?
  {
    EmbeddedFirstImageNoCover(Sanitizer.CleanSpec(page.doc, env.pats), ImagePrefix(idx), env.net);
  }

  /** Looked for before the images are rewritten, the same page offers its first image as the cover. */
  lemma HandleOffersFirstImage(page: Page, idx: nat, env: Env)
    requires var imgs := Imgs(Sanitizer.CleanSpec(page.doc, env.pats));
      && imgs != [] && Decide(imgs[0], env.net).Some?
      && (GetAttr(imgs[0], "src").Some? ==> !StartsWith(GetAttr(imgs[0], "src").value, "//"))
    ensures Handle(page, idx, true, env).offer.Some?
    ensures Handle(page, idx, true, env).offer.value.content == Decide(Imgs(Sanitizer.CleanSpec(page.doc, env.pats))[0], env.net).value.content
  {
    CoverFromFirstImage(Sanitizer.CleanSpec(page.doc, env.pats), env.net);
  }
}
