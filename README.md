# bookbuilder core, verified

This project models the decision logic of `tools/bookbuilder/bookbuilder.py`, which turns a directory
of saved reader pages into an EPUB and a flattened HTML document for PDF rendering. It proves
properties of that model in Dafny. The parsed page is a tree of `Node`s: text nodes and elements with
an identity, a tag, attributes and children. Regular expressions over text are predicates. The network
and the base64 codec are function parameters.

Modules, in dependency order:

- `Basics` (basics.dfy): Python string built-ins the source relies on. These are `strip`, `split`,
  `lower`, `replace`, `int()`, `str(n)`, `{n:03}` and `html.escape`, with its inverse for the round trip.
- `Dom` (dom.dfy): the tree, attribute lookup and update, `find`, `get_text`, the top-down prune that
  models a snapshot loop of `decompose` calls, removal at a path, and serialization.
- `SortKey` (sortkey.dfy): `human_sort_key`.
- `Sanitizer` (sanitizer.dfy): the passes of `clean_html_keep_structure`. The state-dependent ones
  (main-root scan, noise pass, parent walk) are methods with loops proved against specification
  functions.
- `Assets` (assets.dfy): `download_image`, `embed_images_and_rewrite` and
  `pick_cover_from_first_image`. The embedding loop is a method with its counter, proved against the plan
  it computes.
- `Gate` (gate.dfy): title choice, the skip predicates, the plain-text reshaping and the XHTML
  validity test of the main loop.
- `Book` (book.dfy): the main loop of `build_book`, with file and chapter numbering, the cover slot and
  the image registry.
- `FlatPdf` (flatpdf.dfy): composition of the PDF document, `_norm`, the inlining, blanking,
  `srcset`, neutralising and `<link>` passes, and the style injection. The passes work on a token
  sequence: text, attribute references, CSS `url(…)`, `srcset` attributes and `<link>` tags.

Where the code and the design description of the tool differ, the model follows the code:

- The forced-keep rule (plain text of at least 200 characters) overrides every reject condition,
  including the chrome-title one.
- The cover is looked for on every file until one is found, not only on the first chapter.

## Model

| member | source | states |
|---|---|---|
| SortKey.Runs | tools/bookbuilder/bookbuilder.py:104 | `re.split(r"(\d+)", name)`: the pieces concatenate back to the name and alternate between digit-free text and maximal digit runs, starting and ending with a text piece |
| SortKey.Key | tools/bookbuilder/bookbuilder.py:100-104 | the key has one part per piece of `re.split`: each even position is its text run lower-cased, each odd position the integer value of its digit run |
| SortKey.KeyOfRuns | tools/bookbuilder/bookbuilder.py:102-104 | `atoi` on each piece keeps the length, turns each even piece into itself lower-cased and each odd piece into its numeric value |
| SortKey.KeysComparable | tools/bookbuilder/bookbuilder.py:100-104 | at any shared position two keys hold the same kind of part, so comparison never mixes text and integers |
| SortKey.RunsOfNumbered | tools/bookbuilder/bookbuilder.py:104 | a digit-free prefix, a digit run and a rest that does not start with a digit split as `[prefix, digits] + split(rest)` |
| SortKey.KeyOfNumbered | tools/bookbuilder/bookbuilder.py:102-104 | the first two key parts of such a name are its lower-cased prefix and its number |
| SortKey.NumericOrder | tools/bookbuilder/bookbuilder.py:100-104 | names that differ only in the number at the same place sort by that number |
| Basics.Strip | tools/bookbuilder/bookbuilder.py:169 | `str.strip()`: no whitespace at either end, empty exactly when the text is blank |
| Basics.StripSlice | tools/bookbuilder/bookbuilder.py:169 | the stripped text is a contiguous slice of the input with only whitespace cut off on each side |
| Basics.StripKeepsChar | tools/bookbuilder/bookbuilder.py:176 | a non-space character occurs in the stripped text exactly when it occurs in the text |
| Basics.HasWordStrip | tools/bookbuilder/bookbuilder.py:732 | stripping neither adds nor removes a word character |
| Basics.Words | tools/bookbuilder/bookbuilder.py:214 | `str.split()` of the empty text is empty |
| Basics.WordsSolid | tools/bookbuilder/bookbuilder.py:214 | every piece `str.split()` returns is non-empty and has no whitespace |
| Basics.WordsText | tools/bookbuilder/bookbuilder.py:214 | the words, concatenated, are exactly the non-space characters of the text, in order |
| Basics.SplitJoin | tools/bookbuilder/bookbuilder.py:214 | words joined by single spaces split back into the same words |
| Basics.WordsAfterSpace | tools/bookbuilder/bookbuilder.py:214 | a leading space does not change the split |
| Basics.PyInt | tools/bookbuilder/bookbuilder.py:517-520 | `int(s)` succeeds only when the stripped text contains an underscore-separated run of digits |
| Basics.PyIntReads | tools/bookbuilder/bookbuilder.py:517-520 | `int()` of a digit run with an optional sign and whitespace around it is the signed value of the digits |
| Basics.NatToString | tools/bookbuilder/bookbuilder.py:543 | `str(n)` is a non-empty run of digits whose value is `n` |
| Basics.NatToStringInjective | tools/bookbuilder/bookbuilder.py:699 | different numbers print differently |
| Basics.Pad3 | tools/bookbuilder/bookbuilder.py:771 | `{n:03}` is at least three digits and reads back as `n` |
| Basics.Escape | tools/bookbuilder/bookbuilder.py:768 | `html.escape` leaves no raw `<`, `>`, `"` or `'` and never shortens the text |
| Basics.EscapeRoundTrip | tools/bookbuilder/bookbuilder.py:768 | unescaping the five entities `html.escape` writes gives the original text back |
| Basics.UnescapeEscapedChar | tools/bookbuilder/bookbuilder.py:768 | each escaped character is read back as itself in front of any text |
| Basics.ReplaceAll | tools/bookbuilder/bookbuilder.py:1001 | `str.replace` leaves a text that lacks the pattern unchanged |
| Basics.ReplaceAllAt | tools/bookbuilder/bookbuilder.py:1001 | at an occurrence of the pattern the replacement is written and the scan resumes after the pattern |
| Basics.ReplaceAllPrefix | tools/bookbuilder/bookbuilder.py:1001 | a prefix in which no occurrence of the pattern starts is copied unchanged |
| Basics.ReplaceAllOnce | tools/bookbuilder/bookbuilder.py:1001 | when the first occurrence follows `a` and `b` holds none, `a + pat + b` becomes `a + rep + b` |
| Basics.JoinNonSpace | tools/bookbuilder/bookbuilder.py:736 | joining with a whitespace separator keeps exactly the non-space characters of the pieces, in order |
| Dom.GetAttr | tools/bookbuilder/bookbuilder.py:510 | `tag.get(name)` is None exactly when no attribute has that name, else the value of one that has it |
| Dom.SetAttr | tools/bookbuilder/bookbuilder.py:546 | `tag[name] = value`: the attribute reads back as `value` and every other attribute reads as before |
| Dom.Find | tools/bookbuilder/bookbuilder.py:470 | `find(tag)` yields an element of that name, and None exactly when the tree holds no such element |
| Dom.FindIsFirst | tools/bookbuilder/bookbuilder.py:470 | `find(tag)` returns the element at the first path, in document order, that holds that tag |
| Dom.FirstElemIsFirst | tools/bookbuilder/bookbuilder.py:470 | no element that satisfies the test comes before the one found, in document order |
| Dom.Visible | tools/bookbuilder/bookbuilder.py:169 | `get_text(strip=True)` keeps only non-empty stripped strings |
| Dom.VisibleOne | tools/bookbuilder/bookbuilder.py:169 | one string contributes itself stripped, and nothing when it is blank |
| Dom.VisibleText | tools/bookbuilder/bookbuilder.py:736 | the visible strings keep exactly the non-space characters of the text, in order |
| Dom.BlankText | tools/bookbuilder/bookbuilder.py:471 | the element text is blank exactly when `get_text` joins nothing |
| Dom.PruneVisible | tools/bookbuilder/bookbuilder.py:150 | decomposing only subtrees without visible text keeps the visible text |
| Dom.PruneCount | tools/bookbuilder/bookbuilder.py:150 | decomposing only subtrees without a `tag` element keeps the number of `tag` elements |
| Dom.PruneHasId | tools/bookbuilder/bookbuilder.py:150 | decomposing never creates an element |
| Dom.PruneKeepsId | tools/bookbuilder/bookbuilder.py:184-186 | an element that no decomposed subtree contains survives |
| Dom.PruneDropped | tools/bookbuilder/bookbuilder.py:150 | an element that disappears lies inside a subtree the rule decomposed |
| Dom.RemoveAtMeasures | tools/bookbuilder/bookbuilder.py:315 | decomposing one node removes its size and its `tag` elements and nothing else |
| Dom.RemoveAtKeepsId | tools/bookbuilder/bookbuilder.py:313-315 | decomposing a node that does not contain element `x` keeps `x` |
| Dom.SerializeMarkup | tools/bookbuilder/bookbuilder.py:726 | the written forest contains `<` exactly when it contains an element |
| Dom.SerializeSpace | tools/bookbuilder/bookbuilder.py:726 | the written forest is blank exactly when it holds blank text nodes only |
| Dom.SerializeWord | tools/bookbuilder/bookbuilder.py:732 | when every tag name is a word, `\w` matches the written forest exactly when some node is an element or shows a word |
| Sanitizer.DropScriptsClean | tools/bookbuilder/bookbuilder.py:148-160 | no `script`, `noscript`, `iframe`, `embed`, `object`, `style` or non-stylesheet `link` is left |
| Sanitizer.Candidates | tools/bookbuilder/bookbuilder.py:165 | every candidate is an `article`, `main`, `div` or `section` element |
| Sanitizer.CandidatesComplete | tools/bookbuilder/bookbuilder.py:165 | every `article`, `main`, `div` or `section` element of the page is a candidate |
| Sanitizer.CandidatesAppend | tools/bookbuilder/bookbuilder.py:165 | candidates are listed in document order: those of a forest are those of its first part, then those of the rest |
| Sanitizer.CandidatesNode | tools/bookbuilder/bookbuilder.py:165 | an element is listed before the candidates below it |
| Sanitizer.Best | tools/bookbuilder/bookbuilder.py:166-173 | the strict `score > best_score` scan yields a position exactly when there are candidates |
| Sanitizer.BestIsFirstMax | tools/bookbuilder/bookbuilder.py:166-173 | the scan picks the first position of highest score: no score beats it and every earlier score is lower |
| Sanitizer.FirstMaxUnique | tools/bookbuilder/bookbuilder.py:166-173 | the first maximum is unique |
| Sanitizer.MainRootIsFirstMax | tools/bookbuilder/bookbuilder.py:162-179 | the main root exists exactly when the first highest-scoring candidate has at least 3 `<p>` or 800 characters, and it is that candidate |
| Sanitizer.FindMainRoot | tools/bookbuilder/bookbuilder.py:162-179 | the `best_score`/`main_root` loop computes the main root |
| Sanitizer.MainRoot | tools/bookbuilder/bookbuilder.py:162-179 | a main root is a candidate with at least 3 `<p>` or 800 characters of text |
| Sanitizer.DropStructuralSparesMain | tools/bookbuilder/bookbuilder.py:181-186 | the main root survives and every header/footer/nav/aside/form/button/svg left is the main root or contains it |
| Sanitizer.DropReaderChromeKeeps | tools/bookbuilder/bookbuilder.py:209-238 | the keyword pass removes no image and keeps the main root |
| Sanitizer.ReaderChromeDrops | tools/bookbuilder/bookbuilder.py:220-234 | a container the keyword pass drops holds no image and neither is nor contains the main root |
| Sanitizer.DropEmpty | tools/bookbuilder/bookbuilder.py:239-242 | removing empty `div`/`p`/`span` keeps the visible text and the numbers of images and tables |
| Sanitizer.DropEmptyClean | tools/bookbuilder/bookbuilder.py:239-242 | afterwards every `div`, `p` and `span` has visible text or an `img` or `table` below it |
| Sanitizer.StripTitleTextKeepsElements | tools/bookbuilder/bookbuilder.py:247-253 | removing the title line from text nodes changes no element: counts, identities and size stay |
| Sanitizer.FirstText | tools/bookbuilder/bookbuilder.py:277 | a text node the pattern finds, None exactly when no text node matches |
| Sanitizer.FirstTextIsFirst | tools/bookbuilder/bookbuilder.py:277 | no matching text node comes before the one found, in document order |
| Sanitizer.NearestBlock | tools/bookbuilder/bookbuilder.py:281-290 | the walk up the parents stops at the nearest section/div/nav/header/footer/aside ancestor: the one it returns is such a block and none nearer is; 0 when there is none |
| Sanitizer.BlockDepth | tools/bookbuilder/bookbuilder.py:279-300 | the block is a proper ancestor: the parent when it is a display-block span, else the nearest block ancestor, else the parent when no ancestor is a block |
| Sanitizer.FindBlock | tools/bookbuilder/bookbuilder.py:279-300 | the parent walk computes that block |
| Sanitizer.NoiseStepKeeps | tools/bookbuilder/bookbuilder.py:301-322 | handling one noise text shrinks the page, keeps the main root and every image |
| Sanitizer.NoiseSpec | tools/bookbuilder/bookbuilder.py:277-322 | after the noise pass no text node matches the noise pattern |
| Sanitizer.NoiseSpecClean | tools/bookbuilder/bookbuilder.py:277-322 | after the noise pass no text matches the noise pattern, the main root is still there and no image was lost |
| Sanitizer.NoisePass | tools/bookbuilder/bookbuilder.py:277-322 | the loop over the noise hits computes the noise pass |
| Sanitizer.OverlaysKeep | tools/bookbuilder/bookbuilder.py:324-343 | the overlay pass never removes an image and, when it runs to the end, leaves no positioned non-image overlay in an image container |
| Sanitizer.Overlays | tools/bookbuilder/bookbuilder.py:324-343 | the overlay pass keeps the number of images |
| Sanitizer.OverlaysNode | tools/bookbuilder/bookbuilder.py:324-343 | so does the pass over one element and what is below it |
| Sanitizer.DropUtilityListsKeepsMain | tools/bookbuilder/bookbuilder.py:345-360 | the utility-list pass keeps the main root |
| Sanitizer.DropUtilityListsRemoves | tools/bookbuilder/bookbuilder.py:345-360 | an element the pass removes lies in a `ul`/`ol` the utility test selects |
| Sanitizer.TitleScan | tools/bookbuilder/bookbuilder.py:362-384 | the bounded descendant walk changes nothing unless it stopped after a removal |
| Sanitizer.TitleScanAtMostOne | tools/bookbuilder/bookbuilder.py:362-384 | the walk removes at most one element, and only a short image-free title fragment |
| Sanitizer.Reject | tools/bookbuilder/bookbuilder.py:390-404 | the kept nodes are exactly those the rule keeps, in order |
| Sanitizer.RejectAppend | tools/bookbuilder/bookbuilder.py:390-404 | the rule judges each node on its own: rejecting over two parts is rejecting each part |
| Sanitizer.TrimTopBlocks | tools/bookbuilder/bookbuilder.py:386-414 | only the first ten children are judged: of them exactly those that are not top chrome stay, in order, and the rest is untouched |
| Sanitizer.FirstHeadingLike | tools/bookbuilder/bookbuilder.py:419-423 | the first `h1`/`h2`/`div`/`p` child, or None when there is none |
| Sanitizer.DropLeadingTitle | tools/bookbuilder/bookbuilder.py:416-432 | either the first `h1`/`h2`/`div`/`p` child is a short title heading and exactly it is removed, or nothing changes and it is not one |
| Sanitizer.FirstIntro | tools/bookbuilder/bookbuilder.py:437-448 | the first child among the first eight that the test accepts |
| Sanitizer.DropIntroHeading | tools/bookbuilder/bookbuilder.py:434-450 | nothing changes exactly when none of the first eight children is an introduction heading; otherwise exactly the first one goes |
| Sanitizer.KeepAttrs | tools/bookbuilder/bookbuilder.py:453-463 | exactly the attributes not starting with `data-` or `on` stay |
| Sanitizer.StripTrackerAttrsClean | tools/bookbuilder/bookbuilder.py:452-463 | no element keeps a tracker attribute; the text and the elements are as before |
| Sanitizer.Clean | tools/bookbuilder/bookbuilder.py:128-465 | the passes in order give the cleaned page, which has no tracker attribute |
| Sanitizer.CleanSpec | tools/bookbuilder/bookbuilder.py:128-465 | the cleaned page carries no `data-*` or `on*` attribute |
| Assets.SplitOnce | tools/bookbuilder/bookbuilder.py:527 | `s.split(c, 1)` gives two pieces exactly when `c` occurs, split at its first occurrence |
| Assets.DataMime | tools/bookbuilder/bookbuilder.py:528 | the mime type of a data URI header holds no `;` and no `:`, None where the lookup raises |
| Assets.DataMimeOfDataUri | tools/bookbuilder/bookbuilder.py:528 | for a `data:` header the lookup never fails and gives what follows `data:` up to the first `;` or `:` |
| Assets.MimeExt | tools/bookbuilder/bookbuilder.py:531-542 | the extension of an inline image is one of `.jpg .png .gif .webp .svg .bin`, so a dot and letters |
| Assets.ContentTypeExt | tools/bookbuilder/bookbuilder.py:485-495 | a recognised Content-Type gives one of `.jpg .png .gif .webp .svg`, so a dot and letters |
| Assets.LastIndex | tools/bookbuilder/bookbuilder.py:498 | the position of the last occurrence of a character, None exactly when it does not occur |
| Assets.Suffix | tools/bookbuilder/bookbuilder.py:498 | `Path(url).suffix` is empty or a dot followed by no further dot |
| Assets.UrlExt | tools/bookbuilder/bookbuilder.py:498-499 | the URL fallback is an image suffix in any case, else `.bin`; either way a dot and letters |
| Assets.ImageSuffixPlain | tools/bookbuilder/bookbuilder.py:498-499 | a suffix kept because it lower-cases to an image suffix is a dot followed by ASCII letters |
| Assets.DownloadExt | tools/bookbuilder/bookbuilder.py:484-499 | the reported extension is always a dot followed by ASCII letters |
| Assets.Download | tools/bookbuilder/bookbuilder.py:480-502 | `download_image` succeeds exactly when the URL is fetchable and the oracle answers, and the extension is a dot followed by letters |
| Assets.MediaType | tools/bookbuilder/bookbuilder.py:561-568 | the media type is an `image/` type exactly when the lower-cased extension is in the table, else `application/octet-stream` |
| Assets.CoverMediaType | tools/bookbuilder/bookbuilder.py:599-605 | the cover's media type is always an `image/` type: the same table without svg, defaulting to `image/jpeg` |
| Assets.ExtensionTablesAgree | tools/bookbuilder/bookbuilder.py:485-495 | for the five standard image types, the data-URI table and the Content-Type table give an extension whose media type is that type again |
| Assets.TrackingPixelIff | tools/bookbuilder/bookbuilder.py:514-522 | an image is skipped as a tracking pixel exactly when a size reads as an integer at most 1 and no earlier size check raised |
| Assets.PercentWidthHidesHeight | tools/bookbuilder/bookbuilder.py:516-522 | with `width="100%"` the raise hides a one-pixel height |
| Assets.FetchImage | tools/bookbuilder/bookbuilder.py:553-559 | a fetched image has a dot-and-letters extension, retrying `https:` for `//` URLs |
| Assets.DataImage | tools/bookbuilder/bookbuilder.py:524-550 | an inline image decodes to content with a dot-and-letters extension |
| Assets.Decide | tools/bookbuilder/bookbuilder.py:509-574 | what one loop iteration makes of an image; any embedded one has a dot-and-letters extension |
| Assets.DecideSkips | tools/bookbuilder/bookbuilder.py:509-522 | an image is embedded only with a non-empty `src`, not as a tracking pixel, and a downloaded one with the media type of its extension |
| Assets.SetSrcs | tools/bookbuilder/bookbuilder.py:546 | each image's attributes receive their new source |
| Assets.RetagEffect | tools/bookbuilder/bookbuilder.py:546 | rewriting sources changes the images exactly as asked: text, identities and element counts stay |
| Assets.Decisions | tools/bookbuilder/bookbuilder.py:509 | one decision per image, in order |
| Assets.Plan | tools/bookbuilder/bookbuilder.py:507-574 | one outcome per image |
| Assets.EmbedPlan | tools/bookbuilder/bookbuilder.py:505-576 | one outcome per image of the page |
| Assets.NewSrcs | tools/bookbuilder/bookbuilder.py:546 | an embedded image's new source is its asset's file name, other images get none |
| Assets.PlanAppend | tools/bookbuilder/bookbuilder.py:507-574 | planning in two halves: the second half numbers from where the first stopped |
| Assets.PlanNumbering | tools/bookbuilder/bookbuilder.py:543-548 | the `j`-th embedded image is `images/{prefix}{n + j}{ext}` with a dot-and-letters extension, and exactly the images with a decision are embedded |
| Assets.EmbedNumbering | tools/bookbuilder/bookbuilder.py:505-576 | within one page the embedded images are numbered 1, 2, ... in order and are exactly those `Decide` accepts |
| Assets.PlanStep | tools/bookbuilder/bookbuilder.py:543-548 | one more image adds at most one asset, named after the count so far, and the counter moves only on success |
| Assets.PlanImages | tools/bookbuilder/bookbuilder.py:507-574 | the loop with its counter yields the planned sources and assets |
| Assets.EmbedImages | tools/bookbuilder/bookbuilder.py:505-576 | `embed_images_and_rewrite` adds the planned assets and rewrites exactly the embedded images' sources |
| Assets.PickCover | tools/bookbuilder/bookbuilder.py:579-613 | a cover comes from the first image, which has a `src` |
| Assets.LocalNameNotFetched | tools/bookbuilder/bookbuilder.py:480-502 | a local asset name is neither inline data nor a URL the download fetches |
| Assets.SchemelessNotFetchable | tools/bookbuilder/bookbuilder.py:480-502 | a URL whose first character is neither whitespace nor `h`/`H` is never fetched |
| Assets.AssetNamePlain | tools/bookbuilder/bookbuilder.py:543-545 | `images/{prefix}{counter}{ext}` with a prefix in letters, digits, `_`, `.`, `/` and a dot-and-letters extension is written in those characters only |
| Assets.EmbeddedFirstImageNoCover | tools/bookbuilder/bookbuilder.py:579-598 | looking for the cover after embedding: an embedded first image never yields one |
| Assets.CoverFromFirstImage | tools/bookbuilder/bookbuilder.py:579-613 | looking before the rewrite: a first image that would be embedded yields the cover with the same content |
| Gate.FirstText | tools/bookbuilder/bookbuilder.py:709 | the first element's text is empty exactly when there is none or it is blank |
| Gate.ExtractTitle | tools/bookbuilder/bookbuilder.py:468-477 | `extract_title` gives the `<h1>` text, else the `<title>` text, else the fallback, and is empty only if the fallback is |
| Gate.TitleChoice | tools/bookbuilder/bookbuilder.py:707-713 | the heading goes into the PDF exactly when the first `<h1>` has visible text; the chapter title always equals `extract_title` |
| Gate.InnerEmpty | tools/bookbuilder/bookbuilder.py:726-728 | `inner` is empty exactly when the page's content is blank text |
| Gate.InnerMarkup | tools/bookbuilder/bookbuilder.py:726 | `inner` contains `<` exactly when the content has a top-level element |
| Gate.Measure | tools/bookbuilder/bookbuilder.py:733-738 | the plain text holds the content's non-space characters in order; the paragraph count is zero exactly when there is no `<p>` and no leading text that the re-parse wraps in an implied `<p>`; `has_img` holds exactly when there is an `<img>` |
| Gate.VisibleIsWord | tools/bookbuilder/bookbuilder.py:732 | `has_visible` holds exactly when `inner` has a word character; the tag pattern adds nothing |
| Gate.UntitledNotChrome | tools/bookbuilder/bookbuilder.py:753-756 | a page without `<title>` never looks like chrome by its title |
| Gate.Skip | tools/bookbuilder/bookbuilder.py:743-760 | a skipped page has fewer than 200 characters of plain text and no image |
| Gate.Assess | tools/bookbuilder/bookbuilder.py:743-803 | a skipped page has fewer than 200 characters of plain text and no image; a page with an image is kept and passes the validity test |
| Gate.ReshapeCondition | tools/bookbuilder/bookbuilder.py:763 | reshaping happens exactly when there is no `<p>`, no leading text that the re-parse wraps in an implied `<p>`, and no block tag |
| Gate.RunEnd | tools/bookbuilder/bookbuilder.py:765 | the end of a maximal whitespace run |
| Gate.NextBreak | tools/bookbuilder/bookbuilder.py:765 | the next blank-line separator is a whitespace run inside the text |
| Gate.Pieces | tools/bookbuilder/bookbuilder.py:765 | `re.split` yields at least one piece |
| Gate.Stripped | tools/bookbuilder/bookbuilder.py:765 | every kept piece is non-empty and stripped |
| Gate.PiecesText | tools/bookbuilder/bookbuilder.py:765 | splitting loses no non-space text |
| Gate.StrippedText | tools/bookbuilder/bookbuilder.py:765 | stripping and dropping blank pieces loses no non-space text |
| Gate.Paragraphs | tools/bookbuilder/bookbuilder.py:765-767 | the paragraphs are stripped and non-empty, hold the plain text's non-space characters in order, and are none exactly when the text is blank |
| Gate.ParagraphsOf | tools/bookbuilder/bookbuilder.py:765-767 | the fallback to the whole stripped text is never taken: the paragraphs are the stripped non-blank pieces |
| Gate.ReshapeWritesTree | tools/bookbuilder/bookbuilder.py:768 | without quote characters, writing the reshaped forest out gives the reshaped markup |
| Gate.ReshapeTreeText | tools/bookbuilder/bookbuilder.py:762-768 | the reshaped body shows exactly the paragraphs, in order |
| Gate.ReshapeTreeCount | tools/bookbuilder/bookbuilder.py:762-768 | the reshaped body has one `<p>` per paragraph |
| Gate.ReshapedValid | tools/bookbuilder/bookbuilder.py:788-803 | a reshaped body passes the validity test exactly when it has a paragraph |
| Gate.Valid | tools/bookbuilder/bookbuilder.py:788-803 | a body holding a `p`, `img`, `h1`-`h3`, `ul`, `ol`, `li`, `a`, `blockquote` or `table` element at any depth passes the validity test |
| Gate.ImageSeen | tools/bookbuilder/bookbuilder.py:732-763 | an image makes `inner` markup, visible, a block and valid |
| Gate.ImagePageKept | tools/bookbuilder/bookbuilder.py:743-760 | a page with an image is never skipped |
| Gate.ImagePageValid | tools/bookbuilder/bookbuilder.py:762-803 | a page with an image is not reshaped and passes the validity test |
| Gate.ReshapedPage | tools/bookbuilder/bookbuilder.py:762-803 | a reshaped page is a valid chapter exactly when its plain text is not blank, and shows exactly the paragraphs |
| Gate.GatePasses | tools/bookbuilder/bookbuilder.py:743-763 | markup, a visible tag, a block tag and no junk, short or chrome reason let a page through unreshaped |
| Gate.HeadingPageRejected | tools/bookbuilder/bookbuilder.py:743-803 | a page holding only a short `h4` passes the gate but fails the validity test |
| Gate.HeadingPageInvalid | tools/bookbuilder/bookbuilder.py:795-797 | `h4` is not an element of interest to the validity test |
| Book.HandlePage | tools/bookbuilder/bookbuilder.py:693-768 | the loop body for one file, with the cover looked for before the rewrite (the corrected order): cleaned, cover looked for, images embedded, assessed |
| Book.ProcessFile | tools/bookbuilder/bookbuilder.py:692-813 | one iteration advances the loop state by the file's result, numbering a chapter only when it enters the book (corrected) |
| Book.RunPages | tools/bookbuilder/bookbuilder.py:692-813 | the corrected loop over the files computes the fold of the per-file steps |
| Book.BuildBook | tools/bookbuilder/bookbuilder.py:652-817 | `build_book` with the corrected loop ends with no files, with no chapters, or with the book the loop built |
| Book.Handle | tools/bookbuilder/bookbuilder.py:693-768 | corrected handler: a file offers its page's cover candidate exactly while no cover is set, and names its images after its file number |
| Book.HandleAsWritten | tools/bookbuilder/bookbuilder.py:693-768 | as written: a file offers no cover once one is set, and names its images after its file number |
| Book.Advance | tools/bookbuilder/bookbuilder.py:770-813 | corrected step: one more file, its images appended, a set cover kept, the chapters extended by one exactly when the page is kept and valid, under the next number; numbers taken equal chapters stored |
| Book.AdvanceAsWritten | tools/bookbuilder/bookbuilder.py:770-813 | as written: the same, except that a kept page failing the validity test still takes a number |
| Book.Fold | tools/bookbuilder/bookbuilder.py:692-813 | corrected loop: the file number counts the files and the chapter number equals the number of chapters |
| Book.FoldAsWritten | tools/bookbuilder/bookbuilder.py:692-813 | as written: the chapter number is at least the number of chapters and at most the number of files |
| Book.Run | tools/bookbuilder/bookbuilder.py:692-813 | corrected run: chapters stored as `ch_001`, `ch_002`, ... in order with distinct files; images with distinct names, none the cover's; the cover from the first page that yields one |
| Book.RunAsWritten | tools/bookbuilder/bookbuilder.py:692-813 | as written: chapter files with increasing numbers up to the last number taken, hence distinct; images with distinct names, none the cover's |
| Book.Build | tools/bookbuilder/bookbuilder.py:652-817 | no files exactly when the input is empty; a built book has a chapter, images with distinct names and chapters numbered 1, 2, ... |
| Book.ImagePrefix | tools/bookbuilder/bookbuilder.py:699 | `img_{file_idx}_` is `img_`, the decimal digits of the file number and `_` |
| Book.ChapterFile | tools/bookbuilder/bookbuilder.py:771 | the chapter number reads back from the file name, so different numbers give different files |
| Book.FoldSnoc | tools/bookbuilder/bookbuilder.py:692-813 | one more file folds in as one more step |
| Book.FoldShape | tools/bookbuilder/bookbuilder.py:693-813 | the file number counts the files, and the chapters are numbered 1, 2, ... in order with no gap |
| Book.FoldChapterFiles | tools/bookbuilder/bookbuilder.py:771 | chapter files are pairwise distinct |
| Book.AsWrittenGap | tools/bookbuilder/bookbuilder.py:770-803 | as written, a kept page that fails validity uses up a chapter number, leaving a gap |
| Book.FoldAsWrittenShape | tools/bookbuilder/bookbuilder.py:770-803 | as written, the chapter files carry strictly increasing numbers between 1 and the last number taken |
| Book.FoldAsWrittenChapterFiles | tools/bookbuilder/bookbuilder.py:771 | as written, the chapter files are still pairwise distinct |
| Book.HeadingVerdict | tools/bookbuilder/bookbuilder.py:743-803 | such pages exist: an `h4`-only page is kept by the gate and then found invalid |
| Book.SameFileNames | tools/bookbuilder/bookbuilder.py:543 | within one file, different image numbers give different names |
| Book.EmbeddedWellNamed | tools/bookbuilder/bookbuilder.py:699 | a page handled as file `idx` adds images under that file's prefix, numbered from 1 |
| Book.AddedNames | tools/bookbuilder/bookbuilder.py:699 | the images of one file have distinct names, all carrying its number |
| Book.AppendFile | tools/bookbuilder/bookbuilder.py:693-699 | the images of one more file clash neither with earlier ones nor with each other |
| Book.FoldAssets | tools/bookbuilder/bookbuilder.py:693-699 | every asset carries the number of its file and no two share a name |
| Book.ImagePrefixPlain | tools/bookbuilder/bookbuilder.py:699 | the prefix `img_{n}_` is written in letters, digits and `_` |
| Book.AddedPlain | tools/bookbuilder/bookbuilder.py:693-699 | the images one file adds are stored under plain `images/` names, so the names stay plain |
| Book.FoldPlainNames | tools/bookbuilder/bookbuilder.py:693-699 | every image the loop stores is under `images/` with a name in letters, digits, `_`, `.` and `/` |
| Book.FoldAsWrittenAssets | tools/bookbuilder/bookbuilder.py:693-699 | as written too, every image carries the number of its file and no two share a name |
| Book.FoldCover | tools/bookbuilder/bookbuilder.py:716-718 | the cover is the candidate of the first page that has one |
| Book.FoldCoverStep | tools/bookbuilder/bookbuilder.py:716-718 | after one more file a cover already set stays, otherwise the file's candidate is taken |
| Book.AsWrittenNoCover | tools/bookbuilder/bookbuilder.py:699-717 | as written, a page whose first image is embedded offers no cover |
| Book.HandleOffersFirstImage | tools/bookbuilder/bookbuilder.py:716-717 | looked for before the rewrite, the same page offers its first image's content |
| FlatPdf.ComposeHtml | tools/bookbuilder/bookbuilder.py:844-866 | the `parts` loop with the `first` flag builds the PDF document |
| FlatPdf.ChapterPartsCons | tools/bookbuilder/bookbuilder.py:857-864 | the first chapter has no page break before it, and one break separates it from the rest |
| FlatPdf.JoinContains | tools/bookbuilder/bookbuilder.py:866 | every part occurs in the joined text |
| FlatPdf.PdfHtml | tools/bookbuilder/bookbuilder.py:844-866 | the composed document always closes its head and contains the body of every chapter |
| FlatPdf.InjectStyle | tools/bookbuilder/bookbuilder.py:1000-1003 | without `</head>` the style block goes in front of the whole text |
| FlatPdf.InjectInHead | tools/bookbuilder/bookbuilder.py:1000-1001 | with a `</head>` the style block lands just before it |
| FlatPdf.PdfStyleInHead | tools/bookbuilder/bookbuilder.py:1000-1003 | so in the composed document the style block always lands in the head |
| FlatPdf.DropPrefixes | tools/bookbuilder/bookbuilder.py:882-885 | repeated prefix removal leaves a suffix that no longer starts with the prefix |
| FlatPdf.DropLeading | tools/bookbuilder/bookbuilder.py:887 | `lstrip('/')` leaves a suffix that does not start with `/` |
| FlatPdf.Bare | tools/bookbuilder/bookbuilder.py:880 | the reference without fragment and query has neither `#` nor `?` |
| FlatPdf.UnderImages | tools/bookbuilder/bookbuilder.py:889 | the key starts with `images/` |
| FlatPdf.NormPath | tools/bookbuilder/bookbuilder.py:877-889 | every key starts with `images/` and has neither `#` nor `?` |
| FlatPdf.CutPrefixes | tools/bookbuilder/bookbuilder.py:882-885 | each `while` loop of `_norm` removes every leading copy of its prefix |
| FlatPdf.Norm | tools/bookbuilder/bookbuilder.py:877-889 | `_norm` with its loops computes the normalised key |
| FlatPdf.NormKeepsImagePath | tools/bookbuilder/bookbuilder.py:877-889 | a local image path comes out of `_norm` as it went in |
| FlatPdf.NormKeepsRelativeImagePath | tools/bookbuilder/bookbuilder.py:877-889 | so does the same path written as `../images/…` |
| FlatPdf.InventoryOf | tools/bookbuilder/bookbuilder.py:870-873 | corrected inventory: keyed by exactly the names of all embedded images |
| FlatPdf.InventoryEntry | tools/bookbuilder/bookbuilder.py:870-873 | with distinct names each image is found under its own name with its own content |
| FlatPdf.InventoryAsWritten | tools/bookbuilder/bookbuilder.py:870-873 | as written: keyed by exactly the names of the images ebooklib types as images, by extension `.jpg .jpeg .gif .png .tif .tiff` in any case |
| FlatPdf.EmbeddedExtensionTyped | tools/bookbuilder/bookbuilder.py:870-873 | of the extensions the embedding writes, exactly `.jpg`, `.png` and `.gif` are typed as images |
| FlatPdf.NonImageAssetNeutralised | tools/bookbuilder/bookbuilder.py:870-937 | as written, a reference to an embedded `.svg`, `.webp` or `.bin` image reaches the renderer as `"#"` |
| FlatPdf.BlankUrl | tools/bookbuilder/bookbuilder.py:918-919 | corrected blanking: every `url()` whose unquoted target is not a data URI is emptied; other tokens stay |
| FlatPdf.BlankUrlAsWritten | tools/bookbuilder/bookbuilder.py:918-919 | as written: every `url()` whose raw argument does not start with `data:` is emptied; other tokens stay |
| FlatPdf.Neutralise | tools/bookbuilder/bookbuilder.py:926-935 | only attribute references change |
| FlatPdf.NeutraliseSafe | tools/bookbuilder/bookbuilder.py:926-935 | whatever the neutralising leaves in an attribute, once stripped, starts (case-insensitively) with `data:`, `#`, `mailto:` or `javascript:` |
| FlatPdf.SafeLead | tools/bookbuilder/bookbuilder.py:926-935 | a safe value is non-empty and its first character is `#` or, lower-cased, `d`, `m` or `j` |
| FlatPdf.SafeNotExternal | tools/bookbuilder/bookbuilder.py:930 | a safe value is neither `http://`, `https://` nor protocol-relative |
| FlatPdf.NeutraliseFixes | tools/bookbuilder/bookbuilder.py:926-935 | a reference is left alone exactly when its value is already safe |
| FlatPdf.NeutraliseIdempotent | tools/bookbuilder/bookbuilder.py:926-937 | neutralising twice is neutralising once |
| FlatPdf.InlineRef | tools/bookbuilder/bookbuilder.py:895-904 | `_attr_repl` leaves a token as it is or gives the same attribute a safe value |
| FlatPdf.InlineUrl | tools/bookbuilder/bookbuilder.py:907-917 | `_url_repl` leaves a token as it is or writes a `url()` that the blanking keeps |
| FlatPdf.DropSrcsets | tools/bookbuilder/bookbuilder.py:921-923 | exactly the quoted `srcset` attributes go, everything else stays, and nothing is added |
| FlatPdf.DropLinks | tools/bookbuilder/bookbuilder.py:940 | exactly the `<link>` tags go, everything else stays, and nothing is added |
| FlatPdf.DropSrcsetsAppend | tools/bookbuilder/bookbuilder.py:921-923 | the `srcset` pass works token by token, keeping order |
| FlatPdf.DropLinksAppend | tools/bookbuilder/bookbuilder.py:940 | the `<link>` pass works token by token, keeping order |
| FlatPdf.Flatten | tools/bookbuilder/bookbuilder.py:895-940 | corrected passes: every token that reaches the renderer is offline: a safe reference, a `url()` that is a data URI or empty, no `srcset`, no `<link>` |
| FlatPdf.FlattenAsWritten | tools/bookbuilder/bookbuilder.py:895-940 | as written: every reference is safe, every `url()` is empty or starts with `data:`, and no `srcset` or `<link>` is left |
| FlatPdf.DataUriSettles | tools/bookbuilder/bookbuilder.py:914-919 | the data URI `_url_repl` writes survives the blanking |
| FlatPdf.DataUriSafe | tools/bookbuilder/bookbuilder.py:901-937 | the data URI `_attr_repl` writes survives the neutralising |
| FlatPdf.FlattenInlinesRef | tools/bookbuilder/bookbuilder.py:895-904 | a reference to an image of the book reaches the renderer as that image's data URI |
| FlatPdf.FlattenInlinesUrl | tools/bookbuilder/bookbuilder.py:909-917 | a CSS `url()` naming an image of the book does too |
| FlatPdf.FlattenEmbedsAsset | tools/bookbuilder/bookbuilder.py:870-904 | an image the book embedded, referenced by its name, is inlined with its own content |
| FlatPdf.PlainNameLocal | tools/bookbuilder/bookbuilder.py:880-891 | `_norm` leaves a plain `images/` name as it is: no quote, whitespace, `#` or `?` to cut |
| FlatPdf.RunAssetsLocal | tools/bookbuilder/bookbuilder.py:543-545 | every image name the book loop writes is a local path, so FlattenEmbedsAsset applies to all of them |
| FlatPdf.LoneUrl | tools/bookbuilder/bookbuilder.py:907-919 | a `url()` naming no image goes through the passes with only the blanking applied |
| FlatPdf.QuotedDataBlankedAsWritten | tools/bookbuilder/bookbuilder.py:919 | as written, `url("data:…")` is emptied |
| FlatPdf.QuotedDataUnquoted | tools/bookbuilder/bookbuilder.py:910 | unquoted, the argument does begin with `data:` |
| FlatPdf.QuotedDataKept | tools/bookbuilder/bookbuilder.py:918-919 | testing the unquoted argument keeps a quoted data URI |


## Left out

- Translation (`_get_google_translator`, `_translate_texts`, `translate_soup_in_place`): an external service with retries; the loop is modelled as if no translator was requested.
- EPUB packaging with ebooklib: `EpubHtml`, `add_item`, TOC, spine, NCX/Nav and `write_epub`. The book is the `State`'s chapters, assets and cover.
- PDF rendering: the pdfkit and wkhtmltopdf call, the options, the debug dump and the leftover-link diagnostics.
- Files and processes: `list_html_files`, file reads, `load_custom_css`, `prompt_metadata`, `parse_args`, `main` and the exit codes. The two early exits are the `Outcome` cases `NoFiles` and `NoChapters`.
- HTML parsing: BeautifulSoup and lxml. Pages come already parsed. Re-parsing serialized markup (`_bs_tmp`, the validity parse) is taken to give the same tree back. Gate.ReshapeWritesTree only proves this for reshaped text without quote characters, since `html.escape` and the serializer write quotes differently.
- The regex substitutions of `title_patterns` on the raw markup before parsing (lines 131-144): raw-text regex rewriting is outside the tree model.
- Regular expressions: `noise_re`, `title_re` and `junk_re` are predicates supplied by the caller. `\w` is taken as ASCII letters, digits and `_`. The `<tag\b` patterns are decided on the element names of the tree, not on the raw text.
- The network and base64: `requests` is a function from URL to an optional response, and base64 decoding and encoding are function parameters. Timeouts and HTTP errors are the `None` case.
- Assets.Download: a URL counts as fetchable only when, after leading whitespace, it starts with `http://` or `https://` in any case. For every other URL the model gives the error path, as `requests` does for a missing or unsupported scheme. Other adapters mounted on the session are not modelled.
- The `try`/`except` fall-backs around the passes: each pass is modelled on the inputs where it does not raise. The one raise that changes behaviour, in the overlay pass, is modelled: a dead element in the snapshot stops that pass.
- The `main_root in x.descendants` tests use element identity where bs4 uses structural equality.
- The PDF passes work on a token sequence. Tokenisation, overlapping matches, whitespace around `=` and the case of attribute names are not modelled.
- The hide-elements CSS is the parameter `style` of FlatPdf.InjectStyle.
- The inventory of the PDF pass is built from the book's embedded images only. The cover item is not included.
- Assets.PickCover follows the source: unlike the embedding it does not retry a `//` URL as `https:`. Assets.CoverFromFirstImage therefore excludes such sources.
- Fixed text literals (the Italian titles, the default CSS) appear only where a rule tests them.
- Comments, the doctype and other non-text strings: a page is a tree of `Text` and `Elem` nodes only. bs4 returns comments from `find_all(string=...)`, counts them in `descendants` and writes them out in `str()`. The lines below state what the model therefore does not capture on a page that holds comments.
- FirstText (Sanitizer.FirstText) and NoiseSpec (Sanitizer.NoiseSpec): a comment that matches the noise pattern (lines 277-322) also has its nearest block removed in the source. The model searches text nodes only.
- StripTitleTextKeepsElements (Sanitizer.StripTitleTextKeepsElements): in the source, a comment that holds the title line (lines 248-253) is replaced by a plain text string, because `str.replace` drops the comment type. The model strips text nodes only, so such a comment is neither stripped nor turned into text.
- TitleScan (Sanitizer.TitleScan): the 201-node budget of pass 4c (lines 368-373) counts comments too, so on a page with comments the source stops its walk earlier than the model does.
- InnerMarkup (Gate.InnerMarkup), VisibleIsWord (Gate.VisibleIsWord) and ReshapeCondition (Gate.ReshapeCondition): `inner` (lines 725-732 and 763) holds `<!--...-->` for each top-level comment. In the source that gives `'<' in inner`, and a word character inside the comment makes `has_visible` true. The model's `inner` has no comments, so on a page whose only word characters are in a comment the source's `has_visible` test passes where the model's fails. A block tag name written inside a comment likewise satisfies the source's reshape test and not the model's.
- Lower (Basics.Lower): folds only `A`-`Z`. Python's `str.lower` also folds non-ASCII letters, so `È` stays `È` in the model where Python gives `è`; keys and keyword tests on non-ASCII text are compared case-sensitively beyond ASCII.
- Upper (Basics.Upper): folds only `a`-`z`; Python's `str.upper` also folds non-ASCII letters and expands `ß` to `SS`, so the introduction test on such text can differ.
- IsDigit (Basics.IsDigit): accepts only `0`-`9`. Python's `str.isdigit` and `\d` also accept other Unicode digits (`²`, Arabic-Indic digits), which the model treats as text.
- Key (SortKey.Key): built on Basics.Lower and Basics.IsDigit, so a name with non-ASCII letters or digits gets a key that differs from Python's (`à1` keeps `à`, a superscript digit is not a number run).
- Words (Basics.Words): its own contract states only the empty case; what the words are is stated by Basics.WordsText, Basics.WordsSolid and Basics.SplitJoin.
- PyInt (Basics.PyInt): its own contract states only what a successful read needs; the value read is stated by Basics.PyIntReads for a digit run with an optional sign, and underscores between digits are not given a value lemma.
- ReplaceAll (Basics.ReplaceAll): its own contract states only the case without an occurrence; replacement is stated by Basics.ReplaceAllAt, Basics.ReplaceAllPrefix and Basics.ReplaceAllOnce.
- Visible (Dom.Visible): its own contract states only the shape of the strings; what they hold is stated by Dom.VisibleOne and Dom.VisibleText.
- Candidates (Sanitizer.Candidates): its own contract states only that every candidate has a candidate tag; completeness and order are stated by Sanitizer.CandidatesComplete, Sanitizer.CandidatesAppend and Sanitizer.CandidatesNode.
- ImageItem (FlatPdf.ImageItem): ebooklib's type is read off the extension after the last dot of the file name; the model uses the `Path.suffix` of the whole name, which is the same for the `images/img_N_M.ext` names the embedding writes.

## Findings

| source | as written | input that shows it | evidently intended | confidence | as-written member | corrected member |
|---|---|---|---|---|---|---|
| tools/bookbuilder/bookbuilder.py:770-803 | `chap_index` is incremented before the XHTML validity test, so a page that the gate keeps and the validity test drops still uses up a number | a page whose body is a single `<h4>` of 160-199 characters: the gate keeps it (`h4` is visible and a block tag), the validity test rejects it (`h4` is not among its elements), and the next chapter is stored as `ch_002` with no `ch_001` | chapter files numbered 1, 2, ... without gaps | not executed | Book.AsWrittenGap | Book.FoldShape |
| tools/bookbuilder/bookbuilder.py:699-717 | the cover is looked for after `embed_images_and_rewrite` has rewritten every embedded `src` to a local `images/...` name, which `download_image` cannot fetch | a first page whose first image is downloadable or an inline data URI: it is embedded and no cover is ever set from it | the first page's first embeddable image becomes the cover | not executed | Book.AsWrittenNoCover | Book.HandleOffersFirstImage |
| tools/bookbuilder/bookbuilder.py:919 | the blanking pattern tests the raw `url(...)` argument for `data:`, so a quoted data URI does not match and is emptied | `url("data:image/png;base64,AAAA")` in a chapter becomes `url('')` | every `url(...)` whose target is a data URI is kept, quoted or not | not executed | FlatPdf.QuotedDataBlankedAsWritten | FlatPdf.QuotedDataKept |
| tools/bookbuilder/bookbuilder.py:870-873 | `img_items` takes only the items ebooklib types as images, by file extension, and the embedding writes `.svg`, `.webp` and `.bin` files too | a chapter with `<img src="data:image/svg+xml;base64,...">`: the image is embedded as `images/img_1_1.svg`, is not in the inventory, and the neutralising pass turns the reference into `"#"`, so the PDF shows no image | every image the book embedded is inlined into the PDF | not executed | FlatPdf.NonImageAssetNeutralised | FlatPdf.FlattenEmbedsAsset |

The corrected behaviour is what the rest of the model uses:

- Book.Run numbers chapters only when they enter the book.
- Book.Handle looks for the cover before the rewrite, so Book.Run takes the cover from the first page that yields one.
- FlatPdf.Flatten blanks on the unquoted argument.
- FlatPdf.InventoryOf takes every embedded image, whatever its extension.
