/**
 * The parsed page as the cleaning passes see it: a tree of text nodes and
 * elements. An element carries an `id` standing for the identity of the
 * parser's node object (the source compares nodes with `is`). The document
 * itself is the forest of top-level nodes under the parser's "[document]" root.
 */
module Dom {
  import opened Basics

  datatype Attr = Attr(name: string, value: string)

  datatype Node =
    | Text(text: string)
    | Elem(id: nat, tag: string, attrs: seq<Attr>, kids: seq<Node>)

  /** `tag.get(name)`: the value of the first attribute with that name. */
  function GetAttr(attrs: seq<Attr>, name: string): (r: Option<string>)
    ensures r.None? <==> forall i | 0 <= i < |attrs| :: attrs[i].name != name
    ensures r.Some? ==> exists i | 0 <= i < |attrs| :: attrs[i] == Attr(name, r.value)
  {
    if attrs == [] then None
    else if attrs[0].name == name then Some(attrs[0].value)
    else GetAttr(attrs[1..], name)
  }

  /** `tag.get(name, "")`. */
  function AttrOr(attrs: seq<Attr>, name: string): string
  {
    match GetAttr(attrs, name)
    case Some(v) => v
    case None => ""
  }

  /** `tag[name] = value`: the first attribute of that name takes the value, or one is appended. */
  function SetAttr(attrs: seq<Attr>, name: string, value: string): (r: seq<Attr>)
    ensures GetAttr(r, name) == Some(value)
    ensures forall m | m != name :: GetAttr(r, m) == GetAttr(attrs, m)
    ensures |r| >= |attrs|
  {
    if attrs == [] then [Attr(name, value)]
    else if attrs[0].name == name then [Attr(name, value)] + attrs[1..]
    else [attrs[0]] + SetAttr(attrs[1..], name, value)
  }

  // ---------------------------------------------------------------- text

  /** The text strings of a node, in document order. */
  function NodeStrings(n: Node): seq<string>
  {
    match n
    case Text(s) => [s]
    case Elem(_, _, _, kids) => Strings(kids)
  }

  function Strings(ns: seq<Node>): seq<string>
  {
    if ns == [] then [] else NodeStrings(ns[0]) + Strings(ns[1..])
  }

  lemma {:induction false} StringsAppend(a: seq<Node>, b: seq<Node>)
    ensures Strings(a + b) == Strings(a) + Strings(b)
  {
    if a == [] {
      assert a + b == b;
    } else {
      assert (a + b)[0] == a[0] && (a + b)[1..] == a[1..] + b;
      StringsAppend(a[1..], b);
    }
  }

  /** The strings `get_text(strip=True)` keeps: each one stripped, blank ones dropped. */
  function Visible(ss: seq<string>): (r: seq<string>)
    ensures |r| <= |ss|
    ensures forall i | 0 <= i < |r| :: r[i] != [] && !IsSpace(r[i][0]) && !IsSpace(r[i][|r[i]| - 1])
  {
    if ss == [] then []
    else if Strip(ss[0]) == [] then Visible(ss[1..])
    else [Strip(ss[0])] + Visible(ss[1..])
  }

  lemma {:induction false} VisibleAppend(a: seq<string>, b: seq<string>)
    ensures Visible(a + b) == Visible(a) + Visible(b)
  {
    if a == [] {
      assert a + b == b;
    } else {
      assert (a + b)[0] == a[0] && (a + b)[1..] == a[1..] + b;
      VisibleAppend(a[1..], b);
    }
  }

  /** One string: dropped when blank, else kept stripped. */
  lemma VisibleOne(s: string)
    ensures Visible([s]) == if AllSpace(s) then [] else [Strip(s)]
  {
    assert [s][1..] == [];
  }

  /** The kept strings hold all the non-space text, in order. */
  lemma {:induction false} VisibleText(ss: seq<string>)
    ensures NonSpace(Concat(Visible(ss))) == NonSpace(Concat(ss))
  {
    if ss != [] {
      VisibleText(ss[1..]);
      var v := Visible(ss[1..]);
      ConcatCons(ss[0], ss[1..]);
      assert ss == [ss[0]] + ss[1..];
      NonSpaceAppend(ss[0], Concat(ss[1..]));
      NonSpaceStrip(ss[0]);
      if Strip(ss[0]) == [] {
        NonSpaceBlank(ss[0]);
      } else {
        ConcatCons(Strip(ss[0]), v);
        NonSpaceAppend(Strip(ss[0]), Concat(v));
      }
    }
  }

  /** `get_text(sep, strip=True)` of the nodes `ns`. */
  function GetText(ns: seq<Node>, sep: string): string
  {
    Join(Visible(Strings(ns)), sep)
  }

  /** `len(get_text(" ", strip=True))`. */
  function TextLen(ns: seq<Node>): nat
  {
    |GetText(ns, " ")|
  }

  /** `not get_text(strip=True)`: no string has a non-space character. */
  predicate Blank(ns: seq<Node>)
  {
    Visible(Strings(ns)) == []
  }

  /** Joining non-empty parts gives the empty string exactly when there are none. */
  lemma JoinEmpty(parts: seq<string>, sep: string)
    requires forall i | 0 <= i < |parts| :: parts[i] != []
    ensures Join(parts, sep) == [] <==> parts == []
  {
    if |parts| > 1 {
      assert parts[0] != [];
    }
  }

  lemma BlankText(ns: seq<Node>, sep: string)
    ensures Blank(ns) <==> GetText(ns, sep) == []
  {
    JoinEmpty(Visible(Strings(ns)), sep);
  }

  // ------------------------------------------------------------- counting

  /** Number of elements named `tag` in `n` and below. */
  function NodeCount(n: Node, tag: string): nat
  {
    match n
    case Text(_) => 0
    case Elem(_, t, _, kids) => (if t == tag then 1 else 0) + Count(kids, tag)
  }

  /** `len(find_all(tag))` over the forest `ns` (the nodes themselves included). */
  function Count(ns: seq<Node>, tag: string): nat
  {
    if ns == [] then 0 else NodeCount(ns[0], tag) + Count(ns[1..], tag)
  }

  lemma {:induction false} CountAppend(a: seq<Node>, b: seq<Node>, tag: string)
    ensures Count(a + b, tag) == Count(a, tag) + Count(b, tag)
  {
    if a == [] {
      assert a + b == b;
    } else {
      assert (a + b)[0] == a[0] && (a + b)[1..] == a[1..] + b;
      CountAppend(a[1..], b, tag);
    }
  }

  /** Whether the element with identity `x` is `n` or lies below it. */
  predicate NodeHasId(n: Node, x: nat)
  {
    match n
    case Text(_) => false
    case Elem(id, _, _, kids) => id == x || HasId(kids, x)
  }

  predicate HasId(ns: seq<Node>, x: nat)
  {
    ns != [] && (NodeHasId(ns[0], x) || HasId(ns[1..], x))
  }

  lemma {:induction false} HasIdAppend(a: seq<Node>, b: seq<Node>, x: nat)
    ensures HasId(a + b, x) <==> HasId(a, x) || HasId(b, x)
  {
    if a == [] {
      assert a + b == b;
    } else {
      assert (a + b)[0] == a[0] && (a + b)[1..] == a[1..] + b;
      HasIdAppend(a[1..], b, x);
    }
  }

  /** Number of nodes, the measure the noise pass shrinks. */
  function NodeSize(n: Node): nat
  {
    match n
    case Text(_) => 1
    case Elem(_, _, _, kids) => 1 + Size(kids)
  }

  function Size(ns: seq<Node>): nat
  {
    if ns == [] then 0 else NodeSize(ns[0]) + Size(ns[1..])
  }

  lemma {:induction false} SizeAppend(a: seq<Node>, b: seq<Node>)
    ensures Size(a + b) == Size(a) + Size(b)
  {
    if a == [] {
      assert a + b == b;
    } else {
      assert (a + b)[0] == a[0] && (a + b)[1..] == a[1..] + b;
      SizeAppend(a[1..], b);
    }
  }

  /** Every element of the forest, at any depth, satisfies `P`. */
  predicate AllElems(ns: seq<Node>, P: Node -> bool)
  {
    forall i | 0 <= i < |ns| :: ns[i].Elem? ==> P(ns[i]) && AllElems(ns[i].kids, P)
  }

  /** Every text node of the forest, at any depth, satisfies `P`. */
  predicate AllTexts(ns: seq<Node>, P: string -> bool)
  {
    ns == [] || (NodeTexts(ns[0], P) && AllTexts(ns[1..], P))
  }

  predicate NodeTexts(n: Node, P: string -> bool)
  {
    match n
    case Text(s) => P(s)
    case Elem(_, _, _, kids) => AllTexts(kids, P)
  }

  /** Image elements are void: the parser never puts anything inside an `<img>`. */
  predicate ImgsAreVoid(ns: seq<Node>)
  {
    AllElems(ns, (n: Node) => n.Elem? && n.tag == "img" ==> n.kids == [])
  }

  // ------------------------------------------------------------- pruning

  /**
   * The top-down removal every snapshot-and-decompose loop of the cleaner
   * amounts to: an element `drop` selects goes with its whole subtree, and an
   * element that stays has its children pruned in turn. The element `keep`
   * names (if any) is kept with its subtree untouched. `drop` is judged on the
   * element as it was, because a pre-order loop reaches an element before
   * anything below it.
   */
  function Prune(ns: seq<Node>, drop: Node -> bool, keep: Option<nat>): seq<Node>
  {
    if ns == [] then [] else PruneNode(ns[0], drop, keep) + Prune(ns[1..], drop, keep)
  }

  function PruneNode(n: Node, drop: Node -> bool, keep: Option<nat>): seq<Node>
  {
    match n
    case Text(_) => [n]
    case Elem(id, tag, attrs, kids) =>
      if keep == Some(id) then [n]
      else if drop(n) then []
      else [Elem(id, tag, attrs, Prune(kids, drop, keep))]
  }

  lemma Singleton(n: Node, tag: string, x: nat)
    ensures Strings([n]) == NodeStrings(n)
    ensures Count([n], tag) == NodeCount(n, tag)
    ensures HasId([n], x) == NodeHasId(n, x)
  {
    assert [n][1..] == [];
  }

  /** Pruning subtrees without visible text leaves the visible text as it was. */
  lemma {:induction false} PruneVisible(ns: seq<Node>, drop: Node -> bool, keep: Option<nat>)
    requires forall n :: drop(n) ==> Visible(NodeStrings(n)) == []
    ensures Visible(Strings(Prune(ns, drop, keep))) == Visible(Strings(ns))
  {
    if ns != [] {
      var pn := PruneNode(ns[0], drop, keep);
      var rest := Prune(ns[1..], drop, keep);
      StringsAppend(pn, rest);
      VisibleAppend(Strings(pn), Strings(rest));
      VisibleAppend(NodeStrings(ns[0]), Strings(ns[1..]));
      PruneVisible(ns[1..], drop, keep);
      PruneNodeVisible(ns[0], drop, keep);
    }
  }

  lemma {:induction false} PruneNodeVisible(n: Node, drop: Node -> bool, keep: Option<nat>)
    requires forall n :: drop(n) ==> Visible(NodeStrings(n)) == []
    ensures Visible(Strings(PruneNode(n, drop, keep))) == Visible(NodeStrings(n))
  {
    var pn := PruneNode(n, drop, keep);
    if n.Elem? && keep != Some(n.id) && !drop(n) {
      PruneVisible(n.kids, drop, keep);
      Singleton(pn[0], "", 0);
    } else if n.Elem? && keep != Some(n.id) {
      assert pn == [];
    } else {
      Singleton(n, "", 0);
    }
  }

  /** Pruning subtrees without a `tag` element leaves the number of `tag` elements as it was. */
  lemma {:induction false} PruneCount(ns: seq<Node>, drop: Node -> bool, keep: Option<nat>, tag: string)
    requires forall n :: drop(n) ==> NodeCount(n, tag) == 0
    ensures Count(Prune(ns, drop, keep), tag) == Count(ns, tag)
  {
    if ns != [] {
      var n := ns[0];
      var pn := PruneNode(n, drop, keep);
      var rest := Prune(ns[1..], drop, keep);
      CountAppend(pn, rest, tag);
      PruneCount(ns[1..], drop, keep, tag);
      if n.Elem? && keep != Some(n.id) && !drop(n) {
        PruneCount(n.kids, drop, keep, tag);
        Singleton(pn[0], tag, 0);
      }
      Singleton(n, tag, 0);
    }
  }

  /** Pruning never invents an element. */
  lemma {:induction false} PruneHasId(ns: seq<Node>, drop: Node -> bool, keep: Option<nat>, x: nat)
    ensures HasId(Prune(ns, drop, keep), x) ==> HasId(ns, x)
  {
    if ns != [] {
      var n := ns[0];
      var pn := PruneNode(n, drop, keep);
      HasIdAppend(pn, Prune(ns[1..], drop, keep), x);
      PruneHasId(ns[1..], drop, keep, x);
      if n.Elem? && keep != Some(n.id) && !drop(n) {
        PruneHasId(n.kids, drop, keep, x);
        Singleton(pn[0], "", x);
      }
      Singleton(n, "", x);
    }
  }

  /** An element no dropped subtree contains survives pruning. */
  lemma {:induction false} PruneKeepsId(ns: seq<Node>, drop: Node -> bool, keep: Option<nat>, x: nat)
    requires forall n :: drop(n) ==> !NodeHasId(n, x)
    ensures HasId(ns, x) ==> HasId(Prune(ns, drop, keep), x)
  {
    if ns != [] {
      var n := ns[0];
      var pn := PruneNode(n, drop, keep);
      HasIdAppend(pn, Prune(ns[1..], drop, keep), x);
      PruneKeepsId(ns[1..], drop, keep, x);
      if n.Elem? && keep != Some(n.id) && !drop(n) {
        PruneKeepsId(n.kids, drop, keep, x);
        Singleton(pn[0], "", x);
      }
      Singleton(n, "", x);
    }
  }

  /**
   * An element pruning took away lay in a subtree `drop` selected: the path
   * returned leads, in the forest before pruning, to that subtree's root.
   */
  lemma {:induction false} PruneDropped(ns: seq<Node>, drop: Node -> bool, keep: Option<nat>, x: nat)
    returns (p: Path)
    requires HasId(ns, x) && !HasId(Prune(ns, drop, keep), x)
    ensures ValidPath(ns, p) && At(ns, p).Elem? && drop(At(ns, p)) && NodeHasId(At(ns, p), x)
    decreases ns
  {
    var n := ns[0];
    var pn := PruneNode(n, drop, keep);
    var rest := Prune(ns[1..], drop, keep);
    HasIdAppend(pn, rest, x);
    if HasId(ns[1..], x) {
      var q := PruneDropped(ns[1..], drop, keep, x);
      PathShift(ns, q);
      p := [q[0] + 1] + q[1..];
    } else if drop(n) && keep != Some(n.id) {
      p := [0];
    } else {
      Singleton(pn[0], "", x);
      var q := PruneDropped(n.kids, drop, keep, x);
      PathDown(ns, q);
      p := [0] + q;
    }
  }

  // ------------------------------------------------------------- paths

  /** A path of child indexes from the top-level forest down to one node. */
  type Path = seq<nat>

  predicate ValidPath(ns: seq<Node>, p: Path)
  {
    |p| > 0 && p[0] < |ns| &&
    (|p| == 1 || (ns[p[0]].Elem? && ValidPath(ns[p[0]].kids, p[1..])))
  }

  function At(ns: seq<Node>, p: Path): Node
    requires ValidPath(ns, p)
  {
    if |p| == 1 then ns[p[0]] else At(ns[p[0]].kids, p[1..])
  }

  /** The forest with the node at `p` (and its subtree) taken out. */
  function RemoveAt(ns: seq<Node>, p: Path): (r: seq<Node>)
    requires ValidPath(ns, p)
  {
    var i := p[0];
    if |p| == 1 then ns[..i] + ns[i + 1..]
    else
      var e := ns[i];
      ns[..i] + [Elem(e.id, e.tag, e.attrs, RemoveAt(e.kids, p[1..]))] + ns[i + 1..]
  }

  /** The forest with the children of the element at `p` replaced by `kids`. */
  function SetKidsAt(ns: seq<Node>, p: Path, kids: seq<Node>): seq<Node>
    requires ValidPath(ns, p) && At(ns, p).Elem?
  {
    var i := p[0];
    var e := ns[i];
    var e' := if |p| == 1 then Elem(e.id, e.tag, e.attrs, kids)
              else Elem(e.id, e.tag, e.attrs, SetKidsAt(e.kids, p[1..], kids));
    ns[..i] + [e'] + ns[i + 1..]
  }

  lemma {:induction false} SplitAt(ns: seq<Node>, i: nat)
    requires i < |ns|
    ensures ns == ns[..i] + [ns[i]] + ns[i + 1..]
  {
  }

  /** Removing a node removes its size, its `tag` elements and nothing else. */
  lemma {:induction false} RemoveAtMeasures(ns: seq<Node>, p: Path, tag: string)
    requires ValidPath(ns, p)
    ensures Size(RemoveAt(ns, p)) == Size(ns) - NodeSize(At(ns, p))
    ensures Count(RemoveAt(ns, p), tag) == Count(ns, tag) - NodeCount(At(ns, p), tag)
  {
    var i := p[0];
    SplitAt(ns, i);
    SizeAppend(ns[..i] + [ns[i]], ns[i + 1..]);
    SizeAppend(ns[..i], [ns[i]]);
    CountAppend(ns[..i] + [ns[i]], ns[i + 1..], tag);
    CountAppend(ns[..i], [ns[i]], tag);
    if |p| == 1 {
      SizeAppend(ns[..i], ns[i + 1..]);
      CountAppend(ns[..i], ns[i + 1..], tag);
    } else {
      var e := ns[i];
      var e' := Elem(e.id, e.tag, e.attrs, RemoveAt(e.kids, p[1..]));
      RemoveAtMeasures(e.kids, p[1..], tag);
      SizeAppend(ns[..i] + [e'], ns[i + 1..]);
      SizeAppend(ns[..i], [e']);
      CountAppend(ns[..i] + [e'], ns[i + 1..], tag);
      CountAppend(ns[..i], [e'], tag);
    }
  }

  /** Removing a node that does not contain element `x` keeps `x`. */
  lemma {:induction false} RemoveAtKeepsId(ns: seq<Node>, p: Path, x: nat)
    requires ValidPath(ns, p) && !NodeHasId(At(ns, p), x)
    ensures HasId(RemoveAt(ns, p), x) == HasId(ns, x)
  {
    var i := p[0];
    SplitAt(ns, i);
    HasIdAppend(ns[..i] + [ns[i]], ns[i + 1..], x);
    HasIdAppend(ns[..i], [ns[i]], x);
    if |p| == 1 {
      HasIdAppend(ns[..i], ns[i + 1..], x);
    } else {
      var e := ns[i];
      var e' := Elem(e.id, e.tag, e.attrs, RemoveAt(e.kids, p[1..]));
      RemoveAtKeepsId(e.kids, p[1..], x);
      HasIdAppend(ns[..i] + [e'], ns[i + 1..], x);
      HasIdAppend(ns[..i], [e'], x);
    }
  }

  /** A path into the first node's children, seen from the forest. */
  lemma PathDown(ns: seq<Node>, p: Path)
    requires ns != [] && ns[0].Elem? && ValidPath(ns[0].kids, p)
    ensures ValidPath(ns, [0] + p) && At(ns, [0] + p) == At(ns[0].kids, p)
  {
    assert ([0] + p)[1..] == p;
  }

  /** A path into the tail of the forest, seen from the whole forest. */
  lemma {:induction false} PathShift(ns: seq<Node>, p: Path)
    requires ns != [] && ValidPath(ns[1..], p)
    ensures ValidPath(ns, [p[0] + 1] + p[1..]) && At(ns, [p[0] + 1] + p[1..]) == At(ns[1..], p)
  {
    var q := [p[0] + 1] + p[1..];
    assert q[1..] == p[1..];
  }

  /** Every proper prefix of a valid path leads to an element. */
  lemma {:induction false} PathPrefix(ns: seq<Node>, p: Path, k: nat)
    requires ValidPath(ns, p) && 1 <= k <= |p|
    ensures ValidPath(ns, p[..k])
    ensures k < |p| ==> At(ns, p[..k]).Elem?
    ensures k < |p| ==> ValidPath(At(ns, p[..k]).kids, p[k..]) && At(At(ns, p[..k]).kids, p[k..]) == At(ns, p)
  {
    if k > 1 {
      PathPrefix(ns[p[0]].kids, p[1..], k - 1);
      assert p[..k][1..] == p[1..][..k - 1];
      assert p[1..][k - 1..] == p[k..];
    }
  }

  /** Taking a node out leaves image elements void. */
  lemma {:induction false} RemoveAtVoid(ns: seq<Node>, p: Path)
    requires ValidPath(ns, p) && ImgsAreVoid(ns)
    ensures ImgsAreVoid(RemoveAt(ns, p))
  {
    var P := (n: Node) => n.Elem? && n.tag == "img" ==> n.kids == [];
    var i := p[0];
    AllElemsSlice(ns, 0, i, P);
    AllElemsSlice(ns, i + 1, |ns|, P);
    if |p| == 1 {
      AllElemsJoin(ns[..i], ns[i + 1..], P);
    } else {
      var e := ns[i];
      var e' := Elem(e.id, e.tag, e.attrs, RemoveAt(e.kids, p[1..]));
      RemoveAtVoid(e.kids, p[1..]);
      AllElemsJoin([e'], ns[i + 1..], P);
      AllElemsJoin(ns[..i], [e'] + ns[i + 1..], P);
      assert ns[..i] + [e'] + ns[i + 1..] == ns[..i] + ([e'] + ns[i + 1..]);
    }
  }

  lemma AllElemsSlice(ns: seq<Node>, a: nat, b: nat, P: Node -> bool)
    requires a <= b <= |ns| && AllElems(ns, P)
    ensures AllElems(ns[a..b], P)
  {
    assert forall i | 0 <= i < b - a :: ns[a..b][i] == ns[a + i];
  }

  lemma AllElemsJoin(a: seq<Node>, b: seq<Node>, P: Node -> bool)
    requires AllElems(a, P) && AllElems(b, P)
    ensures AllElems(a + b, P)
  {
    forall i | 0 <= i < |a + b| && (a + b)[i].Elem?
      ensures P((a + b)[i]) && AllElems((a + b)[i].kids, P)
    {
      if i < |a| {
        assert (a + b)[i] == a[i];
      } else {
        assert (a + b)[i] == b[i - |a|];
      }
    }
  }

  lemma RemoveAtDown(ns: seq<Node>, q: Path)
    requires ns != [] && ns[0].Elem? && ValidPath(ns[0].kids, q)
    ensures ValidPath(ns, [0] + q)
    ensures RemoveAt(ns, [0] + q) ==
      [Elem(ns[0].id, ns[0].tag, ns[0].attrs, RemoveAt(ns[0].kids, q))] + ns[1..]
  {
    PathDown(ns, q);
    assert ([0] + q)[1..] == q;
  }

  lemma RemoveAtShift(ns: seq<Node>, q: Path)
    requires ns != [] && ValidPath(ns[1..], q)
    ensures ValidPath(ns, [q[0] + 1] + q[1..])
    ensures RemoveAt(ns, [q[0] + 1] + q[1..]) == [ns[0]] + RemoveAt(ns[1..], q)
  {
    PathShift(ns, q);
    var p := [q[0] + 1] + q[1..];
    assert p[1..] == q[1..];
    var i := q[0];
    var e := ns[1..][i];
    var mid := if |q| == 1 then [] else [Elem(e.id, e.tag, e.attrs, RemoveAt(e.kids, q[1..]))];
    assert RemoveAt(ns[1..], q) == ns[1..][..i] + mid + ns[1..][i + 1..];
    assert RemoveAt(ns, p) == ns[..i + 1] + mid + ns[i + 2..];
    ShiftSplice(ns, i, mid);
  }

  lemma ShiftSplice(ns: seq<Node>, i: nat, mid: seq<Node>)
    requires i + 1 < |ns|
    ensures ns[..i + 1] + mid + ns[i + 2..] == [ns[0]] + (ns[1..][..i] + mid + ns[1..][i + 1..])
  {
    assert ns[1..][..i] == ns[1..i + 1];
    assert ns[..i + 1] == [ns[0]] + ns[1..i + 1];
    assert ns[1..][i + 1..] == ns[i + 2..];
  }

  /** The path of the first element, in document order, that `P` accepts. */
  function FirstElem(ns: seq<Node>, P: Node -> bool): (r: Option<Path>)
    ensures r.Some? ==> ValidPath(ns, r.value) && At(ns, r.value).Elem? && P(At(ns, r.value))
  {
    if ns == [] then None
    else if ns[0].Elem? && P(ns[0]) then Some([0])
    else
      match (if ns[0].Elem? then FirstElem(ns[0].kids, P) else None)
      case Some(q) => PathDown(ns, q); Some([0] + q)
      case None =>
        match FirstElem(ns[1..], P)
        case None => None
        case Some(q) => PathShift(ns, q); Some([q[0] + 1] + q[1..])
  }

  // ------------------------------------------------------------- finding
  /**
   * Document order of two paths: `a` comes first when it leads to an
   * ancestor of `b`'s node or branches off to an earlier sibling.
   */
  predicate Before(a: Path, b: Path)
    decreases |a|
  {
    a != [] && b != [] &&
    (a[0] < b[0] || (a[0] == b[0] && ((|a| == 1 && |b| > 1) || Before(a[1..], b[1..]))))
  }

  /** No element `P` accepts comes before the one `FirstElem` finds. */
  lemma {:induction false} FirstElemIsFirst(ns: seq<Node>, P: Node -> bool, q: Path)
    requires ValidPath(ns, q) && At(ns, q).Elem? && P(At(ns, q))
    ensures FirstElem(ns, P).Some? && !Before(q, FirstElem(ns, P).value)
    decreases ns
  {
    var n := ns[0];
    if n.Elem? && P(n) {
    } else if q[0] == 0 {
      assert |q| > 1;
      FirstElemIsFirst(n.kids, P, q[1..]);
    } else {
      var q' := [q[0] - 1] + q[1..];
      assert q'[1..] == q[1..];
      assert ValidPath(ns[1..], q') && At(ns[1..], q') == At(ns, q);
      if n.Elem? && FirstElem(n.kids, P).Some? {
      } else {
        FirstElemIsFirst(ns[1..], P, q');
        var r := FirstElem(ns[1..], P).value;
        assert !Before(q', r);
        var r' := [r[0] + 1] + r[1..];
        assert r'[1..] == r[1..];
      }
    }
  }


  /** `find(tag)`: the first element named `tag`, in document order. */
  function Find(ns: seq<Node>, tag: string): (r: Option<Node>)
    ensures r.Some? ==> r.value.Elem? && r.value.tag == tag
    ensures r.None? <==> Count(ns, tag) == 0
  {
    if ns == [] then None
    else
      match FindNode(ns[0], tag)
      case Some(n) => Some(n)
      case None => Find(ns[1..], tag)
  }

  function FindNode(n: Node, tag: string): (r: Option<Node>)
    ensures r.Some? ==> r.value.Elem? && r.value.tag == tag
    ensures r.None? <==> NodeCount(n, tag) == 0
  {
    match n
    case Text(_) => None
    case Elem(_, t, _, kids) => if t == tag then Some(n) else Find(kids, tag)
  }

  /** `find(tag)` is the element at the first path, in document order, of an element named `tag`. */
  lemma {:induction false} FindIsFirst(ns: seq<Node>, tag: string, P: Node -> bool)
    requires forall n :: P(n) <==> n.Elem? && n.tag == tag
    ensures Find(ns, tag).Some? <==> FirstElem(ns, P).Some?
    ensures FirstElem(ns, P).Some? ==> Find(ns, tag) == Some(At(ns, FirstElem(ns, P).value))
    decreases ns
  {
    if ns != [] {
      var n := ns[0];
      FindIsFirst(ns[1..], tag, P);
      if n.Elem? && n.tag != tag {
        FindIsFirst(n.kids, tag, P);
        match FirstElem(n.kids, P)
        case Some(q) => PathDown(ns, q);
        case None =>
      }
      match FirstElem(ns[1..], P)
      case Some(q) => PathShift(ns, q);
      case None =>
    }
  }

  /** Some node of the forest (not looking below it) is an element. */
  predicate HasElem(ns: seq<Node>)
  {
    exists i | 0 <= i < |ns| :: ns[i].Elem?
  }

  // -------------------------------------------------------- serialization

  /** One character of a text node as the parser's minimal formatter writes it. */
  function EscapeTextChar(c: char): string
  {
    if c == '&' then "&amp;" else if c == '<' then "&lt;" else if c == '>' then "&gt;" else [c]
  }

  /** A text node as written out: `&`, `<` and `>` become entities. */
  function EscapeText(s: string): (r: string)
    ensures '<' !in r
  {
    if s == [] then [] else EscapeTextChar(s[0]) + EscapeText(s[1..])
  }

  /** An attribute value as written out between double quotes. */
  function QuoteValue(v: string): (r: string)
    ensures '<' !in r
  {
    if v == [] then []
    else (if v[0] == '"' then "&quot;" else EscapeTextChar(v[0])) + QuoteValue(v[1..])
  }

  function SerializeAttrs(attrs: seq<Attr>): string
  {
    if attrs == [] then []
    else " " + attrs[0].name + "=\"" + QuoteValue(attrs[0].value) + "\"" + SerializeAttrs(attrs[1..])
  }

  /** Elements the parser writes as a single self-closing tag when they are empty. */
  const VoidTags: set<string> :=
    {"area", "base", "br", "col", "embed", "hr", "img", "input", "link", "meta", "source", "track", "wbr"}

  /** `str(node)`. */
  function SerializeNode(n: Node): string
  {
    match n
    case Text(s) => EscapeText(s)
    case Elem(_, tag, attrs, kids) =>
      if tag in VoidTags && kids == [] then "<" + tag + SerializeAttrs(attrs) + "/>"
      else "<" + tag + SerializeAttrs(attrs) + ">" + Serialize(kids) + "</" + tag + ">"
  }

  /** `"".join(str(c) for c in ns)`. */
  function Serialize(ns: seq<Node>): string
  {
    if ns == [] then [] else SerializeNode(ns[0]) + Serialize(ns[1..])
  }

  /** Markup appears in the written forest exactly when some node of it is an element. */
  lemma {:induction false} SerializeMarkup(ns: seq<Node>)
    ensures '<' in Serialize(ns) <==> HasElem(ns)
  {
    if ns != [] {
      SerializeMarkup(ns[1..]);
      assert HasElem(ns) <==> ns[0].Elem? || HasElem(ns[1..]) by {
        if HasElem(ns[1..]) {
          var i :| 0 <= i < |ns[1..]| && ns[1..][i].Elem?;
          assert ns[i + 1].Elem?;
        }
      }
      if ns[0].Elem? {
        assert SerializeNode(ns[0])[0] == '<';
      }
    }
  }

  /** A text node writes out blank exactly when it is blank. */
  lemma {:induction false} EscapeTextSpace(s: string)
    ensures AllSpace(EscapeText(s)) <==> AllSpace(s)
  {
    if s != [] {
      EscapeTextSpace(s[1..]);
      var h := EscapeTextChar(s[0]);
      AllSpaceAppend(h, EscapeText(s[1..]));
      AllSpaceAppend([s[0]], s[1..]);
      assert s == [s[0]] + s[1..];
      assert AllSpace(h) <==> IsSpace(s[0]) by {
        if s[0] == '&' || s[0] == '<' || s[0] == '>' {
          assert h[0] == '&';
        } else {
          assert h == [s[0]];
        }
      }
    }
  }

  lemma AllSpaceAppend(a: string, b: string)
    ensures AllSpace(a + b) <==> AllSpace(a) && AllSpace(b)
  {
    if AllSpace(a + b) {
      forall i | 0 <= i < |a| ensures IsSpace(a[i]) {
        assert (a + b)[i] == a[i];
      }
      forall i | 0 <= i < |b| ensures IsSpace(b[i]) {
        assert (a + b)[|a| + i] == b[i];
      }
    }
    if AllSpace(a) && AllSpace(b) {
      forall i | 0 <= i < |a + b| ensures IsSpace((a + b)[i]) {
        if i >= |a| { assert (a + b)[i] == b[i - |a|]; }
      }
    }
  }

  /** The written forest is blank exactly when it consists of blank text nodes only. */
  lemma {:induction false} SerializeSpace(ns: seq<Node>)
    ensures AllSpace(Serialize(ns)) <==> forall i | 0 <= i < |ns| :: ns[i].Text? && AllSpace(ns[i].text)
  {
    if ns != [] {
      SerializeSpace(ns[1..]);
      AllSpaceAppend(SerializeNode(ns[0]), Serialize(ns[1..]));
      match ns[0] {
        case Text(s) => EscapeTextSpace(s);
        case Elem(_, _, _, _) => assert SerializeNode(ns[0])[0] == '<';
      }
      assert (forall i | 0 <= i < |ns| :: ns[i].Text? && AllSpace(ns[i].text)) <==>
        (ns[0].Text? && AllSpace(ns[0].text)) && (forall i | 0 <= i < |ns[1..]| :: ns[1..][i].Text? && AllSpace(ns[1..][i].text));
    }
  }

  /** What a text node shows to `\w`: its own word characters, or the letters of an entity. */
  predicate TextShowsWord(s: string)
  {
    HasWord(s) || '&' in s || '<' in s || '>' in s
  }

  lemma {:induction false} EscapeTextWord(s: string)
    ensures HasWord(EscapeText(s)) <==> TextShowsWord(s)
  {
    if s != [] {
      EscapeTextWord(s[1..]);
      var h := EscapeTextChar(s[0]);
      HasWordAppend(h, EscapeText(s[1..]));
      HasWordAppend([s[0]], s[1..]);
      assert s == [s[0]] + s[1..];
      assert HasWord(h) <==> IsWordChar(s[0]) || s[0] in "&<>" by {
        if s[0] == '&' || s[0] == '<' || s[0] == '>' {
          assert IsWordChar(h[1]);
        } else {
          assert h == [s[0]];
        }
      }
      assert HasWord([s[0]]) <==> IsWordChar(s[0]);
    }
  }

  /** What `\w` can see of a node written out: an element's tag name, or a text that shows a word. */
  predicate NodeShowsWord(n: Node)
  {
    n.Elem? || TextShowsWord(n.text)
  }

  predicate ShowsWord(ns: seq<Node>)
  {
    exists i | 0 <= i < |ns| :: NodeShowsWord(ns[i])
  }

  lemma ShowsWordCons(ns: seq<Node>)
    requires ns != []
    ensures ShowsWord(ns) <==> NodeShowsWord(ns[0]) || ShowsWord(ns[1..])
  {
    if ShowsWord(ns) {
      var i :| 0 <= i < |ns| && NodeShowsWord(ns[i]);
      if i > 0 { assert ns[1..][i - 1] == ns[i]; }
    }
    if ShowsWord(ns[1..]) {
      var i :| 0 <= i < |ns[1..]| && NodeShowsWord(ns[1..][i]);
      assert ns[i + 1] == ns[1..][i];
    }
  }

  /**
   * `\w` finds a match in the written forest exactly when some node of it is
   * an element (its tag name is a word) or a text node that shows a word.
   */
  lemma {:induction false} SerializeWord(ns: seq<Node>)
    requires forall i | 0 <= i < |ns| :: ns[i].Elem? ==> HasWord(ns[i].tag)
    ensures HasWord(Serialize(ns)) <==> ShowsWord(ns)
  {
    if ns != [] {
      SerializeWord(ns[1..]);
      ShowsWordCons(ns);
      HasWordAppend(SerializeNode(ns[0]), Serialize(ns[1..]));
      match ns[0] {
        case Text(s) => EscapeTextWord(s);
        case Elem(_, tag, attrs, kids) =>
          var rest := if tag in VoidTags && kids == [] then SerializeAttrs(attrs) + "/>"
            else SerializeAttrs(attrs) + ">" + Serialize(kids) + "</" + tag + ">";
          assert SerializeNode(ns[0]) == "<" + tag + rest;
          HasWordAppend("<", tag);
          HasWordAppend("<" + tag, rest);
      }
    }
  }
}
