// The parsed HTML tree the scraper works on: elements with a tag name, an
// ordered attribute list and ordered children, and text nodes. Searching
// (BeautifulSoup's find / find_all / select_one), positions (paths) and
// in-place replacement of a subtree are defined here.

module Dom {
  import opened Options
  import opened Strings

  /** Attributes in document order, as the parser builds them. The class
      attribute is kept as its raw value; its words are the class list. */
  type Attrs = seq<(string, string)>

  datatype Node =
    | Element(tag: string, attrs: Attrs, children: seq<Node>)
    | Text(text: string)

  /** tag.get(name) where None and "" are alike: every read of an attribute
      in the scraper tests its truthiness, so an absent attribute reads as "". */
  function Get(attrs: Attrs, name: string): string
  {
    if attrs == [] then ""
    else if attrs[0].0 == name then attrs[0].1
    else Get(attrs[1..], name)
  }

  predicate HasAttr(attrs: Attrs, name: string)
  {
    exists i :: 0 <= i < |attrs| && attrs[i].0 == name
  }

  /** The class list of an element: the words of its class attribute. */
  function Classes(e: Node): seq<string>
    requires e.Element?
  {
    Words(Get(e.attrs, "class"))
  }

  /** The fixed queries the scraper issues: a tag name with required classes
      (find("div", class_="x"), select("div.x"), select("h1.a.b"), find_all("img"))
      or the presence of an attribute (find_all(style=True)). */
  datatype Query =
    | TagWithClasses(tag: string, classes: seq<string>)
    | WithAttribute(name: string)

  predicate Matches(n: Node, q: Query)
  {
    n.Element? &&
    match q
    case TagWithClasses(tag, classes) => n.tag == tag && forall c <- classes :: c in Classes(n)
    case WithAttribute(name) => HasAttr(n.attrs, name)
  }

  /** The elements below ns in document order (pre-order): what find_all(True)
      visits. Text nodes are skipped. */
  function Elements(ns: seq<Node>): seq<Node>
    ensures forall e <- Elements(ns) :: e.Element?
  {
    if ns == [] then []
    else ElementsOf(ns[0]) + Elements(ns[1..])
  }

  function ElementsOf(n: Node): seq<Node>
    ensures forall e <- ElementsOf(n) :: e.Element?
  {
    match n
    case Text(_) => []
    case Element(_, _, cs) => [n] + Elements(cs)
  }

  lemma {:induction false} ElementsAppend(a: seq<Node>, b: seq<Node>)
    ensures Elements(a + b) == Elements(a) + Elements(b)
  {
    if a == [] {
      assert a + b == b;
    } else {
      assert (a + b)[1..] == a[1..] + b;
      ElementsAppend(a[1..], b);
    }
  }

  /** find_all: the elements below ns matching q, in document order. */
  function FindAll(ns: seq<Node>, q: Query): (r: seq<Node>)
    ensures forall e <- r :: Matches(e, q) && e in Elements(ns)
  {
    if ns == [] then []
    else FindAllOf(ns[0], q) + FindAll(ns[1..], q)
  }

  function FindAllOf(n: Node, q: Query): (r: seq<Node>)
    ensures forall e <- r :: Matches(e, q) && e in ElementsOf(n)
  {
    match n
    case Text(_) => []
    case Element(_, _, cs) => (if Matches(n, q) then [n] else []) + FindAll(cs, q)
  }

  lemma {:induction false} FindAllAppend(a: seq<Node>, b: seq<Node>, q: Query)
    ensures FindAll(a + b, q) == FindAll(a, q) + FindAll(b, q)
  {
    if a == [] {
      assert a + b == b;
    } else {
      assert (a + b)[1..] == a[1..] + b;
      FindAllAppend(a[1..], b, q);
    }
  }

  /** The elements of es that match q, kept in their order: the reference
      against which find_all is checked. */
  function Matching(es: seq<Node>, q: Query): (r: seq<Node>)
    ensures forall e <- r :: e in es && Matches(e, q)
    ensures forall e <- es :: Matches(e, q) ==> e in r
  {
    if es == [] then []
    else (if Matches(es[0], q) then [es[0]] else []) + Matching(es[1..], q)
  }

  lemma {:induction false} MatchingAppend(a: seq<Node>, b: seq<Node>, q: Query)
    ensures Matching(a + b, q) == Matching(a, q) + Matching(b, q)
  {
    if a == [] {
      assert a + b == b;
    } else {
      assert (a + b)[1..] == a[1..] + b;
      MatchingAppend(a[1..], b, q);
    }
  }

  /** find_all is exactly the elements below ns that match q, in document
      order: nothing matching is missed and nothing is reordered. */
  lemma {:induction false} FindAllIsMatching(ns: seq<Node>, q: Query)
    ensures FindAll(ns, q) == Matching(Elements(ns), q)
    decreases ns, 1
  {
    if ns != [] {
      FindAllOfIsMatching(ns[0], q);
      FindAllIsMatching(ns[1..], q);
      MatchingAppend(ElementsOf(ns[0]), Elements(ns[1..]), q);
    }
  }

  lemma {:induction false} FindAllOfIsMatching(n: Node, q: Query)
    ensures FindAllOf(n, q) == Matching(ElementsOf(n), q)
    decreases n, 0
  {
    if n.Element? {
      FindAllIsMatching(n.children, q);
      MatchingAppend([n], Elements(n.children), q);
      assert Matching([n], q) == (if Matches(n, q) then [n] else []) + Matching([], q);
    }
  }

  /** Every element below ns that matches q is in find_all's result. */
  lemma FindAllComplete(ns: seq<Node>, q: Query)
    ensures forall e <- Elements(ns) :: Matches(e, q) ==> e in FindAll(ns, q)
  {
    FindAllIsMatching(ns, q);
  }

  /** The first match in a list comes after elements none of which match. */
  lemma {:induction false} MatchingFirst(es: seq<Node>, q: Query) returns (i: nat)
    requires Matching(es, q) != []
    ensures i < |es| && es[i] == Matching(es, q)[0]
    ensures forall j :: 0 <= j < i ==> !Matches(es[j], q)
  {
    if Matches(es[0], q) {
      i := 0;
    } else {
      var k := MatchingFirst(es[1..], q);
      i := k + 1;
      assert es[i] == es[1..][k];
      forall j | 0 <= j < i ensures !Matches(es[j], q) {
        if j > 0 {
          assert es[j] == es[1..][j - 1];
        }
      }
    }
  }

  /** find: the first element below ns matching q. */
  function Find(ns: seq<Node>, q: Query): (r: Option<Node>)
    ensures r.Some? ==> Matches(r.value, q)
    ensures r.None? <==> FindAll(ns, q) == []
    ensures r.Some? ==> r.value == FindAll(ns, q)[0]
  {
    var all := FindAll(ns, q);
    if all == [] then None else Some(all[0])
  }

  /** The CSS selectors the scraper uses: one compound selector, or a
      compound selector below an ancestor matching another ("div.x h1.y"). */
  datatype Selector =
    | Simple(q: Query)
    | Descendant(outer: Query, inner: Query)

  /** find returns the first element in document order that matches q, and
      None exactly when no element below ns matches. */
  lemma FindFirst(ns: seq<Node>, q: Query)
    ensures Find(ns, q).None? <==> forall e <- Elements(ns) :: !Matches(e, q)
    ensures Find(ns, q).Some? ==> exists i :: 0 <= i < |Elements(ns)| && Elements(ns)[i] == Find(ns, q).value
                                     && forall j :: 0 <= j < i ==> !Matches(Elements(ns)[j], q)
  {
    FindAllIsMatching(ns, q);
    if Find(ns, q).Some? {
      var i := MatchingFirst(Elements(ns), q);
    }
  }

  /** soup.select(sel): the matches below ns in document order. For a
      descendant selector, inside says whether an ancestor already matched
      the outer part. */
  function SelectAll(ns: seq<Node>, sel: Selector): (r: seq<Node>)
    ensures forall e <- r :: e in Elements(ns)
  {
    match sel
    case Simple(q) => FindAll(ns, q)
    case Descendant(outer, inner) => FindBelow(ns, outer, inner, false)
  }

  function FindBelow(ns: seq<Node>, outer: Query, inner: Query, inside: bool): (r: seq<Node>)
    ensures forall e <- r :: Matches(e, inner) && e in Elements(ns)
  {
    if ns == [] then []
    else FindBelowOf(ns[0], outer, inner, inside) + FindBelow(ns[1..], outer, inner, inside)
  }

  function FindBelowOf(n: Node, outer: Query, inner: Query, inside: bool): (r: seq<Node>)
    ensures forall e <- r :: Matches(e, inner) && e in ElementsOf(n)
  {
    match n
    case Text(_) => []
    case Element(_, _, cs) =>
      (if inside && Matches(n, inner) then [n] else []) + FindBelow(cs, outer, inner, inside || Matches(n, outer))
  }

  /** Once an ancestor matches the outer part, the descendant selector is the
      plain inner one. */
  lemma {:induction false} FindBelowInside(ns: seq<Node>, outer: Query, inner: Query)
    ensures FindBelow(ns, outer, inner, true) == FindAll(ns, inner)
    decreases ns, 1
  {
    if ns != [] {
      FindBelowInsideOf(ns[0], outer, inner);
      FindBelowInside(ns[1..], outer, inner);
    }
  }

  lemma {:induction false} FindBelowInsideOf(n: Node, outer: Query, inner: Query)
    ensures FindBelowOf(n, outer, inner, true) == FindAllOf(n, inner)
    decreases n, 0
  {
    if n.Element? {
      FindBelowInside(n.children, outer, inner);
    }
  }

  /** soup.select_one(sel). */
  function SelectOne(ns: seq<Node>, sel: Selector): (r: Option<Node>)
    ensures r.None? <==> SelectAll(ns, sel) == []
    ensures r.Some? ==> r.value == SelectAll(ns, sel)[0]
  {
    var all := SelectAll(ns, sel);
    if all == [] then None else Some(all[0])
  }

  /** Node.get_text(strip=True): every text below, each stripped, joined. */
  function StrippedText(ns: seq<Node>): string
  {
    if ns == [] then ""
    else
      (match ns[0]
       case Text(t) => Strip(t)
       case Element(_, _, cs) => StrippedText(cs))
      + StrippedText(ns[1..])
  }

  /** The joined text is itself stripped: it neither starts nor ends with
      whitespace, since every piece is stripped. */
  lemma {:induction false} StrippedTextTrimmed(ns: seq<Node>)
    ensures Trimmed(StrippedText(ns))
  {
    if ns != [] {
      var head := match ns[0] case Text(t) => Strip(t) case Element(_, _, cs) => StrippedText(cs);
      match ns[0] {
        case Text(t) => TrimFixpoint(t, IsSpace);
        case Element(_, _, cs) => StrippedTextTrimmed(cs);
      }
      StrippedTextTrimmed(ns[1..]);
      TrimmedConcat(head, StrippedText(ns[1..]));
    }
  }

  /** Elements html.parser closes at once: they never have children. */
  const VoidElements: set<string> :=
    {"area", "base", "br", "col", "embed", "hr", "img", "input", "keygen", "link",
     "menuitem", "meta", "param", "source", "track", "wbr", "basefont", "bgsound",
     "command", "frame", "image", "isindex", "nextid", "spacer"}

  /** The shape html.parser gives a tree: no void element has children. */
  predicate Parsed(ns: seq<Node>)
  {
    forall i :: 0 <= i < |ns| ==> ParsedNode(ns[i])
  }

  predicate ParsedNode(n: Node)
  {
    n.Element? ==> (n.tag in VoidElements ==> n.children == []) && Parsed(n.children)
  }

  // ---------------------------------------------------------------------
  // Serialisation (a simple stand-in for BeautifulSoup's str(tag))

  function RenderAttrs(attrs: Attrs): string
  {
    if attrs == [] then ""
    else " " + attrs[0].0 + "=\"" + attrs[0].1 + "\"" + RenderAttrs(attrs[1..])
  }

  function Render(n: Node): (r: string)
    ensures n.Element? ==> |r| >= 2 && r[0] == '<' && r[|r| - 1] == '>'
  {
    match n
    case Text(t) => t
    case Element(tag, attrs, cs) =>
      if tag in VoidElements && cs == [] then "<" + tag + RenderAttrs(attrs) + "/>"
      else "<" + tag + RenderAttrs(attrs) + ">" + RenderAll(cs) + "</" + tag + ">"
  }

  function RenderAll(ns: seq<Node>): string
  {
    if ns == [] then "" else Render(ns[0]) + RenderAll(ns[1..])
  }

  // ---------------------------------------------------------------------
  // Positions: a path indexes the top-level list, then children, and so on.

  type Path = seq<nat>

  predicate ValidPath(ns: seq<Node>, p: Path)
    decreases p
  {
    |p| >= 1 && p[0] < |ns| &&
    (|p| == 1 || (ns[p[0]].Element? && ValidPath(ns[p[0]].children, p[1..])))
  }

  function NodeAt(ns: seq<Node>, p: Path): Node
    requires ValidPath(ns, p)
    decreases p
  {
    if |p| == 1 then ns[p[0]] else NodeAt(ns[p[0]].children, p[1..])
  }

  /** The tree with the node at p replaced by x: an in-place update of one
      subtree as seen from the document. */
  function ReplaceAt(ns: seq<Node>, p: Path, x: Node): (r: seq<Node>)
    requires ValidPath(ns, p)
    ensures |r| == |ns|
    decreases p
  {
    ns[p[0] := if |p| == 1 then x else ns[p[0]].(children := ReplaceAt(ns[p[0]].children, p[1..], x))]
  }

  predicate IsPrefix(p: Path, q: Path)
  {
    |p| <= |q| && q[..|p|] == p
  }

  /** Neither position lies inside the other. */
  predicate Incomparable(p: Path, q: Path)
  {
    !IsPrefix(p, q) && !IsPrefix(q, p)
  }

  predicate PairwiseIncomparable(ps: seq<Path>)
  {
    forall i, j :: 0 <= i < |ps| && 0 <= j < |ps| && i != j ==> Incomparable(ps[i], ps[j])
  }

  lemma {:induction false} ReplaceAtSame(ns: seq<Node>, p: Path, x: Node)
    requires ValidPath(ns, p)
    ensures ValidPath(ReplaceAt(ns, p, x), p) && NodeAt(ReplaceAt(ns, p, x), p) == x
    decreases p
  {
    if |p| > 1 {
      ReplaceAtSame(ns[p[0]].children, p[1..], x);
    }
  }

  /** Replacing one subtree leaves every position outside it valid and
      unchanged. */
  lemma {:induction false} ReplaceAtOther(ns: seq<Node>, p: Path, q: Path, x: Node)
    requires ValidPath(ns, p) && ValidPath(ns, q) && Incomparable(p, q)
    ensures ValidPath(ReplaceAt(ns, p, x), q) && NodeAt(ReplaceAt(ns, p, x), q) == NodeAt(ns, q)
    decreases p
  {
    if p[0] != q[0] {
      assert ReplaceAt(ns, p, x)[q[0]] == ns[q[0]];
      NodeAtSameSubtree(ns, ReplaceAt(ns, p, x), q);
    } else if |p| > 1 && |q| > 1 {
      ReplaceAtOther(ns[p[0]].children, p[1..], q[1..], x);
    }
  }

  lemma NodeAtSameSubtree(ns: seq<Node>, ms: seq<Node>, q: Path)
    requires ValidPath(ns, q) && q[0] < |ms| && ms[q[0]] == ns[q[0]]
    ensures ValidPath(ms, q) && NodeAt(ms, q) == NodeAt(ns, q)
  {
  }

  /** A path inside the element at p is p followed by a path among its children. */
  lemma {:induction false} NodeAtConcat(ns: seq<Node>, p: Path, q: Path)
    requires ValidPath(ns, p) && NodeAt(ns, p).Element? && ValidPath(NodeAt(ns, p).children, q)
    ensures ValidPath(ns, p + q) && NodeAt(ns, p + q) == NodeAt(NodeAt(ns, p).children, q)
    decreases p
  {
    assert (p + q)[0] == p[0];
    if |p| > 1 {
      assert (p + q)[1..] == p[1..] + q;
      NodeAtConcat(ns[p[0]].children, p[1..], q);
    } else {
      assert (p + q)[1..] == q;
    }
  }

  lemma PrefixCancel(p: Path, a: Path, b: Path)
    ensures IsPrefix(p + a, p + b) ==> IsPrefix(a, b)
  {
    if IsPrefix(p + a, p + b) {
      assert (p + b)[..|p + a|][|p|..] == b[..|a|];
      assert (p + a)[|p|..] == a;
    }
  }

  lemma ConcatIncomparable(p: Path, a: Path, b: Path)
    requires Incomparable(a, b)
    ensures Incomparable(p + a, p + b)
  {
    PrefixCancel(p, a, b);
    PrefixCancel(p, b, a);
  }

  lemma PairwiseConcat(xs: seq<Path>, ys: seq<Path>)
    requires PairwiseIncomparable(xs) && PairwiseIncomparable(ys)
    requires forall x <- xs, y <- ys :: Incomparable(x, y)
    ensures PairwiseIncomparable(xs + ys)
  {
    var all := xs + ys;
    forall a, b | 0 <= a < |all| && 0 <= b < |all| && a != b
      ensures Incomparable(all[a], all[b])
    {
      if a < |xs| && b < |xs| {
      } else if a >= |xs| && b >= |xs| {
        assert all[a] == ys[a - |xs|] && all[b] == ys[b - |xs|];
      } else if a < |xs| {
        assert all[a] == xs[a] && all[b] == ys[b - |xs|];
        assert all[a] in xs && all[b] in ys;
      } else {
        assert all[b] == xs[b] && all[a] == ys[a - |xs|];
        assert all[b] in xs && all[a] in ys;
      }
    }
  }

  // ---------------------------------------------------------------------
  // find_all by position, for the elements the scraper later changes in place

  function Prepend(i: nat, ps: seq<Path>): (r: seq<Path>)
    ensures |r| == |ps| && forall k :: 0 <= k < |ps| ==> r[k] == [i] + ps[k]
  {
    seq(|ps|, k requires 0 <= k < |ps| => [i] + ps[k])
  }

  /** The positions of the elements below ns matching q, in document order:
      the list find_all returns, as positions. */
  function MatchPaths(ns: seq<Node>, q: Query): (r: seq<Path>)
    ensures forall p <- r :: ValidPath(ns, p) && Matches(NodeAt(ns, p), q)
    decreases ns, |ns| + 1
  {
    MatchPathsFrom(ns, q, 0)
  }

  function MatchPathsFrom(ns: seq<Node>, q: Query, i: nat): (r: seq<Path>)
    ensures forall p <- r :: ValidPath(ns, p) && i <= p[0] && Matches(NodeAt(ns, p), q)
    decreases ns, |ns| - i
  {
    if i >= |ns| then []
    else
      var here := if Matches(ns[i], q) then [[i]] else [];
      var below := if ns[i].Element? then Prepend(i, MatchPaths(ns[i].children, q)) else [];
      assert forall p <- below :: ValidPath(ns, p) && p[0] == i && Matches(NodeAt(ns, p), q) by {
        forall p | p in below
          ensures ValidPath(ns, p) && p[0] == i && Matches(NodeAt(ns, p), q)
        {
          assert p[1..] in MatchPaths(ns[i].children, q);
        }
      }
      here + below + MatchPathsFrom(ns, q, i + 1)
  }

  /** No element matching q lies inside another one. */
  predicate NotNested(ns: seq<Node>, q: Query)
  {
    forall i :: 0 <= i < |ns| ==> NotNestedAt(ns[i], q)
  }

  predicate NotNestedAt(n: Node, q: Query)
  {
    n.Element? ==> if Matches(n, q) then FindAll(n.children, q) == [] else NotNested(n.children, q)
  }

  lemma {:induction false} FindAllEmptyNoPaths(ns: seq<Node>, q: Query, i: nat)
    requires FindAll(ns, q) == []
    ensures MatchPathsFrom(ns, q, i) == []
    decreases ns, |ns| - i
  {
    if i < |ns| {
      FindAllEmptyAt(ns, q, i);
      if ns[i].Element? {
        FindAllEmptyNoPaths(ns[i].children, q, 0);
      }
      FindAllEmptyNoPaths(ns, q, i + 1);
    }
  }

  lemma {:induction false} FindAllEmptyAt(ns: seq<Node>, q: Query, i: nat)
    requires FindAll(ns, q) == [] && i < |ns|
    ensures !Matches(ns[i], q) && (ns[i].Element? ==> FindAll(ns[i].children, q) == [])
  {
    if i > 0 {
      FindAllEmptyAt(ns[1..], q, i - 1);
      assert ns[1..][i - 1] == ns[i];
    }
  }

  lemma PrependIncomparable(i: nat, ps: seq<Path>)
    requires PairwiseIncomparable(ps)
    ensures PairwiseIncomparable(Prepend(i, ps))
  {
    var r := Prepend(i, ps);
    forall a, b | 0 <= a < |r| && 0 <= b < |r| && a != b
      ensures Incomparable(r[a], r[b])
    {
      ConcatIncomparable([i], ps[a], ps[b]);
    }
  }

  /** When matches do not nest, the positions find_all returns are pairwise
      apart: replacing the subtree at one leaves every other one in place. */
  lemma {:induction false} MatchPathsIncomparable(ns: seq<Node>, q: Query, i: nat)
    requires NotNested(ns, q)
    ensures PairwiseIncomparable(MatchPathsFrom(ns, q, i))
    decreases ns, |ns| - i
  {
    if i < |ns| {
      var here := if Matches(ns[i], q) then [[i]] else [];
      var below := if ns[i].Element? then Prepend(i, MatchPaths(ns[i].children, q)) else [];
      var rest := MatchPathsFrom(ns, q, i + 1);
      assert MatchPathsFrom(ns, q, i) == here + below + rest;
      HereBelowIncomparable(ns, q, i);
      MatchPathsIncomparable(ns, q, i + 1);
      assert forall p <- here + below :: p[0] == i;
      PairwiseConcat(here + below, rest);
    }
  }

  lemma HereBelowIncomparable(ns: seq<Node>, q: Query, i: nat)
    requires NotNested(ns, q) && i < |ns|
    ensures PairwiseIncomparable((if Matches(ns[i], q) then [[i]] else [])
      + (if ns[i].Element? then Prepend(i, MatchPaths(ns[i].children, q)) else []))
    decreases ns, 0
  {
    assert NotNestedAt(ns[i], q);
    if ns[i].Element? {
      if Matches(ns[i], q) {
        FindAllEmptyNoPaths(ns[i].children, q, 0);
        assert Prepend(i, MatchPaths(ns[i].children, q)) == [];
      } else {
        MatchPathsIncomparable(ns[i].children, q, 0);
        PrependIncomparable(i, MatchPaths(ns[i].children, q));
        assert [] + Prepend(i, MatchPaths(ns[i].children, q)) == Prepend(i, MatchPaths(ns[i].children, q));
      }
    }
  }


  // ---------------------------------------------------------------------
  // Positions and find_all agree

  predicate AllValid(ns: seq<Node>, ps: seq<Path>)
  {
    forall p <- ps :: ValidPath(ns, p)
  }

  /** The nodes at the given positions. */
  function NodesAt(ns: seq<Node>, ps: seq<Path>): (r: seq<Node>)
    requires AllValid(ns, ps)
    ensures |r| == |ps| && forall k :: 0 <= k < |ps| ==> r[k] == NodeAt(ns, ps[k])
  {
    seq(|ps|, k requires 0 <= k < |ps| => NodeAt(ns, ps[k]))
  }

  /** The positions MatchPaths lists hold exactly the elements find_all
      returns, in the same order. */
  lemma MatchPathsNodes(ns: seq<Node>, q: Query)
    ensures AllValid(ns, MatchPaths(ns, q)) && NodesAt(ns, MatchPaths(ns, q)) == FindAll(ns, q)
    decreases ns, |ns| + 1
  {
    MatchPathsFromNodes(ns, q, 0);
    assert ns[0..] == ns;
  }

  lemma {:induction false} MatchPathsFromNodes(ns: seq<Node>, q: Query, i: nat)
    requires i <= |ns|
    ensures AllValid(ns, MatchPathsFrom(ns, q, i)) && NodesAt(ns, MatchPathsFrom(ns, q, i)) == FindAll(ns[i..], q)
    decreases ns, |ns| - i
  {
    if i == |ns| {
      assert ns[i..] == [];
    } else {
      var here := if Matches(ns[i], q) then [[i]] else [];
      var below := if ns[i].Element? then Prepend(i, MatchPaths(ns[i].children, q)) else [];
      var rest := MatchPathsFrom(ns, q, i + 1);
      assert MatchPathsFrom(ns, q, i) == here + below + rest;
      MatchPathsFromNodes(ns, q, i + 1);
      var b: seq<Node> := [];
      if ns[i].Element? {
        BelowNodes(ns, q, i);
        b := FindAll(ns[i].children, q);
      }
      assert NodesAt(ns, here) == (if Matches(ns[i], q) then [ns[i]] else []);
      assert NodesAt(ns, below) == b;
      assert FindAllOf(ns[i], q) == NodesAt(ns, here) + NodesAt(ns, below);
      assert ns[i..][1..] == ns[i + 1..];
      NodesAtAppend(ns, here + below, rest);
      NodesAtAppend(ns, here, below);
    }
  }

  /** The matches inside the i-th node, seen from the forest. */
  lemma BelowNodes(ns: seq<Node>, q: Query, i: nat)
    requires i < |ns| && ns[i].Element?
    ensures var below := Prepend(i, MatchPaths(ns[i].children, q));
            AllValid(ns, below) && NodesAt(ns, below) == FindAll(ns[i].children, q)
    decreases ns, 0
  {
    var cs := ns[i].children;
    MatchPathsNodes(cs, q);
    var ps := MatchPaths(cs, q);
    var below := Prepend(i, ps);
    forall k | 0 <= k < |ps| ensures ValidPath(ns, below[k]) && NodeAt(ns, below[k]) == NodeAt(cs, ps[k]) {
      assert below[k] == [i] + ps[k];
      assert below[k][1..] == ps[k];
    }
  }

  lemma NodesAtAppend(ns: seq<Node>, a: seq<Path>, b: seq<Path>)
    requires AllValid(ns, a) && AllValid(ns, b)
    ensures AllValid(ns, a + b) && NodesAt(ns, a + b) == NodesAt(ns, a) + NodesAt(ns, b)
  {
  }

  /** Positions inside the element at p, each prefixed with p. */
  function Under(p: Path, ps: seq<Path>): (r: seq<Path>)
    ensures |r| == |ps| && forall k :: 0 <= k < |ps| ==> r[k] == p + ps[k]
  {
    seq(|ps|, k requires 0 <= k < |ps| => p + ps[k])
  }

  /** Positions found inside one element keep their relations when seen from
      the document. */
  lemma UnderNodes(ns: seq<Node>, p: Path, ps: seq<Path>)
    requires ValidPath(ns, p) && NodeAt(ns, p).Element?
    requires AllValid(NodeAt(ns, p).children, ps)
    ensures AllValid(ns, Under(p, ps)) && NodesAt(ns, Under(p, ps)) == NodesAt(NodeAt(ns, p).children, ps)
    ensures PairwiseIncomparable(ps) ==> PairwiseIncomparable(Under(p, ps))
  {
    var r := Under(p, ps);
    forall k | 0 <= k < |ps|
      ensures ValidPath(ns, r[k]) && NodeAt(ns, r[k]) == NodeAt(NodeAt(ns, p).children, ps[k])
    {
      NodeAtConcat(ns, p, ps[k]);
    }
    if PairwiseIncomparable(ps) {
      forall a, b | 0 <= a < |r| && 0 <= b < |r| && a != b
        ensures Incomparable(r[a], r[b])
      {
        ConcatIncomparable(p, ps[a], ps[b]);
      }
    }
  }

  // ---------------------------------------------------------------------
  // Several in-place updates at once

  /** Putting back the node that is already at p changes nothing. */
  lemma {:induction false} ReplaceAtSelf(ns: seq<Node>, p: Path)
    requires ValidPath(ns, p)
    ensures ReplaceAt(ns, p, NodeAt(ns, p)) == ns
    decreases p
  {
    if |p| > 1 {
      ReplaceAtSelf(ns[p[0]].children, p[1..]);
    }
  }

  /** Replacing the node at p twice keeps only the second replacement. */
  lemma {:induction false} ReplaceAtTwice(ns: seq<Node>, p: Path, x: Node, y: Node)
    requires ValidPath(ns, p)
    ensures ValidPath(ReplaceAt(ns, p, x), p)
    ensures ReplaceAt(ReplaceAt(ns, p, x), p, y) == ReplaceAt(ns, p, y)
    decreases p
  {
    ReplaceAtSame(ns, p, x);
    if |p| > 1 {
      ReplaceAtTwice(ns[p[0]].children, p[1..], x, y);
    }
  }

  /** The tree with the node at each position ps[k] replaced by xs[k]. */
  function ReplaceEach(ns: seq<Node>, ps: seq<Path>, xs: seq<Node>): (r: seq<Node>)
    requires |ps| == |xs| && AllValid(ns, ps) && PairwiseIncomparable(ps)
    ensures AllValid(r, ps)
    ensures forall k :: 0 <= k < |ps| ==> NodeAt(r, ps[k]) == xs[k]
    decreases |ps|, 0
  {
    if ps == [] then ns
    else
      var n := |ps| - 1;
      var before := ReplaceEach(ns, ps[..n], xs[..n]);
      assert forall p <- ps[..n] :: Incomparable(p, ps[n]) by {
        forall p | p in ps[..n] ensures Incomparable(p, ps[n]) {
          var k :| 0 <= k < n && ps[..n][k] == p;
          assert ps[k] == p;
        }
      }
      ReplaceEachOther(ns, ps[..n], xs[..n], ps[n]);
      ReplaceAtSame(before, ps[n], xs[n]);
      assert forall k :: 0 <= k < n ==>
        ValidPath(ReplaceAt(before, ps[n], xs[n]), ps[k]) && NodeAt(ReplaceAt(before, ps[n], xs[n]), ps[k]) == xs[k] by {
        forall k | 0 <= k < n
          ensures ValidPath(ReplaceAt(before, ps[n], xs[n]), ps[k]) && NodeAt(ReplaceAt(before, ps[n], xs[n]), ps[k]) == xs[k]
        {
          assert ps[..n][k] == ps[k] && xs[..n][k] == xs[k];
          ReplaceAtOther(before, ps[n], ps[k], xs[n]);
        }
      }
      ReplaceAt(before, ps[n], xs[n])
  }

  /** The replacements leave every position outside all of them valid and
      unchanged. */
  lemma {:induction false} ReplaceEachOther(ns: seq<Node>, ps: seq<Path>, xs: seq<Node>, q: Path)
    requires |ps| == |xs| && AllValid(ns, ps) && PairwiseIncomparable(ps)
    requires ValidPath(ns, q) && forall p <- ps :: Incomparable(p, q)
    ensures ValidPath(ReplaceEach(ns, ps, xs), q) && NodeAt(ReplaceEach(ns, ps, xs), q) == NodeAt(ns, q)
    decreases |ps|, 1
  {
    if ps != [] {
      var n := |ps| - 1;
      var before := ReplaceEach(ns, ps[..n], xs[..n]);
      assert ps[n] in ps;
      ReplaceEachOther(ns, ps[..n], xs[..n], q);
      ReplaceEachOther(ns, ps[..n], xs[..n], ps[n]) by {
        forall p | p in ps[..n] ensures Incomparable(p, ps[n]) {
          var k :| 0 <= k < n && ps[..n][k] == p;
          assert ps[k] == p;
        }
      }
      ReplaceAtOther(before, ps[n], q, xs[n]);
    }
  }
}
