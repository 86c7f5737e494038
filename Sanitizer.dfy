// clean_article (blog_scraper_skuad.py:73-126) on values: the removal of
// blocklisted subtrees, and the pass over every descendant that unwraps
// tags outside the allowlist and rewrites the attributes of the rest. The
// in-place update of the document is in module Scraper (Soup.CleanArticleAt).

module Sanitizer {
  import opened Options
  import opened Strings
  import opened Dom
  import opened Urls

  /** The sixteen tags the sanitiser keeps. */
  predicate Allowed(tag: string)
  {
    tag in {"p", "h1", "h2", "h3", "ul", "ol", "li", "img", "strong", "em", "b", "i", "a",
            "blockquote", "code", "pre"}
  }

  /** Page furniture removed with everything inside it, in the order the
      selectors are applied. */
  const Blocklist: seq<Query> := [
    TagWithClasses("div", ["py-blog-cta"]),
    TagWithClasses("div", ["toc-wrapper-new"]),
    TagWithClasses("div", ["t-toc-stick"]),
    TagWithClasses("div", ["blog-form"]),
    TagWithClasses("div", ["normal-lead-magnet"]),
    TagWithClasses("div", ["accordion-trigger"]),
    TagWithClasses("div", ["toc-accordion-item"]),
    TagWithClasses("script", []),
    TagWithClasses("style", []),
    TagWithClasses("svg", []),
    TagWithClasses("noscript", [])
  ]

  // ---------------------------------------------------------------------
  // Step 1: for t in node.select(sel): t.decompose()

  /** The forest ns with every subtree whose root matches q removed. */
  function RemoveMatching(ns: seq<Node>, q: Query): (r: seq<Node>)
    ensures FindAll(r, q) == []
    decreases ns
  {
    if ns == [] then []
    else
      var a := RemoveMatchingOf(ns[0], q);
      var b := RemoveMatching(ns[1..], q);
      FindAllAppend(a, b, q);
      a + b
  }

  function RemoveMatchingOf(n: Node, q: Query): (r: seq<Node>)
    ensures FindAll(r, q) == []
    decreases n
  {
    match n
    case Text(_) => [n]
    case Element(tag, attrs, cs) =>
      if Matches(n, q) then []
      else
        var e := Element(tag, attrs, RemoveMatching(cs, q));
        assert [e][1..] == [];
        [e]
  }

  /** Removing the matches of one selector never brings back a match of
      another. */
  lemma {:induction false} RemoveKeepsAbsent(ns: seq<Node>, q: Query, other: Query)
    requires FindAll(ns, other) == []
    ensures FindAll(RemoveMatching(ns, q), other) == []
    decreases ns
  {
    if ns != [] {
      var a := RemoveMatchingOf(ns[0], q);
      RemoveKeepsAbsent(ns[1..], q, other);
      FindAllAppend(a, RemoveMatching(ns[1..], q), other);
      if ns[0].Element? && !Matches(ns[0], q) {
        RemoveKeepsAbsent(ns[0].children, q, other);
        assert [a[0]][1..] == [];
        assert a == [a[0]];
      }
    }
  }

  /** With nothing to remove, the removal changes nothing. */
  lemma {:induction false} RemoveMatchingNoop(ns: seq<Node>, q: Query)
    requires FindAll(ns, q) == []
    ensures RemoveMatching(ns, q) == ns
    decreases ns
  {
    if ns != [] {
      RemoveMatchingNoop(ns[1..], q);
      if ns[0].Element? {
        RemoveMatchingNoop(ns[0].children, q);
      }
      assert ns == [ns[0]] + ns[1..];
    }
  }

  /** The removals for the selectors sels, applied in order. */
  function RemoveEach(ns: seq<Node>, sels: seq<Query>): seq<Node>
    decreases |sels|
  {
    if sels == [] then ns
    else RemoveMatching(RemoveEach(ns, sels[..|sels| - 1]), sels[|sels| - 1])
  }

  /** One more selector removes its matches from what the earlier ones left. */
  lemma RemoveEachStep(ns: seq<Node>, sels: seq<Query>, i: nat)
    requires i < |sels|
    ensures RemoveEach(ns, sels[..i + 1]) == RemoveMatching(RemoveEach(ns, sels[..i]), sels[i])
  {
    assert sels[..i + 1][..i] == sels[..i];
  }

  /** After the removals no selector matches anything: a later removal never
      brings back what an earlier one took out. */
  lemma {:induction false} RemoveEachClears(ns: seq<Node>, sels: seq<Query>)
    ensures forall q <- sels :: FindAll(RemoveEach(ns, sels), q) == []
    decreases |sels|
  {
    if sels != [] {
      var before := RemoveEach(ns, sels[..|sels| - 1]);
      var last := sels[|sels| - 1];
      RemoveEachClears(ns, sels[..|sels| - 1]);
      forall q | q in sels ensures FindAll(RemoveMatching(before, last), q) == [] {
        if q != last {
          assert q in sels[..|sels| - 1];
          RemoveKeepsAbsent(before, last, q);
        }
      }
    }
  }

  lemma {:induction false} RemoveEachNoop(ns: seq<Node>, sels: seq<Query>)
    requires forall q <- sels :: FindAll(ns, q) == []
    ensures RemoveEach(ns, sels) == ns
    decreases |sels|
  {
    if sels != [] {
      RemoveEachNoop(ns, sels[..|sels| - 1]);
      RemoveMatchingNoop(ns, sels[|sels| - 1]);
    }
  }

  /** A forest whose elements all carry allowed tags holds nothing the
      blocklist names: none of its tags is allowed. */
  lemma AllowedNotBlocked(ns: seq<Node>)
    requires forall e <- Elements(ns) :: Allowed(e.tag)
    ensures forall q <- Blocklist :: FindAll(ns, q) == []
  {
    forall k | 0 <= k < |Blocklist| ensures FindAll(ns, Blocklist[k]) == [] {
      BlocklistDisallowed(k);
      NoMatchOfDisallowed(ns, Blocklist[k]);
    }
  }

  /** No blocklisted tag is on the allowlist. */
  lemma BlocklistDisallowed(k: nat)
    requires k < |Blocklist|
    ensures Blocklist[k].TagWithClasses? && !Allowed(Blocklist[k].tag)
  {
    var tag := Blocklist[k].tag;
    assert tag == "div" || tag == "script" || tag == "style" || tag == "svg" || tag == "noscript";
  }

  lemma {:induction false} NoMatchOfDisallowed(ns: seq<Node>, q: Query)
    requires forall e <- Elements(ns) :: Allowed(e.tag)
    requires q.TagWithClasses? && !Allowed(q.tag)
    ensures FindAll(ns, q) == []
    decreases ns
  {
    if ns != [] {
      NoMatchOfDisallowed(ns[1..], q);
      if ns[0].Element? {
        assert ns[0] in ElementsOf(ns[0]);
        NoMatchOfDisallowed(ns[0].children, q);
      }
    }
  }

  // ---------------------------------------------------------------------
  // Step 2: for tag in list(node.find_all(True)): unwrap, or rewrite attrs

  /** (alt or "Image").strip() */
  function AltText(attrs: Attrs): (r: string)
    ensures Strip(r) == r
    ensures Get(attrs, "alt") == "" ==> r == "Image"
    ensures Get(attrs, "alt") != "" ==> r == Strip(Get(attrs, "alt"))
  {
    var alt := if Get(attrs, "alt") != "" then Get(attrs, "alt") else "Image";
    TrimFixpoint(alt, IsSpace);
    StripImage();
    Strip(alt)
  }

  lemma StripImage()
    ensures Strip("Image") == "Image"
  {
    var s := "Image";
    assert s[0] == 'I' && s[|s| - 1] == 'e';
    assert !IsSpace(s[0]) && !IsSpace(s[|s| - 1]);
    TrimFixpoint(s, IsSpace);
  }

  /** {"href": href} if the stripped href is non-empty, else {}. */
  function LinkAttrs(attrs: Attrs): (r: Attrs)
    ensures r == [] <==> Strip(Get(attrs, "href")) == ""
    ensures r != [] ==> r == [("href", Strip(Get(attrs, "href")))] && Strip(r[0].1) == r[0].1
  {
    var href := Strip(Get(attrs, "href"));
    TrimFixpoint(Get(attrs, "href"), IsSpace);
    if href != "" then [("href", href)] else []
  }

  /** The shape of an element the sanitiser leaves below the article: an
      allowed tag; an img with exactly a non-empty, absolutised src and a
      stripped alt; an a with nothing or a non-empty stripped href; nothing
      on any other element. */
  predicate SafeElement(e: Node)
  {
    e.Element? && Allowed(e.tag) &&
    if e.tag == "img" then
      |e.attrs| == 2 && e.attrs[0].0 == "src" && e.attrs[1].0 == "alt"
      && e.attrs[0].1 != "" && !StartsWith(e.attrs[0].1, "//") && Strip(e.attrs[1].1) == e.attrs[1].1
    else if e.tag == "a" then
      e.attrs == [] || (|e.attrs| == 1 && e.attrs[0].0 == "href" && e.attrs[0].1 != "" && Strip(e.attrs[0].1) == e.attrs[0].1)
    else
      e.attrs == []
  }

  /** An allowed element that stays, with its new attributes and its
      sanitised children. */
  function Keep(tag: string, attrs: Attrs, kids: Option<seq<Node>>): Option<seq<Node>>
  {
    match kids
    case None => None
    case Some(k) => Some([Element(tag, attrs, k)])
  }

  /** The descendants of the article after the pass, in document order.
      None: an img whose first srcset candidate is blank raised IndexError. */
  function SanitizeNodes(ns: seq<Node>): (r: Option<seq<Node>>)
    ensures r.Some? ==> forall e <- Elements(r.value) :: SafeElement(e)
    decreases ns
  {
    if ns == [] then Some([])
    else
      match SanitizeNode(ns[0])
      case None => None
      case Some(a) =>
        match SanitizeNodes(ns[1..])
        case None => None
        case Some(b) =>
          ElementsAppend(a, b);
          Some(a + b)
  }

  function SanitizeNode(n: Node): (r: Option<seq<Node>>)
    ensures r.Some? ==> forall e <- Elements(r.value) :: SafeElement(e)
    decreases n
  {
    match n
    case Text(_) => Some([n])
    case Element(tag, attrs, cs) =>
      var kids := SanitizeNodes(cs);
      if !Allowed(tag) then
        // tag.unwrap(): the children take the element's place
        kids
      else if tag == "img" then
        match ResolveImageSrc(attrs)
        case None => None
        case Some(src) =>
          if src == "" then Some([])  // tag.decompose()
          else
            KeepSafe("img", [("src", src), ("alt", AltText(attrs))], kids);
            Keep("img", [("src", src), ("alt", AltText(attrs))], kids)
      else if tag == "a" then
        KeepSafe("a", LinkAttrs(attrs), kids);
        Keep("a", LinkAttrs(attrs), kids)
      else
        KeepSafe(tag, [], kids);
        Keep(tag, [], kids)
  }

  /** A kept element is safe when its own tag and attributes are and its
      sanitised children are. */
  lemma KeepSafe(tag: string, attrs: Attrs, kids: Option<seq<Node>>)
    requires SafeElement(Element(tag, attrs, []))
    requires kids.Some? ==> forall e <- Elements(kids.value) :: SafeElement(e)
    ensures Keep(tag, attrs, kids).Some? ==> forall e <- Elements(Keep(tag, attrs, kids).value) :: SafeElement(e)
  {
    if kids.Some? {
      var e := Element(tag, attrs, kids.value);
      assert [e][1..] == [];
      assert Elements([e]) == [e] + Elements(kids.value);
    }
  }

  /** clean_article: the article keeps its own tag and attributes (select and
      find_all only reach descendants); what is below it is the blocklist
      removal followed by the sanitiser. */
  function CleanArticle(article: Node): (r: Option<Node>)
    requires article.Element?
    ensures r.Some? ==> r.value.Element? && r.value.tag == article.tag && r.value.attrs == article.attrs
  {
    match SanitizeNodes(RemoveEach(article.children, Blocklist))
    case None => None
    case Some(kids) => Some(Element(article.tag, article.attrs, kids))
  }

  /** Below a cleaned article the blocklisted subtrees are gone and every
      element has the safe shape. */
  lemma CleanArticleSafe(article: Node)
    requires article.Element? && CleanArticle(article).Some?
    ensures forall e <- Elements(CleanArticle(article).value.children) :: SafeElement(e)
    ensures forall q <- Blocklist :: FindAll(CleanArticle(article).value.children, q) == []
  {
    AllowedNotBlocked(CleanArticle(article).value.children);
  }

  // ---------------------------------------------------------------------
  // The same pass as a rewrite of the tag stream: each start tag, end tag
  // and text of the document, in order, is kept, rewritten or dropped on
  // its own. The end tag carries its element's attributes so that it can be
  // rewritten alone.

  datatype Token = Open(tag: string, attrs: Attrs) | Close(tag: string, attrs: Attrs) | Chars(text: string)

  function Tokens(ns: seq<Node>): seq<Token>
    decreases ns
  {
    if ns == [] then [] else TokensOf(ns[0]) + Tokens(ns[1..])
  }

  function TokensOf(n: Node): seq<Token>
    decreases n
  {
    match n
    case Text(t) => [Chars(t)]
    case Element(tag, attrs, cs) => [Open(tag, attrs)] + Tokens(cs) + [Close(tag, attrs)]
  }

  lemma {:induction false} TokensAppend(a: seq<Node>, b: seq<Node>)
    ensures Tokens(a + b) == Tokens(a) + Tokens(b)
  {
    if a == [] {
      assert a + b == b;
    } else {
      assert (a + b)[1..] == a[1..] + b;
      TokensAppend(a[1..], b);
    }
  }

  /** Step 1 on the tag stream: a start tag whose element matches q is
      dropped together with everything up to its own end tag; depth counts
      the start tags still open inside a dropped element. */
  function DropMatched(ts: seq<Token>, q: Query, depth: nat): seq<Token>
    decreases ts
  {
    if ts == [] then []
    else if depth == 0 then
      if ts[0].Open? && Matches(Element(ts[0].tag, ts[0].attrs, []), q) then DropMatched(ts[1..], q, 1)
      else [ts[0]] + DropMatched(ts[1..], q, 0)
    else
      match ts[0]
      case Open(_, _) => DropMatched(ts[1..], q, depth + 1)
      case Close(_, _) => DropMatched(ts[1..], q, depth - 1)
      case Chars(_) => DropMatched(ts[1..], q, depth)
  }

  /** The removal keeps every tag and text outside the matched subtrees, in
      order, and drops exactly the spans of the matched ones. */
  lemma RemoveMatchingTokens(ns: seq<Node>, q: Query)
    ensures Tokens(RemoveMatching(ns, q)) == DropMatched(Tokens(ns), q, 0)
  {
    RemoveTokensThen(ns, q, []);
    assert Tokens(ns) + [] == Tokens(ns);
    assert Tokens(RemoveMatching(ns, q)) + [] == Tokens(RemoveMatching(ns, q));
  }

  lemma {:induction false} RemoveTokensThen(ns: seq<Node>, q: Query, rest: seq<Token>)
    ensures Tokens(RemoveMatching(ns, q)) + DropMatched(rest, q, 0) == DropMatched(Tokens(ns) + rest, q, 0)
    decreases ns, 1
  {
    if ns != [] {
      var a := RemoveMatchingOf(ns[0], q);
      var b := RemoveMatching(ns[1..], q);
      calc {
        Tokens(RemoveMatching(ns, q)) + DropMatched(rest, q, 0);
          { assert RemoveMatching(ns, q) == a + b; TokensAppend(a, b); }
        (Tokens(a) + Tokens(b)) + DropMatched(rest, q, 0);
        Tokens(a) + (Tokens(b) + DropMatched(rest, q, 0));
          { RemoveTokensThen(ns[1..], q, rest); }
        Tokens(a) + DropMatched(Tokens(ns[1..]) + rest, q, 0);
          { RemoveTokensThenOf(ns[0], q, Tokens(ns[1..]) + rest); }
        DropMatched(TokensOf(ns[0]) + (Tokens(ns[1..]) + rest), q, 0);
          { assert Tokens(ns) + rest == TokensOf(ns[0]) + (Tokens(ns[1..]) + rest); }
        DropMatched(Tokens(ns) + rest, q, 0);
      }
    } else {
      assert Tokens(ns) + rest == rest;
      assert Tokens(RemoveMatching(ns, q)) + DropMatched(rest, q, 0) == DropMatched(rest, q, 0);
    }
  }

  lemma {:induction false} RemoveTokensThenOf(n: Node, q: Query, rest: seq<Token>)
    ensures Tokens(RemoveMatchingOf(n, q)) + DropMatched(rest, q, 0) == DropMatched(TokensOf(n) + rest, q, 0)
    decreases n, 0
  {
    match n
    case Text(t) =>
      assert Tokens([n]) == [Chars(t)];
      assert ([Chars(t)] + rest)[1..] == rest;
    case Element(tag, attrs, cs) =>
      var inner := Tokens(cs) + ([Close(tag, attrs)] + rest);
      assert TokensOf(n) + rest == [Open(tag, attrs)] + inner;
      assert ([Open(tag, attrs)] + inner)[1..] == inner;
      assert ([Close(tag, attrs)] + rest)[1..] == rest;
      if Matches(n, q) {
        SkipTokens(cs, q, [Close(tag, attrs)] + rest, 1);
      } else {
        KeepTokens(tag, attrs, cs, q, rest);
      }
  }

  /** An element that does not match keeps its own tags, with the removal
      applied to what lies between them. */
  lemma KeepTokens(tag: string, attrs: Attrs, cs: seq<Node>, q: Query, rest: seq<Token>)
    requires !Matches(Element(tag, attrs, cs), q)
    ensures Tokens(RemoveMatchingOf(Element(tag, attrs, cs), q)) + DropMatched(rest, q, 0)
         == [Open(tag, attrs)] + DropMatched(Tokens(cs) + ([Close(tag, attrs)] + rest), q, 0)
    decreases cs, 2
  {
    var e := Element(tag, attrs, RemoveMatching(cs, q));
    var close := [Close(tag, attrs)];
    assert Tokens([e]) == TokensOf(e) + Tokens([]);
    RemoveTokensThen(cs, q, close + rest);
    assert (close + rest)[1..] == rest;
    assert DropMatched(close + rest, q, 0) == close + DropMatched(rest, q, 0);
  }

  /** Inside a dropped element, a whole subtree's tags leave the depth as it
      was: they are skipped as a block. */
  lemma {:induction false} SkipTokens(ns: seq<Node>, q: Query, rest: seq<Token>, depth: nat)
    requires depth > 0
    ensures DropMatched(Tokens(ns) + rest, q, depth) == DropMatched(rest, q, depth)
    decreases ns, 1
  {
    if ns != [] {
      SkipTokens(ns[1..], q, rest, depth);
      SkipTokensOf(ns[0], q, Tokens(ns[1..]) + rest, depth);
      assert Tokens(ns) + rest == TokensOf(ns[0]) + (Tokens(ns[1..]) + rest);
    } else {
      assert Tokens(ns) + rest == rest;
    }
  }

  lemma {:induction false} SkipTokensOf(n: Node, q: Query, rest: seq<Token>, depth: nat)
    requires depth > 0
    ensures DropMatched(TokensOf(n) + rest, q, depth) == DropMatched(rest, q, depth)
    decreases n, 0
  {
    match n
    case Text(t) =>
      assert ([Chars(t)] + rest)[1..] == rest;
    case Element(tag, attrs, cs) =>
      var inner := Tokens(cs) + ([Close(tag, attrs)] + rest);
      assert TokensOf(n) + rest == [Open(tag, attrs)] + inner;
      assert ([Open(tag, attrs)] + inner)[1..] == inner;
      assert ([Close(tag, attrs)] + rest)[1..] == rest;
      SkipTokens(cs, q, [Close(tag, attrs)] + rest, depth + 1);
  }

  /** What becomes of an element's own tags: None when they vanish (the
      element is unwrapped, or is an img without any reference), else the
      attributes it keeps. */
  function NewAttrs(tag: string, attrs: Attrs): Option<Attrs>
  {
    if !Allowed(tag) then None
    else if tag == "img" then
      match ResolveImageSrc(attrs)
      case Some(src) => if src == "" then None else Some([("src", src), ("alt", AltText(attrs))])
      case None => None
    else if tag == "a" then Some(LinkAttrs(attrs))
    else Some([])
  }

  function RewriteToken(t: Token): seq<Token>
  {
    match t
    case Chars(_) => [t]
    case Open(tag, attrs) => if NewAttrs(tag, attrs).Some? then [Open(tag, NewAttrs(tag, attrs).value)] else []
    case Close(tag, attrs) => if NewAttrs(tag, attrs).Some? then [Close(tag, NewAttrs(tag, attrs).value)] else []
  }

  function RewriteTokens(ts: seq<Token>): seq<Token>
  {
    if ts == [] then [] else RewriteToken(ts[0]) + RewriteTokens(ts[1..])
  }

  lemma {:induction false} RewriteAppend(a: seq<Token>, b: seq<Token>)
    ensures RewriteTokens(a + b) == RewriteTokens(a) + RewriteTokens(b)
  {
    if a == [] {
      assert a + b == b;
    } else {
      assert (a + b)[1..] == a[1..] + b;
      RewriteAppend(a[1..], b);
    }
  }

  /** On a parsed tree the sanitiser rewrites the tag stream token by token:
      every text stays where it was, the tags of an unwrapped element vanish
      while its children stay in place and in order, a removed img takes
      nothing else with it, and every kept tag gets exactly its new
      attributes. */
  lemma {:induction false} SanitizeTokens(ns: seq<Node>)
    requires Parsed(ns) && SanitizeNodes(ns).Some?
    ensures Tokens(SanitizeNodes(ns).value) == RewriteTokens(Tokens(ns))
    decreases ns
  {
    if ns != [] {
      assert ParsedNode(ns[0]) && Parsed(ns[1..]);
      var a := SanitizeNode(ns[0]).value;
      var b := SanitizeNodes(ns[1..]).value;
      SanitizeTokensOf(ns[0]);
      SanitizeTokens(ns[1..]);
      TokensAppend(a, b);
      RewriteAppend(TokensOf(ns[0]), Tokens(ns[1..]));
    }
  }

  lemma {:induction false} SanitizeTokensOf(n: Node)
    requires ParsedNode(n) && SanitizeNode(n).Some?
    ensures Tokens(SanitizeNode(n).value) == RewriteTokens(TokensOf(n))
    decreases n
  {
    match n
    case Text(t) =>
      assert [n][1..] == [];
      assert [Chars(t)][1..] == [];
    case Element(tag, attrs, cs) =>
      var open := [Open(tag, attrs)];
      var close := [Close(tag, attrs)];
      RewriteAppend(open + Tokens(cs), close);
      RewriteAppend(open, Tokens(cs));
      assert open[1..] == [] && close[1..] == [];
      assert RewriteTokens(TokensOf(n)) == RewriteToken(Open(tag, attrs)) + RewriteTokens(Tokens(cs)) + RewriteToken(Close(tag, attrs));
      if tag == "img" && Allowed(tag) {
        assert "img" in VoidElements;
        assert cs == [];
      }
      if NewAttrs(tag, attrs).None? {
        if Allowed(tag) {
          assert SanitizeNode(n).value == [];
        } else {
          SanitizeTokens(cs);
        }
      } else {
        var a := NewAttrs(tag, attrs).value;
        SanitizeTokens(cs);
        var kids := SanitizeNodes(cs).value;
        assert SanitizeNode(n).value == [Element(tag, a, kids)];
        assert [Element(tag, a, kids)][1..] == [];
      }
  }

  /** An img whose first srcset candidate is blank, with no other reference. */
  predicate BadImage(e: Node)
  {
    e.Element? && e.tag == "img" && ResolveImageSrc(e.attrs).None?
  }

  /** On a parsed tree the pass raises exactly when some img below has a
      blank first srcset candidate and no other reference. */
  lemma {:induction false} SanitizeFailsIff(ns: seq<Node>)
    requires Parsed(ns)
    ensures SanitizeNodes(ns).None? <==> exists e <- Elements(ns) :: BadImage(e)
    decreases ns
  {
    if ns != [] {
      assert ParsedNode(ns[0]) && Parsed(ns[1..]);
      SanitizeFailsIffOf(ns[0]);
      SanitizeFailsIff(ns[1..]);
    }
  }

  lemma {:induction false} SanitizeFailsIffOf(n: Node)
    requires ParsedNode(n)
    ensures SanitizeNode(n).None? <==> exists e <- ElementsOf(n) :: BadImage(e)
    decreases n
  {
    if n.Element? {
      SanitizeFailsIff(n.children);
      SanitizeNodeFails(n);
      var rest := Elements(n.children);
      assert ElementsOf(n) == [n] + rest;
      assert (exists e <- ElementsOf(n) :: BadImage(e)) <==> BadImage(n) || exists e <- rest :: BadImage(e);
    }
  }

  /** A parsed element fails exactly when it is a bad img or one of its
      children fails (an img has no children to fail). */
  lemma SanitizeNodeFails(n: Node)
    requires ParsedNode(n) && n.Element?
    ensures SanitizeNode(n).None? <==> BadImage(n) || SanitizeNodes(n.children).None?
  {
    if n.tag == "img" {
      assert "img" in VoidElements && n.children == [];
    }
  }

  // ---------------------------------------------------------------------
  // Running clean_article a second time

  /** An img whose alt attribute ended up empty. */
  predicate BlankAlt(e: Node)
  {
    e.Element? && e.tag == "img" && Get(e.attrs, "alt") == ""
  }

  /** A forest of safe elements without a blank alt goes through the pass
      unchanged. */
  lemma {:induction false} SanitizeFixpoint(ns: seq<Node>)
    requires forall e <- Elements(ns) :: SafeElement(e) && !BlankAlt(e)
    ensures SanitizeNodes(ns) == Some(ns)
    decreases ns
  {
    if ns != [] {
      SanitizeFixpointOf(ns[0]);
      SanitizeFixpoint(ns[1..]);
      assert ns == [ns[0]] + ns[1..];
    }
  }

  lemma {:induction false} SanitizeFixpointOf(n: Node)
    requires forall e <- ElementsOf(n) :: SafeElement(e) && !BlankAlt(e)
    ensures SanitizeNode(n) == Some([n])
    decreases n
  {
    if n.Element? {
      assert n in ElementsOf(n);
      assert Elements(n.children) == ElementsOf(n)[1..];
      SanitizeFixpoint(n.children);
      if n.tag == "img" {
        SafeImageFixed(n);
      } else if n.tag == "a" {
        SafeLinkFixed(n);
      }
    }
  }

  /** The sanitiser gives a safe img with a non-blank alt its own attributes
      back. */
  lemma SafeImageFixed(e: Node)
    requires SafeElement(e) && !BlankAlt(e) && e.tag == "img"
    ensures ResolveImageSrc(e.attrs) == Some(e.attrs[0].1) && e.attrs[0].1 != ""
    ensures e.attrs == [("src", e.attrs[0].1), ("alt", AltText(e.attrs))]
  {
    var attrs := e.attrs;
    assert Get(attrs, "src") == attrs[0].1;
    assert ImageSrcAttributes[0] == "src";
    assert FirstNonEmpty(attrs, ImageSrcAttributes) == attrs[0].1;
    assert Get(attrs, "alt") == attrs[1].1;
  }

  /** ... and a safe link its own href. */
  lemma SafeLinkFixed(e: Node)
    requires SafeElement(e) && e.tag == "a"
    ensures LinkAttrs(e.attrs) == e.attrs
  {
    if e.attrs != [] {
      assert Get(e.attrs, "href") == e.attrs[0].1;
    }
  }

  /** Cleaning an already cleaned article changes nothing, unless an img in
      it was left with an empty alt: the second run writes "Image" there. */
  lemma CleanArticleIdempotentUnlessBlankAlt(article: Node)
    requires article.Element? && CleanArticle(article).Some?
    requires forall e <- Elements(CleanArticle(article).value.children) :: !BlankAlt(e)
    ensures CleanArticle(CleanArticle(article).value) == CleanArticle(article)
  {
    var kids := CleanArticle(article).value.children;
    CleanArticleSafe(article);
    RemoveEachNoop(kids, Blocklist);
    SanitizeFixpoint(kids);
  }

  /** An img whose alt is only whitespace: the first run leaves alt empty,
      the second replaces it by "Image". */
  lemma BlankAltNotIdempotent()
    ensures var once := Element("img", [("src", "https://x.io/a.png"), ("alt", "")], []);
            CleanArticle(Element("article", [], [Element("img", [("src", "https://x.io/a.png"), ("alt", " ")], [])]))
              == Some(Element("article", [], [once]))
            && CleanArticle(Element("article", [], [once]))
              == Some(Element("article", [], [Element("img", [("src", "https://x.io/a.png"), ("alt", "Image")], [])]))
  {
    var src := "https://x.io/a.png";
    CleanSingleImage(src, " ", "");
    CleanSingleImage(src, "", "Image");
  }

  /** An article holding one img with a usable src: cleaning keeps the src
      and sets the alt the sanitiser computes. */
  lemma CleanSingleImage(src: string, alt: string, newAlt: string)
    requires src == "https://x.io/a.png"
    requires (alt == " " && newAlt == "") || (alt == "" && newAlt == "Image")
    ensures CleanArticle(Element("article", [], [Element("img", [("src", src), ("alt", alt)], [])]))
              == Some(Element("article", [], [Element("img", [("src", src), ("alt", newAlt)], [])]))
  {
    var img := Element("img", [("src", src), ("alt", alt)], []);
    SingleImageKept(img);
    SanitizeSingleImage(src, alt, newAlt);
    SanitizeOne(img);
  }

  /** The blocklist removal leaves a lone img alone. */
  lemma SingleImageKept(img: Node)
    requires img.Element? && img.tag == "img" && img.children == []
    ensures RemoveEach([img], Blocklist) == [img]
  {
    assert Elements([img]) == [img] by { assert [img][1..] == []; }
    AllowedNotBlocked([img]);
    RemoveEachNoop([img], Blocklist);
  }

  /** A forest of one node is sanitised as that node. */
  lemma SanitizeOne(n: Node)
    ensures SanitizeNodes([n]) == SanitizeNode(n)
  {
    assert [n][1..] == [];
    if SanitizeNode(n).Some? {
      assert SanitizeNode(n).value + [] == SanitizeNode(n).value;
    }
  }

  lemma SanitizeSingleImage(src: string, alt: string, newAlt: string)
    requires src == "https://x.io/a.png"
    requires (alt == " " && newAlt == "") || (alt == "" && newAlt == "Image")
    ensures SanitizeNode(Element("img", [("src", src), ("alt", alt)], []))
              == Some([Element("img", [("src", src), ("alt", newAlt)], [])])
  {
    var attrs := [("src", src), ("alt", alt)];
    ProtocolRelativeCheck(src);
    SrcFirst(attrs);
    AltOf(attrs, alt, newAlt);
  }

  /** A non-empty src that is not protocol-relative is the image reference. */
  lemma SrcFirst(attrs: Attrs)
    requires attrs != [] && attrs[0].0 == "src" && attrs[0].1 != "" && !StartsWith(attrs[0].1, "//")
    ensures ResolveImageSrc(attrs) == Some(attrs[0].1)
  {
    assert Get(attrs, "src") == attrs[0].1;
    assert ImageSrcAttributes[0] == "src";
  }

  lemma AltOf(attrs: Attrs, alt: string, newAlt: string)
    requires |attrs| == 2 && attrs[0].0 == "src" && attrs[1] == ("alt", alt)
    requires (alt == " " && newAlt == "") || (alt == "" && newAlt == "Image")
    ensures AltText(attrs) == newAlt
  {
    assert Get(attrs, "alt") == alt;
    if alt == " " {
      assert Strip(" ") == "" by { assert IsSpace(' '); }
    }
  }

  lemma ProtocolRelativeCheck(src: string)
    requires src == "https://x.io/a.png"
    ensures src != "" && !StartsWith(src, "//")
  {
    assert src[0] == 'h';
  }
}
