// The top of blog_scraper_skuad.py: the title fallback chain (extract_title),
// the article builder that cleans every rich article of the document in
// place and joins them (build_combined_article_html), the image gathering
// over the document as the builder left it (extract_all_images), and the
// reply scrape_blog assembles from the three.

module Scraper {
  import opened Options
  import opened Strings
  import opened Dom
  import opened Urls
  import opened Sanitizer
  import opened Collector

  const HeroQ: Query := TagWithClasses("div", ["py-blog-image"])
  const ContentQ: Query := TagWithClasses("div", ["blog-content-new"])
  const RichQ: Query := TagWithClasses("article", ["blog-details-rich"])
  const H1Q: Query := TagWithClasses("h1", [])

  // ---------------------------------------------------------------------
  // extract_title

  /** The selectors extract_title tries, in order. */
  const TitleSelectors: seq<Selector> := [
    Descendant(TagWithClasses("div", ["container-new"]), TagWithClasses("h1", ["payo-h1"])),
    Simple(TagWithClasses("h1", ["payo-h1"])),
    Simple(TagWithClasses("h1", ["mt-2", "payo-h1"])),
    Simple(H1Q)
  ]

  /** get_text(strip=True) of the first match of sel, or "" when nothing
      matches. */
  function SelectedText(ns: seq<Node>, sel: Selector): string
  {
    match SelectOne(ns, sel)
    case None => ""
    case Some(t) => StrippedText([t])
  }

  /** The text each selector yields, in the order they are tried. */
  function SelectedTexts(ns: seq<Node>, sels: seq<Selector>): (r: seq<string>)
    ensures |r| == |sels|
    ensures forall k :: 0 <= k < |sels| ==> r[k] == SelectedText(ns, sels[k])
  {
    seq(|sels|, k requires 0 <= k < |sels| => SelectedText(ns, sels[k]))
  }

  /** The first non-empty text of the chain `a or b or ...`, or "". */
  function FirstText(texts: seq<string>): (r: string)
    ensures r == "" <==> forall k :: 0 <= k < |texts| ==> texts[k] == ""
    ensures r != "" ==> exists k :: 0 <= k < |texts| && texts[k] == r
                         && forall j :: 0 <= j < k ==> texts[j] == ""
  {
    if texts == [] then ""
    else if texts[0] != "" then texts[0]
    else
      var r := FirstText(texts[1..]);
      assert r != "" ==> exists k :: 0 <= k < |texts| && texts[k] == r &&
                           forall j :: 0 <= j < k ==> texts[j] == "" by {
        if r != "" {
          var k :| 0 <= k < |texts| - 1 && texts[1..][k] == r
                   && forall j :: 0 <= j < k ==> texts[1..][j] == "";
          assert texts[k + 1] == r;
        }
      }
      r
  }

  /** extract_title: the first selector whose match has text wins. */
  function ExtractTitle(top: seq<Node>): string
  {
    FirstText(SelectedTexts(top, TitleSelectors))
  }

  /** When the preferred selector finds a heading with text, that text is the
      title: no later selector is consulted. */
  lemma TitlePrefersContainer(top: seq<Node>)
    requires SelectedText(top, TitleSelectors[0]) != ""
    ensures ExtractTitle(top) == SelectedText(top, TitleSelectors[0])
  {
  }

  /** The title is empty only if the first h1 of the document has no text:
      the bare h1 selector is the last resort. */
  lemma TitleFromFirstH1(top: seq<Node>)
    requires SelectedText(top, Simple(H1Q)) != ""
    ensures ExtractTitle(top) != ""
  {
    assert TitleSelectors[3] == Simple(H1Q);
  }

  /** The title never starts or ends with whitespace. */
  lemma TitleIsStripped(top: seq<Node>)
    ensures Strip(ExtractTitle(top)) == ExtractTitle(top)
  {
    var r := ExtractTitle(top);
    var texts := SelectedTexts(top, TitleSelectors);
    if r != "" {
      var k :| 0 <= k < |texts| && texts[k] == r;
      var t := SelectOne(top, TitleSelectors[k]).value;
      StrippedTextTrimmed([t]);
    }
    TrimFixpoint(r, IsSpace);
  }

  // ---------------------------------------------------------------------
  // build_combined_article_html

  /** Where the builder looks for rich articles: below the first
      div.blog-content-new, or the whole document when there is none. */
  function ArticleScope(top: seq<Node>): seq<Node>
  {
    match Find(top, ContentQ)
    case None => top
    case Some(c) => Below(c)
  }

  /** The rich articles the builder cleans, in document order. */
  function Articles(top: seq<Node>): (r: seq<Node>)
    ensures forall a <- r :: a.Element? && Matches(a, RichQ)
  {
    FindAll(ArticleScope(top), RichQ)
  }

  /** The positions of those articles in the document. When they do not
      nest, each can be changed in place without disturbing the others. */
  function ArticlePaths(top: seq<Node>): (r: seq<Path>)
    ensures AllValid(top, r) && NodesAt(top, r) == Articles(top)
    ensures NotNested(ArticleScope(top), RichQ) ==> PairwiseIncomparable(r)
  {
    var cps := MatchPaths(top, ContentQ);
    MatchPathsNodes(top, ContentQ);
    if cps == [] then
      MatchPathsNodes(top, RichQ);
      var r := MatchPaths(top, RichQ);
      assert NotNested(ArticleScope(top), RichQ) ==> PairwiseIncomparable(r) by {
        if NotNested(ArticleScope(top), RichQ) {
          MatchPathsIncomparable(top, RichQ, 0);
        }
      }
      r
    else
      var c := cps[0];
      var cs := NodeAt(top, c).children;
      MatchPathsNodes(cs, RichQ);
      UnderNodes(top, c, MatchPaths(cs, RichQ));
      var r := Under(c, MatchPaths(cs, RichQ));
      assert NotNested(ArticleScope(top), RichQ) ==> PairwiseIncomparable(r) by {
        if NotNested(ArticleScope(top), RichQ) {
          MatchPathsIncomparable(cs, RichQ, 0);
        }
      }
      r
  }

  /** The results of several runs that each may raise: all of them, or None
      when one raised. */
  function AllSome(rs: seq<Option<Node>>): (r: Option<seq<Node>>)
    ensures r.None? <==> exists k :: 0 <= k < |rs| && rs[k].None?
    ensures r.Some? ==> |r.value| == |rs| && forall k :: 0 <= k < |rs| ==> rs[k] == Some(r.value[k])
  {
    if rs == [] then Some([])
    else
      var n := |rs| - 1;
      assert forall k :: 0 <= k < n ==> rs[..n][k] == rs[k];
      match AllSome(rs[..n])
      case None => None
      case Some(init) =>
        match rs[n]
        case None => None
        case Some(c) =>
          var r := init + [c];
          assert forall k :: 0 <= k < n ==> r[k] == init[k];
          Some(r)
  }

  /** clean_article of each article. */
  function CleanEach(arts: seq<Node>): (r: seq<Option<Node>>)
    requires forall a <- arts :: a.Element?
    ensures |r| == |arts|
  {
    if arts == [] then []
    else
      assert arts[|arts| - 1] in arts;
      CleanEach(arts[..|arts| - 1]) + [CleanArticle(arts[|arts| - 1])]
  }

  lemma {:induction false} CleanEachAt(arts: seq<Node>, k: nat)
    requires (forall a <- arts :: a.Element?) && k < |arts|
    ensures arts[k].Element? && CleanEach(arts)[k] == CleanArticle(arts[k])
    decreases |arts|
  {
    assert arts[k] in arts;
    if k < |arts| - 1 {
      assert arts[..|arts| - 1][k] == arts[k];
      CleanEachAt(arts[..|arts| - 1], k);
    }
  }

  /** clean_article of each article; None when one of them raised. */
  function CleanAll(arts: seq<Node>): Option<seq<Node>>
    requires forall a <- arts :: a.Element?
  {
    AllSome(CleanEach(arts))
  }

  /** The articles clean together exactly when each cleans alone, and then
      the k-th result is the k-th article cleaned. */
  lemma CleanAllAt(arts: seq<Node>, k: nat)
    requires (forall a <- arts :: a.Element?) && k < |arts|
    ensures arts[k].Element?
    ensures CleanArticle(arts[k]).None? ==> CleanAll(arts).None?
    ensures CleanAll(arts).Some? ==> |CleanAll(arts).value| == |arts| && CleanArticle(arts[k]) == Some(CleanAll(arts).value[k])
  {
    CleanEachAt(arts, k);
  }

  /** str() of each cleaned article. */
  function Rendered(cs: seq<Node>): (r: seq<string>)
    ensures |r| == |cs|
  {
    if cs == [] then [] else Rendered(cs[..|cs| - 1]) + [Render(cs[|cs| - 1])]
  }

  /** "".join(parts) */
  function Concat(parts: seq<string>): string
  {
    if parts == [] then "" else Concat(parts[..|parts| - 1]) + parts[|parts| - 1]
  }

  /** What build_combined_article_html returns once the articles are cleaned. */
  function CombinedHtml(cs: seq<Node>): string
  {
    var combined := Strip(Concat(Rendered(cs)));
    if combined != "" then "<article>" + combined + "</article>" else ""
  }

  /** The joined markup of one or more elements starts with '<' and ends
      with '>'. */
  lemma {:induction false} ConcatRenderedEnds(cs: seq<Node>)
    requires cs != [] && forall c <- cs :: c.Element?
    ensures var s := Concat(Rendered(cs)); |s| >= 2 && s[0] == '<' && s[|s| - 1] == '>' && Trimmed(s)
    decreases |cs|
  {
    var n := |cs| - 1;
    var init := cs[..n];
    assert cs[n] in cs;
    var last := Render(cs[n]);
    assert Rendered(cs)[..n] == Rendered(init);
    assert Concat(Rendered(cs)) == Concat(Rendered(init)) + last;
    if init != [] {
      assert forall c <- init :: c in cs;
      ConcatRenderedEnds(init);
    } else {
      assert Concat(Rendered(init)) == "";
    }
  }

  /** The builder's result is "" exactly when there is no article; otherwise
      it is the cleaned articles' markup, joined, inside one <article>. */
  lemma CombinedHtmlShape(cs: seq<Node>)
    requires forall c <- cs :: c.Element?
    ensures CombinedHtml(cs) == if cs == [] then "" else "<article>" + Concat(Rendered(cs)) + "</article>"
  {
    if cs != [] {
      StripRendered(cs);
    } else {
      assert Concat(Rendered(cs)) == "";
    }
  }

  /** Stripping the joined markup of elements changes nothing. */
  lemma StripRendered(cs: seq<Node>)
    requires cs != [] && forall c <- cs :: c.Element?
    ensures Strip(Concat(Rendered(cs))) == Concat(Rendered(cs)) != ""
  {
    ConcatRenderedEnds(cs);
    TrimmedStrip(Concat(Rendered(cs)));
  }

  /** The reply is 422 exactly when the document has no rich article (and no
      article raised while being cleaned). */
  lemma NoArticlesIff(top: seq<Node>)
    requires CleanAll(Articles(top)).Some?
    ensures CombinedHtml(CleanAll(Articles(top)).value) == "" <==> Articles(top) == []
  {
    var cs := CleanAll(Articles(top)).value;
    forall c | c in cs ensures c.Element? {
      var k :| 0 <= k < |cs| && cs[k] == c;
      CleanAllAt(Articles(top), k);
    }
    CombinedHtmlShape(cs);
  }

  // ---------------------------------------------------------------------
  // extract_all_images

  function UnionImages(a: Option<set<string>>, b: Option<set<string>>): Option<set<string>>
  {
    if a.Some? && b.Some? then Some(a.value + b.value) else None
  }

  /** The union of the results of several scans; None when one raised. */
  function UnionAll(rs: seq<Option<set<string>>>): Option<set<string>>
  {
    if rs == [] then Some({}) else UnionImages(UnionAll(rs[..|rs| - 1]), rs[|rs| - 1])
  }

  /** extract_images of each article. */
  function ImagesEach(arts: seq<Node>): (r: seq<Option<set<string>>>)
    ensures |r| == |arts|
  {
    if arts == [] then [] else ImagesEach(arts[..|arts| - 1]) + [ImagesOf(Some(arts[|arts| - 1]))]
  }

  /** extract_all_images: the hero image container, the content container,
      then every rich article of the document. */
  function AllImages(top: seq<Node>): Option<set<string>>
  {
    UnionImages(UnionImages(ImagesOf(Find(top, HeroQ)), ImagesOf(Find(top, ContentQ))),
                UnionAll(ImagesEach(FindAll(top, RichQ))))
  }

  lemma {:induction false} ImagesEachAt(arts: seq<Node>, k: nat)
    requires k < |arts|
    ensures ImagesEach(arts)[k] == ImagesOf(Some(arts[k]))
    decreases |arts|
  {
    if k < |arts| - 1 {
      assert arts[..|arts| - 1][k] == arts[k];
      ImagesEachAt(arts[..|arts| - 1], k);
    }
  }

  /** Once one scan raised, so does the whole union. */
  lemma {:induction false} UnionAllNone(rs: seq<Option<set<string>>>, i: nat)
    requires i <= |rs| && UnionAll(rs[..i]).None?
    ensures UnionAll(rs).None?
    decreases |rs| - i
  {
    if i < |rs| {
      assert rs[..i + 1][..i] == rs[..i];
      UnionAllNone(rs, i + 1);
    } else {
      assert rs[..i] == rs;
    }
  }

  lemma UnionAllStep(rs: seq<Option<set<string>>>, i: nat)
    requires i < |rs|
    ensures UnionAll(rs[..i + 1]) == UnionImages(UnionAll(rs[..i]), rs[i])
  {
    assert rs[..i + 1][..i] == rs[..i];
  }

  /** Each scan's URLs are in the union. */
  lemma {:induction false} UnionAllCover(rs: seq<Option<set<string>>>, k: nat)
    requires k < |rs| && UnionAll(rs).Some?
    ensures rs[k].Some? && rs[k].value <= UnionAll(rs).value
    decreases |rs|
  {
    if k < |rs| - 1 {
      UnionAllCover(rs[..|rs| - 1], k);
    }
  }

  /** The hero's images, the content container's images and the images of
      every rich article are all in the result. */
  lemma AllImagesCover(top: seq<Node>, art: Node)
    requires AllImages(top).Some?
    ensures ImagesOf(Find(top, HeroQ)).Some? && ImagesOf(Find(top, HeroQ)).value <= AllImages(top).value
    ensures ImagesOf(Find(top, ContentQ)).Some? && ImagesOf(Find(top, ContentQ)).value <= AllImages(top).value
    ensures art in FindAll(top, RichQ) ==>
              ImagesOf(Some(art)).Some? && ImagesOf(Some(art)).value <= AllImages(top).value
  {
    if art in FindAll(top, RichQ) {
      var arts := FindAll(top, RichQ);
      var k :| 0 <= k < |arts| && arts[k] == art;
      ImagesEachAt(arts, k);
      UnionAllCover(ImagesEach(arts), k);
    }
  }

  /** The union succeeds exactly when every scan does, and then holds the
      URLs found by some scan and nothing else. */
  lemma {:induction false} UnionAllIff(rs: seq<Option<set<string>>>)
    ensures UnionAll(rs).Some? <==> forall k :: 0 <= k < |rs| ==> rs[k].Some?
    ensures UnionAll(rs).Some? ==>
      forall u :: u in UnionAll(rs).value <==> exists k :: 0 <= k < |rs| && rs[k].Some? && u in rs[k].value
    decreases |rs|
  {
    if rs != [] {
      var n := |rs| - 1;
      var init := rs[..n];
      UnionAllIff(init);
      assert forall k :: 0 <= k < n ==> init[k] == rs[k];
      if UnionAll(rs).Some? {
        forall u | u in UnionAll(rs).value
          ensures exists k :: 0 <= k < |rs| && rs[k].Some? && u in rs[k].value
        {
          if u !in rs[n].value {
            var k :| 0 <= k < n && init[k].Some? && u in init[k].value;
            assert rs[k] == init[k];
          }
        }
      } else if UnionAll(init).None? {
        var k :| 0 <= k < n && init[k].None?;
        assert rs[k].None?;
      }
    }
  }

  /** The scan of the rich articles succeeds exactly when each article's
      does, and then holds the URLs found in some article and nothing else. */
  lemma ArticlesImagesIff(arts: seq<Node>)
    ensures UnionAll(ImagesEach(arts)).Some? <==> forall a <- arts :: ImagesOf(Some(a)).Some?
    ensures UnionAll(ImagesEach(arts)).Some? ==> forall u :: u in UnionAll(ImagesEach(arts)).value <==>
      exists a <- arts :: ImagesOf(Some(a)).Some? && u in ImagesOf(Some(a)).value
  {
    var rs := ImagesEach(arts);
    UnionAllIff(rs);
    forall k | 0 <= k < |arts| ensures rs[k] == ImagesOf(Some(arts[k])) {
      ImagesEachAt(arts, k);
    }
    if UnionAll(rs).Some? {
      forall u | exists a <- arts :: ImagesOf(Some(a)).Some? && u in ImagesOf(Some(a)).value
        ensures u in UnionAll(rs).value
      {
        var a :| a in arts && ImagesOf(Some(a)).Some? && u in ImagesOf(Some(a)).value;
        var k :| 0 <= k < |arts| && arts[k] == a;
        assert rs[k].Some? && u in rs[k].value;
      }
    }
  }

  /** extract_all_images succeeds exactly when the hero, the content
      container and every rich article scan without raising; its URLs are
      then those found in one of them and nothing else. */
  lemma AllImagesIff(top: seq<Node>)
    ensures AllImages(top).Some? <==>
      ImagesOf(Find(top, HeroQ)).Some? && ImagesOf(Find(top, ContentQ)).Some?
      && forall a <- FindAll(top, RichQ) :: ImagesOf(Some(a)).Some?
    ensures AllImages(top).Some? ==> forall u :: u in AllImages(top).value <==>
      || (ImagesOf(Find(top, HeroQ)).Some? && u in ImagesOf(Find(top, HeroQ)).value)
      || (ImagesOf(Find(top, ContentQ)).Some? && u in ImagesOf(Find(top, ContentQ)).value)
      || exists a <- FindAll(top, RichQ) :: ImagesOf(Some(a)).Some? && u in ImagesOf(Some(a)).value
  {
    ArticlesImagesIff(FindAll(top, RichQ));
  }

  /** The loop of extract_all_images over the rich articles. */
  method ScanArticles(arts: seq<Node>) returns (r: Option<set<string>>)
    ensures r == UnionAll(ImagesEach(arts))
    ensures r.Some? ==> forall u <- r.value :: IsHttp(u)
  {
    var urls: set<string> := {};
    ghost var rs := ImagesEach(arts);
    var i := 0;
    assert rs[..0] == [];
    while i < |arts|
      invariant 0 <= i <= |arts|
      invariant UnionAll(rs[..i]) == Some(urls)
      invariant forall u <- urls :: IsHttp(u)
    {
      var found := ExtractImages(Some(arts[i]));
      ImagesEachAt(arts, i);
      UnionAllStep(rs, i);
      if found.None? {
        UnionAllNone(rs, i + 1);
        return None;
      }
      urls := urls + found.value;
      i := i + 1;
    }
    assert rs[..i] == rs;
    r := Some(urls);
  }

  // ---------------------------------------------------------------------
  // The reply

  predicate Distinct(xs: seq<string>)
  {
    forall i, j :: 0 <= i < j < |xs| ==> xs[i] != xs[j]
  }

  /** image_names: "image1.png", "image2.png", ..., one per image. */
  function ImageNames(n: nat): (r: seq<string>)
    ensures |r| == n
  {
    seq(n, i requires 0 <= i < n => "image" + NatToString(i + 1) + ".png")
  }

  /** The names are pairwise different, so no file overwrites another. */
  lemma ImageNamesDistinct(n: nat)
    ensures Distinct(ImageNames(n))
    ensures forall i :: 0 <= i < n ==> ImageNames(n)[i] == "image" + NatToString(i + 1) + ".png"
  {
    var r := ImageNames(n);
    forall i, j | 0 <= i < j < n ensures r[i] != r[j] {
      var a := NatToString(i + 1);
      var b := NatToString(j + 1);
      if r[i] == r[j] {
        assert |a| == |b|;
        assert a == r[i][5..5 + |a|];
        assert b == r[j][5..5 + |b|];
        NatToStringInjective(i + 1, j + 1);
      }
    }
  }

  /** The outcomes of scrape_blog for a fetched page. */
  datatype Response =
    | Ok(title: string, contentHtml: string, images: seq<string>, imageNames: seq<string>)
    | Unprocessable   // 422: no article content
    | ServerError     // 500: an exception was raised

  /** list(urls): the members of a set, each once, in an unspecified order. */
  method SetToList(s: set<string>) returns (xs: seq<string>)
    ensures |xs| == |s| && Distinct(xs)
    ensures forall u :: u in xs <==> u in s
  {
    xs := [];
    var rest := s;
    while rest != {}
      invariant rest <= s && |xs| + |rest| == |s| && Distinct(xs)
      invariant forall u :: u in xs <==> u in s && u !in rest
      decreases rest
    {
      var u :| u in rest;
      xs := xs + [u];
      rest := rest - {u};
    }
  }

  // ---------------------------------------------------------------------
  // The parsed page, changed in place by the article builder

  class Soup {
    /** The top-level nodes of the parsed document. */
    var top: seq<Node>

    constructor(doc: seq<Node>)
      ensures top == doc
    {
      top := doc;
    }

    /** clean_article on the article at p, in place: the blocklisted
        subtrees are removed selector by selector, then the rest is
        sanitised. */
    method CleanArticleAt(p: Path) returns (cleaned: Option<Node>)
      modifies this
      requires ValidPath(top, p) && NodeAt(top, p).Element?
      ensures cleaned == CleanArticle(old(NodeAt(top, p)))
      ensures cleaned.Some? ==> top == ReplaceAt(old(top), p, cleaned.value)
    {
      var art := NodeAt(top, p);
      ghost var top0 := top;
      RemoveEachAt(p, Blocklist);
      var cur := art.(children := RemoveEach(art.children, Blocklist));
      ReplaceAtSame(top0, p, cur);
      var kids := SanitizeNodes(NodeAt(top, p).children);
      if kids.None? {
        return None;
      }
      cleaned := Some(Element(cur.tag, cur.attrs, kids.value));
      ReplaceAtTwice(top0, p, cur, cleaned.value);
      top := ReplaceAt(top, p, cleaned.value);
    }

    /** The removal loop of clean_article: every subtree below the element
        at p that a selector of sels matches is decomposed, selector by
        selector. */
    method RemoveEachAt(p: Path, sels: seq<Query>)
      modifies this
      requires ValidPath(top, p) && NodeAt(top, p).Element?
      ensures top == ReplaceAt(old(top), p, old(NodeAt(top, p)).(children := RemoveEach(old(NodeAt(top, p)).children, sels)))
    {
      var art := NodeAt(top, p);
      ghost var top0 := top;
      ReplaceAtSelf(top, p);
      assert sels[..0] == [];
      var i := 0;
      while i < |sels|
        invariant 0 <= i <= |sels|
        invariant top == ReplaceAt(top0, p, art.(children := RemoveEach(art.children, sels[..i])))
      {
        var cur := art.(children := RemoveEach(art.children, sels[..i]));
        ReplaceAtSame(top0, p, cur);
        var next := cur.(children := RemoveMatching(NodeAt(top, p).children, sels[i]));
        RemoveEachStep(art.children, sels, i);
        ReplaceAtTwice(top0, p, cur, next);
        top := ReplaceAt(top, p, next);
        i := i + 1;
      }
      assert sels[..i] == sels;
    }

    /** build_combined_article_html: every rich article is cleaned where it
        stands and its markup kept; the joined markup, stripped, goes inside
        one <article>, or the result is "" when it is empty. None when
        cleaning raised. */
    method BuildCombinedArticleHtml() returns (html: Option<string>)
      modifies this
      requires NotNested(ArticleScope(top), RichQ)
      ensures html.None? <==> CleanAll(Articles(old(top))).None?
      ensures html.Some? ==> html.value == CombinedHtml(CleanAll(Articles(old(top))).value)
      ensures html.Some? ==> top == ReplaceEach(old(top), ArticlePaths(old(top)), CleanAll(Articles(old(top))).value)
    {
      var paths := ArticlePaths(top);
      var parts := CleanArticlesAt(paths);
      if parts.None? {
        return None;
      }
      var combined := Strip(Concat(parts.value));
      html := Some(if combined != "" then "<article>" + combined + "</article>" else "");
    }

    /** The loop of the builder: clean_article on each position in turn,
        keeping str() of each cleaned article. */
    method CleanArticlesAt(paths: seq<Path>) returns (parts: Option<seq<string>>)
      modifies this
      requires AllValid(top, paths) && PairwiseIncomparable(paths)
      requires forall a <- NodesAt(top, paths) :: a.Element?
      ensures parts.None? <==> CleanAll(NodesAt(old(top), paths)).None?
      ensures parts.Some? ==> parts.value == Rendered(CleanAll(NodesAt(old(top), paths)).value)
      ensures parts.Some? ==> top == ReplaceEach(old(top), paths, CleanAll(NodesAt(old(top), paths)).value)
    {
      ghost var top0 := top;
      ghost var arts := NodesAt(top, paths);
      ghost var results := CleanEach(arts);
      ghost var cleaned: seq<Node> := [];
      var rendered: seq<string> := [];
      var k := 0;
      assert paths[..0] == [] && results[..0] == [];
      while k < |paths|
        invariant 0 <= k <= |paths| && |cleaned| == k
        invariant ReplacedUpTo(top0, paths, cleaned, top)
        invariant AllSome(results[..k]) == Some(cleaned)
        invariant rendered == Rendered(cleaned)
      {
        var c := CleanNext(top0, paths, cleaned, k);
        if c.None? {
          assert results[k].None?;
          assert CleanAll(arts).None?;
          return None;
        }
        AllSomeStep(results, k, cleaned, c.value);
        RenderedStep(cleaned, c.value);
        cleaned := cleaned + [c.value];
        rendered := rendered + [Render(c.value)];
        k := k + 1;
      }
      assert paths[..k] == paths && results[..k] == results;
      assert CleanAll(arts) == Some(cleaned);
      parts := Some(rendered);
    }

    /** One turn of the builder's loop: clean_article on the k-th position,
        after the first k have been replaced by their cleaned articles. */
    method CleanNext(ghost top0: seq<Node>, paths: seq<Path>, ghost cleaned: seq<Node>, k: nat) returns (c: Option<Node>)
      modifies this
      requires AllValid(top0, paths) && PairwiseIncomparable(paths) && k < |paths| && |cleaned| == k
      requires forall a <- NodesAt(top0, paths) :: a.Element?
      requires ReplacedUpTo(top0, paths, cleaned, top)
      ensures c == CleanEach(NodesAt(top0, paths))[k]
      ensures c.Some? ==> ReplacedUpTo(top0, paths, cleaned + [c.value], top)
    {
      PathsStep(top0, paths, cleaned, k);
      CleanStep(top0, paths, k);
      c := CleanArticleAt(paths[k]);
      if c.Some? {
        ReplaceStep(top0, paths, cleaned, k, c.value);
      }
    }

    /** extract_all_images over the document as it now stands. */
    method ExtractAllImages() returns (r: Option<set<string>>)
      ensures r == AllImages(top)
      ensures r.Some? ==> forall u <- r.value :: IsHttp(u)
    {
      var hero := ExtractImages(Find(top, HeroQ));
      if hero.None? {
        return None;
      }
      var cont := ExtractImages(Find(top, ContentQ));
      if cont.None? {
        return None;
      }
      var fromArticles := ScanArticles(FindAll(top, RichQ));
      if fromArticles.None? {
        return None;
      }
      r := Some(hero.value + cont.value + fromArticles.value);
    }

    /** scrape_blog once the page is fetched and parsed: the title from the
        page as fetched, the article markup (422 when empty), the images of
        the page as the builder left it, and one name per image. */
    method ScrapeBlog() returns (resp: Response)
      modifies this
      requires NotNested(ArticleScope(top), RichQ)
      ensures CleanAll(Articles(old(top))).None? ==> resp == ServerError
      ensures CleanAll(Articles(old(top))).Some? ==>
        top == ReplaceEach(old(top), ArticlePaths(old(top)), CleanAll(Articles(old(top))).value)
      ensures CleanAll(Articles(old(top))).Some? && CombinedHtml(CleanAll(Articles(old(top))).value) == "" ==>
        resp == Unprocessable
      ensures CleanAll(Articles(old(top))).Some? && CombinedHtml(CleanAll(Articles(old(top))).value) != "" ==>
        (AllImages(top).None? <==> resp == ServerError)
      ensures (CleanAll(Articles(old(top))).Some? && CombinedHtml(CleanAll(Articles(old(top))).value) != ""
               && AllImages(top).Some?) ==> resp.Ok?
      ensures resp.Ok? ==>
        && CleanAll(Articles(old(top))).Some?
        && resp.title == ExtractTitle(old(top))
        && resp.contentHtml == "<h1>" + ExtractTitle(old(top)) + "</h1>" + CombinedHtml(CleanAll(Articles(old(top))).value)
        && CombinedHtml(CleanAll(Articles(old(top))).value) != ""
        && AllImages(top).Some?
        && Distinct(resp.images) && (forall u :: u in resp.images <==> u in AllImages(top).value)
        && resp.imageNames == ImageNames(|resp.images|)
    {
      var title := ExtractTitle(top);
      var articleHtml := BuildCombinedArticleHtml();
      if articleHtml.None? {
        return ServerError;
      }
      if articleHtml.value == "" {
        return Unprocessable;
      }
      var images := ExtractAllImages();
      if images.None? {
        return ServerError;
      }
      var list := SetToList(images.value);
      var names := ImageNames(|list|);
      resp := Ok(title, "<h1>" + title + "</h1>" + articleHtml.value, list, names);
    }
  }

  /** The document now is the one at the start with the first |cleaned|
      positions replaced by the cleaned articles. */
  predicate ReplacedUpTo(top: seq<Node>, paths: seq<Path>, cleaned: seq<Node>, now: seq<Node>)
  {
    |cleaned| <= |paths| && AllValid(top, paths[..|cleaned|]) && PairwiseIncomparable(paths[..|cleaned|])
    && now == ReplaceEach(top, paths[..|cleaned|], cleaned)
  }

  /** Before the k-th article is cleaned, its position is valid and it is
      still the article found at the start: the earlier replacements were
      all elsewhere. */
  lemma PathsStep(top: seq<Node>, paths: seq<Path>, cleaned: seq<Node>, k: nat)
    requires AllValid(top, paths) && PairwiseIncomparable(paths) && k < |paths| && |cleaned| == k
    requires AllValid(top, paths[..k]) && PairwiseIncomparable(paths[..k])
    ensures ValidPath(ReplaceEach(top, paths[..k], cleaned), paths[k])
    ensures NodeAt(ReplaceEach(top, paths[..k], cleaned), paths[k]) == NodeAt(top, paths[k])
  {
    assert paths[k] in paths;
    forall p | p in paths[..k] ensures Incomparable(p, paths[k]) {
      var j :| 0 <= j < k && paths[..k][j] == p;
      assert paths[j] == p;
    }
    ReplaceEachOther(top, paths[..k], cleaned, paths[k]);
  }

  /** The k-th run of clean_article is the one on the article at the k-th
      position. */
  lemma CleanStep(top: seq<Node>, paths: seq<Path>, k: nat)
    requires AllValid(top, paths) && k < |paths|
    requires forall a <- NodesAt(top, paths) :: a.Element?
    ensures NodeAt(top, paths[k]).Element?
    ensures CleanEach(NodesAt(top, paths))[k] == CleanArticle(NodeAt(top, paths[k]))
  {
    CleanEachAt(NodesAt(top, paths), k);
  }

  /** Replacing the k-th article after the first k extends the replacements
      by one. */
  lemma ReplaceStep(top: seq<Node>, paths: seq<Path>, cleaned: seq<Node>, k: nat, c: Node)
    requires AllValid(top, paths) && PairwiseIncomparable(paths) && k < |paths| && |cleaned| == k
    requires AllValid(top, paths[..k]) && PairwiseIncomparable(paths[..k])
    requires ValidPath(ReplaceEach(top, paths[..k], cleaned), paths[k])
    ensures AllValid(top, paths[..k + 1]) && PairwiseIncomparable(paths[..k + 1])
    ensures ReplaceEach(top, paths[..k + 1], cleaned + [c]) == ReplaceAt(ReplaceEach(top, paths[..k], cleaned), paths[k], c)
  {
    var ps := paths[..k + 1];
    forall p | p in ps ensures ValidPath(top, p) {
      assert p in paths;
    }
    forall i, j | 0 <= i < |ps| && 0 <= j < |ps| && i != j ensures Incomparable(ps[i], ps[j]) {
      assert ps[i] == paths[i] && ps[j] == paths[j];
    }
    assert ps[..k] == paths[..k];
    assert (cleaned + [c])[..k] == cleaned;
  }

  lemma RenderedStep(cs: seq<Node>, c: Node)
    ensures Rendered(cs + [c]) == Rendered(cs) + [Render(c)]
  {
    assert (cs + [c])[..|cs|] == cs;
  }

  /** One more run that succeeded extends the results by its own. */
  lemma AllSomeStep(rs: seq<Option<Node>>, k: nat, vs: seq<Node>, v: Node)
    requires k < |rs| && AllSome(rs[..k]) == Some(vs) && rs[k] == Some(v)
    ensures AllSome(rs[..k + 1]) == Some(vs + [v])
  {
    assert rs[..k + 1][..k] == rs[..k];
  }
}
