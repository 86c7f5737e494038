// extract_images (blog_scraper_skuad.py:34-71): the http(s) image URLs
// below one container, gathered from <img>, <source srcset> and inline
// style url(...) values into a set.

module Collector {
  import opened Options
  import opened Strings
  import opened Dom
  import opened Urls

  const ImgQ: Query := TagWithClasses("img", [])
  const SourceQ: Query := TagWithClasses("source", [])
  const StyleQ: Query := WithAttribute("style")

  /** The nodes container.find_all(...) searches: the container's
      descendants, never the container itself. */
  function Below(container: Node): seq<Node>
  {
    if container.Element? then container.children else []
  }

  /** The attributes of an element (text nodes have none). */
  function AttrsOf(n: Node): Attrs
  {
    if n.Element? then n.attrs else []
  }

  /** What a <source> contributes (lines 56-59): its absolutised first
      srcset candidate, Some("") when it has no srcset, None on IndexError. */
  function SourceRef(attrs: Attrs): Option<string>
  {
    var srcset := Get(attrs, "srcset");
    if srcset == "" then Some("")
    else
      match FirstSrcFromSrcset(srcset)
      case None => None
      case Some(first) => Some(Absolutize(first))
  }

  /** The candidates of the img scan, element after element; None marks an
      img whose resolution raised. */
  function ImgRefsOf(imgs: seq<Node>): (r: seq<Option<string>>)
    ensures |r| == |imgs|
  {
    if imgs == [] then [] else ImgRefsOf(imgs[..|imgs| - 1]) + [ResolveImageSrc(AttrsOf(imgs[|imgs| - 1]))]
  }

  /** The candidates of the source scan. */
  function SourceRefsOf(sources: seq<Node>): (r: seq<Option<string>>)
    ensures |r| == |sources|
  {
    if sources == [] then [] else SourceRefsOf(sources[..|sources| - 1]) + [SourceRef(AttrsOf(sources[|sources| - 1]))]
  }

  function ImgRefs(ns: seq<Node>): seq<Option<string>>
  {
    ImgRefsOf(FindAll(ns, ImgQ))
  }

  function SourceRefs(ns: seq<Node>): seq<Option<string>>
  {
    SourceRefsOf(FindAll(ns, SourceQ))
  }

  lemma {:induction false} ImgRefsAt(imgs: seq<Node>, k: nat)
    requires k < |imgs|
    ensures ImgRefsOf(imgs)[k] == ResolveImageSrc(AttrsOf(imgs[k]))
    decreases |imgs|
  {
    if k < |imgs| - 1 {
      ImgRefsAt(imgs[..|imgs| - 1], k);
    }
  }

  lemma {:induction false} SourceRefsAt(sources: seq<Node>, k: nat)
    requires k < |sources|
    ensures SourceRefsOf(sources)[k] == SourceRef(AttrsOf(sources[k]))
    decreases |sources|
  {
    if k < |sources| - 1 {
      SourceRefsAt(sources[..|sources| - 1], k);
    }
  }

  /** The url(...) values of the styles of es, element after element. */
  function StyleRefs(es: seq<Node>): seq<string>
  {
    if es == [] then [] else StyleRefs(es[..|es| - 1]) + StyleUrls(Get(AttrsOf(es[|es| - 1]), "style"))
  }

  predicate Resolved(refs: seq<Option<string>>)
  {
    forall k :: 0 <= k < |refs| ==> refs[k].Some?
  }

  /** The http(s) URLs among the resolved candidates. */
  function HttpRefs(refs: seq<Option<string>>): set<string>
  {
    if refs == [] then {}
    else
      var last := refs[|refs| - 1];
      HttpRefs(refs[..|refs| - 1]) + (if last.Some? && IsHttp(last.value) then {last.value} else {})
  }

  /** The http(s) URLs among urls. */
  function HttpUrls(urls: seq<string>): set<string>
  {
    if urls == [] then {}
    else
      var last := urls[|urls| - 1];
      HttpUrls(urls[..|urls| - 1]) + (if IsHttp(last) then {last} else {})
  }

  /** Exactly the http(s) values among the candidates are kept. */
  lemma {:induction false} HttpRefsMembers(refs: seq<Option<string>>, u: string)
    ensures u in HttpRefs(refs) <==> IsHttp(u) && exists k :: 0 <= k < |refs| && refs[k] == Some(u)
    decreases |refs|
  {
    if refs != [] {
      var init := refs[..|refs| - 1];
      HttpRefsMembers(init, u);
      assert forall k :: 0 <= k < |init| ==> init[k] == refs[k];
      if exists k :: 0 <= k < |refs| && refs[k] == Some(u) {
        var k :| 0 <= k < |refs| && refs[k] == Some(u);
        if k < |init| {
          assert init[k] == Some(u);
        }
      }
    }
  }

  lemma {:induction false} HttpUrlsMembers(urls: seq<string>, u: string)
    ensures u in HttpUrls(urls) <==> u in urls && IsHttp(u)
    decreases |urls|
  {
    if urls != [] {
      var init := urls[..|urls| - 1];
      HttpUrlsMembers(init, u);
      assert urls == init + [urls[|urls| - 1]];
    }
  }

  /** extract_images(container) for a found container: None when one of
      the img or source scans raised IndexError, otherwise the http(s)
      candidates of the three scans. */
  function Collected(ns: seq<Node>): Option<set<string>>
  {
    if Resolved(ImgRefs(ns)) && Resolved(SourceRefs(ns)) then
      Some(HttpRefs(ImgRefs(ns)) + HttpRefs(SourceRefs(ns)) + HttpUrls(StyleRefs(FindAll(ns, StyleQ))))
    else None
  }

  /** Every collected URL starts with http:// or https://. */
  lemma CollectedHttp(ns: seq<Node>)
    ensures Collected(ns).Some? ==> forall u <- Collected(ns).value :: IsHttp(u)
  {
    if Collected(ns).Some? {
      forall u | u in Collected(ns).value ensures IsHttp(u) {
        HttpRefsMembers(ImgRefs(ns), u);
        HttpRefsMembers(SourceRefs(ns), u);
        HttpUrlsMembers(StyleRefs(FindAll(ns, StyleQ)), u);
      }
    }
  }

  /** The scan raises exactly when some img has no usable src and a srcset
      whose first candidate is blank, or some source has such a srcset. */
  lemma CollectedFailsIff(ns: seq<Node>)
    ensures Collected(ns).None? <==>
      (exists e <- FindAll(ns, ImgQ) :: ResolveImageSrc(AttrsOf(e)).None?)
      || (exists e <- FindAll(ns, SourceQ) :: SourceRef(AttrsOf(e)).None?)
  {
    RefsResolvedIff(FindAll(ns, ImgQ), true);
    RefsResolvedIff(FindAll(ns, SourceQ), false);
  }

  lemma RefsResolvedIff(es: seq<Node>, img: bool)
    ensures Resolved(if img then ImgRefsOf(es) else SourceRefsOf(es)) <==>
            forall e <- es :: (if img then ResolveImageSrc(AttrsOf(e)) else SourceRef(AttrsOf(e))).Some?
  {
    var refs := if img then ImgRefsOf(es) else SourceRefsOf(es);
    if !Resolved(refs) {
      var k :| 0 <= k < |refs| && refs[k].None?;
      if img { ImgRefsAt(es, k); } else { SourceRefsAt(es, k); }
      assert es[k] in es;
    }
    if exists e <- es :: (if img then ResolveImageSrc(AttrsOf(e)) else SourceRef(AttrsOf(e))).None? {
      var e :| e in es && (if img then ResolveImageSrc(AttrsOf(e)) else SourceRef(AttrsOf(e))).None?;
      var k :| 0 <= k < |es| && es[k] == e;
      if img { ImgRefsAt(es, k); } else { SourceRefsAt(es, k); }
      assert refs[k].None?;
    }
  }

  /** extract_images: an empty set when the container is missing. */
  function ImagesOf(container: Option<Node>): Option<set<string>>
  {
    match container
    case None => Some({})
    case Some(c) => Collected(Below(c))
  }

  lemma HttpRefsSnoc(refs: seq<Option<string>>, i: nat)
    requires i < |refs|
    ensures HttpRefs(refs[..i + 1]) == HttpRefs(refs[..i]) + (if refs[i].Some? && IsHttp(refs[i].value) then {refs[i].value} else {})
  {
    assert refs[..i + 1][..i] == refs[..i];
  }

  lemma HttpRefsPush(refs: seq<Option<string>>, ref: Option<string>)
    ensures HttpRefs(refs + [ref]) == HttpRefs(refs) + (if ref.Some? && IsHttp(ref.value) then {ref.value} else {})
  {
    assert (refs + [ref])[..|refs|] == refs;
  }

  lemma HttpUrlsSnoc(urls: seq<string>, i: nat)
    requires i < |urls|
    ensures HttpUrls(urls[..i + 1]) == HttpUrls(urls[..i]) + (if IsHttp(urls[i]) then {urls[i]} else {})
  {
    assert urls[..i + 1][..i] == urls[..i];
  }

  lemma HttpUrlsAppend(a: seq<string>, b: seq<string>)
    ensures HttpUrls(a + b) == HttpUrls(a) + HttpUrls(b)
  {
    forall u ensures u in HttpUrls(a + b) <==> u in HttpUrls(a) + HttpUrls(b) {
      HttpUrlsMembers(a + b, u);
      HttpUrlsMembers(a, u);
      HttpUrlsMembers(b, u);
    }
  }

  /** The <img> scan: the http(s) references of the img elements below. */
  method ScanImages(ns: seq<Node>) returns (r: Option<set<string>>)
    ensures r.Some? <==> Resolved(ImgRefs(ns))
    ensures r.Some? ==> r.value == HttpRefs(ImgRefs(ns))
  {
    var urls: set<string> := {};
    var imgs := FindAll(ns, ImgQ);
    var i := 0;
    while i < |imgs|
      invariant 0 <= i <= |imgs|
      invariant Resolved(ImgRefsOf(imgs[..i]))
      invariant urls == HttpRefs(ImgRefsOf(imgs[..i]))
    {
      var src := ResolveImageSrc(AttrsOf(imgs[i]));
      ImgRefsStep(imgs, i);
      RefsPush(ImgRefsOf(imgs[..i]), src);
      if src.None? {
        ImgRefsAt(imgs, i);
        assert ImgRefsOf(imgs)[i].None?;
        return None;
      }
      if IsHttp(src.value) {
        urls := urls + {src.value};
      }
      i := i + 1;
    }
    assert imgs[..i] == imgs;
    r := Some(urls);
  }

  /** The <source srcset> scan. */
  method ScanSources(ns: seq<Node>) returns (r: Option<set<string>>)
    ensures r.Some? <==> Resolved(SourceRefs(ns))
    ensures r.Some? ==> r.value == HttpRefs(SourceRefs(ns))
  {
    var urls: set<string> := {};
    var sources := FindAll(ns, SourceQ);
    var j := 0;
    while j < |sources|
      invariant 0 <= j <= |sources|
      invariant Resolved(SourceRefsOf(sources[..j]))
      invariant urls == HttpRefs(SourceRefsOf(sources[..j]))
    {
      var first := SourceRef(AttrsOf(sources[j]));
      SourceRefsStep(sources, j);
      RefsPush(SourceRefsOf(sources[..j]), first);
      if first.None? {
        SourceRefsAt(sources, j);
        assert SourceRefsOf(sources)[j].None?;
        return None;
      }
      if IsHttp(first.value) {
        urls := urls + {first.value};
      }
      j := j + 1;
    }
    assert sources[..j] == sources;
    r := Some(urls);
  }

  lemma ImgRefsStep(imgs: seq<Node>, i: nat)
    requires i < |imgs|
    ensures ImgRefsOf(imgs[..i + 1]) == ImgRefsOf(imgs[..i]) + [ResolveImageSrc(AttrsOf(imgs[i]))]
  {
    assert imgs[..i + 1][..i] == imgs[..i];
  }

  lemma SourceRefsStep(sources: seq<Node>, j: nat)
    requires j < |sources|
    ensures SourceRefsOf(sources[..j + 1]) == SourceRefsOf(sources[..j]) + [SourceRef(AttrsOf(sources[j]))]
  {
    assert sources[..j + 1][..j] == sources[..j];
  }

  /** One more candidate: resolved when it is, kept when it is http(s). */
  lemma RefsPush(refs: seq<Option<string>>, ref: Option<string>)
    ensures Resolved(refs + [ref]) <==> Resolved(refs) && ref.Some?
    ensures HttpRefs(refs + [ref]) == HttpRefs(refs) + (if ref.Some? && IsHttp(ref.value) then {ref.value} else {})
  {
    assert (refs + [ref])[..|refs|] == refs;
    assert (refs + [ref])[|refs|] == ref;
  }

  /** The inline style scan: every url(...) of every element with a style
      attribute. */
  method ScanStyles(ns: seq<Node>) returns (urls: set<string>)
    ensures urls == HttpUrls(StyleRefs(FindAll(ns, StyleQ)))
  {
    urls := {};
    var styled := FindAll(ns, StyleQ);
    var m := 0;
    while m < |styled|
      invariant 0 <= m <= |styled|
      invariant urls == HttpUrls(StyleRefs(styled[..m]))
    {
      var found := StyleUrls(Get(AttrsOf(styled[m]), "style"));
      StyleRefsStep(styled, m);
      HttpUrlsAppend(StyleRefs(styled[..m]), found);
      urls := AddHttp(urls, found);
      m := m + 1;
    }
    assert styled[..m] == styled;
  }

  lemma StyleRefsStep(styled: seq<Node>, m: nat)
    requires m < |styled|
    ensures StyleRefs(styled[..m + 1]) == StyleRefs(styled[..m]) + StyleUrls(Get(AttrsOf(styled[m]), "style"))
  {
    assert styled[..m + 1][..m] == styled[..m];
  }

  /** The loop over the url(...) matches of one style: adds the http(s) ones. */
  method AddHttp(urls: set<string>, found: seq<string>) returns (r: set<string>)
    ensures r == urls + HttpUrls(found)
  {
    r := urls;
    var k := 0;
    while k < |found|
      invariant 0 <= k <= |found|
      invariant r == urls + HttpUrls(found[..k])
    {
      HttpUrlsSnoc(found, k);
      if IsHttp(found[k]) {
        r := r + {found[k]};
      }
      k := k + 1;
    }
    assert found[..k] == found;
  }

  /** extract_images: the three scans, each adding to one set of URLs. */
  method ExtractImages(container: Option<Node>) returns (r: Option<set<string>>)
    ensures r == ImagesOf(container)
    ensures container.None? ==> r == Some({})
    ensures r.Some? ==> forall u <- r.value :: IsHttp(u)
  {
    if container.None? {
      return Some({});
    }
    var ns := Below(container.value);
    var fromImgs := ScanImages(ns);
    if fromImgs.None? {
      return None;
    }
    var fromSources := ScanSources(ns);
    if fromSources.None? {
      return None;
    }
    var fromStyles := ScanStyles(ns);
    r := Some(fromImgs.value + fromSources.value + fromStyles);
    CollectedHttp(ns);
  }

  /** A protocol-relative img src below the container is collected as an
      https URL. */
  lemma ProtocolRelativeImageCollected(ns: seq<Node>, k: nat)
    requires k < |FindAll(ns, ImgQ)| && Collected(ns).Some?
    requires StartsWith(FirstNonEmpty(AttrsOf(FindAll(ns, ImgQ)[k]), ImageSrcAttributes), "//")
    ensures "https:" + FirstNonEmpty(AttrsOf(FindAll(ns, ImgQ)[k]), ImageSrcAttributes) in Collected(ns).value
  {
    var src := FirstNonEmpty(AttrsOf(FindAll(ns, ImgQ)[k]), ImageSrcAttributes);
    var refs := ImgRefs(ns);
    ProtocolRelativeIsHttps(src);
    ImgRefsAt(FindAll(ns, ImgQ), k);
    assert refs[k] == Some("https:" + src);
    HttpRefsMembers(refs, "https:" + src);
  }

  /** A URL is collected exactly when it is http(s) and some img, source or
      inline style below the container yields it. */
  lemma CollectedMembers(ns: seq<Node>, u: string)
    requires Collected(ns).Some?
    ensures u in Collected(ns).value <==>
      IsHttp(u) &&
      ((exists e <- FindAll(ns, ImgQ) :: ResolveImageSrc(AttrsOf(e)) == Some(u))
       || (exists e <- FindAll(ns, SourceQ) :: SourceRef(AttrsOf(e)) == Some(u))
       || u in StyleRefs(FindAll(ns, StyleQ)))
  {
    HttpRefsMembers(ImgRefs(ns), u);
    HttpRefsMembers(SourceRefs(ns), u);
    HttpUrlsMembers(StyleRefs(FindAll(ns, StyleQ)), u);
    RefsMembers(FindAll(ns, ImgQ), ImgRefs(ns), u, true);
    RefsMembers(FindAll(ns, SourceQ), SourceRefs(ns), u, false);
  }

  lemma RefsMembers(es: seq<Node>, refs: seq<Option<string>>, u: string, img: bool)
    requires refs == if img then ImgRefsOf(es) else SourceRefsOf(es)
    ensures (exists k :: 0 <= k < |refs| && refs[k] == Some(u)) <==>
            exists e <- es :: (if img then ResolveImageSrc(AttrsOf(e)) else SourceRef(AttrsOf(e))) == Some(u)
  {
    if exists e <- es :: (if img then ResolveImageSrc(AttrsOf(e)) else SourceRef(AttrsOf(e))) == Some(u) {
      var e :| e in es && (if img then ResolveImageSrc(AttrsOf(e)) else SourceRef(AttrsOf(e))) == Some(u);
      var k :| 0 <= k < |es| && es[k] == e;
      if img { ImgRefsAt(es, k); } else { SourceRefsAt(es, k); }
      assert refs[k] == Some(u);
    }
    if exists k :: 0 <= k < |refs| && refs[k] == Some(u) {
      var k :| 0 <= k < |refs| && refs[k] == Some(u);
      if img { ImgRefsAt(es, k); } else { SourceRefsAt(es, k); }
      assert es[k] in es;
    }
  }
}
