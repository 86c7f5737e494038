// URL helpers of blog_scraper_skuad.py: the first candidate of a srcset, the
// "//" -> "https://" rewrite, the attribute-precedence chain for an image
// reference (shared by the collector and the sanitiser), and the scan of an
// inline style for url(...) arguments.

module Urls {
  import opened Options
  import opened Strings
  import opened Dom

  /** _first_src_from_srcset. None stands for the IndexError Python raises
      when the first comma-separated candidate is blank. */
  function FirstSrcFromSrcset(srcset: string): (r: Option<string>)
    ensures srcset == "" ==> r == Some("")
    ensures r.None? <==> srcset != "" && forall i :: 0 <= i < |BeforeComma(srcset)| ==> IsSpace(BeforeComma(srcset)[i])
    ensures srcset != "" && r.Some? ==> r.value != "" && NoSpace(r.value)
    ensures srcset != "" && r.Some? ==> exists n :: FirstWordAt(BeforeComma(srcset), n, r.value)
  {
    if srcset == "" then Some("")
    else
      var ws := Words(Strip(BeforeComma(srcset)));
      StripBlankIff(BeforeComma(srcset));
      if ws == [] then None
      else
        assert exists n :: FirstWordAt(BeforeComma(srcset), n, ws[0]) by {
          var n := FirstWordOfStrip(BeforeComma(srcset));
        }
        Some(ws[0])
  }

  /** w is the first word of s and starts at n: only whitespace comes before
      it, and it ends at the end of s or at whitespace. */
  predicate FirstWordAt(s: string, n: nat, w: string)
  {
    n + |w| <= |s| && (forall i :: 0 <= i < n ==> IsSpace(s[i]))
    && (forall j :: 0 <= j < |w| ==> s[n + j] == w[j]) && (n + |w| == |s| || IsSpace(s[n + |w|]))
  }

  /** The first word of s.strip().split() is the first run of
      non-whitespace characters of s. */
  lemma FirstWordOfStrip(s: string) returns (n: nat)
    requires Words(Strip(s)) != []
    ensures FirstWordAt(s, n, Words(Strip(s))[0])
  {
    FirstWordIsToken(s);
    n := FirstTokenAt(s, Words(Strip(s))[0]);
  }

  /** The first token of the strip starts in s after the leading
      whitespace. */
  lemma FirstTokenAt(s: string, w: string) returns (n: nat)
    requires w == Strip(s)[..TokenLength(Strip(s))]
    ensures FirstWordAt(s, n, w)
  {
    var t := TrimLeft(s, IsSpace);
    var st := TrimRight(t, IsSpace);
    assert st == Strip(s);
    n := |s| - |t|;
    PieceAt(s, t, st, TokenLength(st), w);
  }

  /** The first word of a strip is its first token. */
  lemma FirstWordIsToken(s: string)
    requires Words(Strip(s)) != []
    ensures Words(Strip(s))[0] == Strip(s)[..TokenLength(Strip(s))]
  {
    var st := Strip(s);
    var k := TokenLength(st);
    StripHead(s);
    TokenSplit(st);
    WordsHead(st[..k], st[k..]);
  }

  /** A string splits after its first token into the token and a rest that
      is empty or starts with whitespace. */
  lemma TokenSplit(st: string)
    ensures var k := TokenLength(st);
            st == st[..k] + st[k..] && NoSpace(st[..k]) && (st[k..] == [] || IsSpace(st[k..][0]))
  {
    var k := TokenLength(st);
    assert forall i :: 0 <= i < k ==> st[..k][i] == st[i];
    if k < |st| {
      assert st[k..][0] == st[k];
    }
  }

  /** A non-empty strip starts with a non-whitespace character, so its first
      token is not empty. */
  lemma StripHead(s: string)
    requires Words(Strip(s)) != []
    ensures TokenLength(Strip(s)) > 0
  {
    var t := TrimLeft(s, IsSpace);
    var st := TrimRight(t, IsSpace);
    assert st != [];
    assert st[0] == t[0];
  }

  /** s is whitespace, then t; t is st, then whitespace; st begins with w,
      which is followed by the end of st or by whitespace. Then w is the
      first word of s. */
  lemma PieceAt(s: string, t: string, st: string, k: nat, w: string)
    requires |t| <= |s| && t == s[|s| - |t|..] && forall i :: 0 <= i < |s| - |t| ==> IsSpace(s[i])
    requires |st| <= |t| && st == t[..|st|] && forall i :: |st| <= i < |t| ==> IsSpace(t[i])
    requires k <= |st| && (k == |st| || IsSpace(st[k])) && w == st[..k]
    ensures FirstWordAt(s, |s| - |t|, w)
  {
    var n := |s| - |t|;
    forall j | 0 <= j < |w| ensures s[n + j] == w[j] {
      assert w[j] == st[j] == t[j];
    }
    if n + k < |s| {
      if k < |st| {
        assert s[n + k] == st[k];
      } else {
        assert s[n + k] == t[k];
      }
    }
  }

  /** A string strips to nothing exactly when it is all whitespace, and it
      has no words exactly then. */
  lemma StripBlankIff(s: string)
    ensures Words(Strip(s)) == [] <==> forall i :: 0 <= i < |s| ==> IsSpace(s[i])
  {
    var l := TrimLeft(s, IsSpace);
    var r := Strip(s);
    assert l != [] ==> l[0] == s[|s| - |l|];
    assert r != [] ==> r[0] == l[0];
    assert r != [] ==> TrimLeft(r, IsSpace) == r;
    assert r != [] ==> Words(r) != [];
  }

  /** A srcset written as "url descriptor, url descriptor, ..." yields its
      first url: the descriptor and later candidates are ignored. */
  lemma SrcsetFirstCandidate(url: string, tail: string)
    requires url != [] && NoSpace(url) && ',' !in url
    requires tail == [] || IsSpace(tail[0]) || tail[0] == ','
    ensures FirstSrcFromSrcset(url + tail) == Some(url)
  {
    var rest := SegmentAfterUrl(url, tail);
    FirstWordOfSegment(url, rest);
  }

  /** A segment made of a url and then nothing or whitespace splits into
      that url first. */
  lemma FirstWordOfSegment(url: string, rest: string)
    requires url != [] && NoSpace(url)
    requires rest == [] || IsSpace(rest[0])
    ensures Words(Strip(url + rest)) != [] && Words(Strip(url + rest))[0] == url
  {
    StripKeepsHead(url, rest);
    var st := Strip(url + rest);
    assert url + st[|url|..] == st;
    WordsHead(url, st[|url|..]);
  }

  /** The part before the first comma of "url + tail" is the url followed by
      nothing or by whitespace. */
  lemma SegmentAfterUrl(url: string, tail: string) returns (rest: string)
    requires ',' !in url
    requires tail == [] || IsSpace(tail[0]) || tail[0] == ','
    ensures BeforeComma(url + tail) == url + rest
    ensures rest == [] || IsSpace(rest[0])
  {
    var s := url + tail;
    var seg := BeforeComma(s);
    forall i | 0 <= i < |url| ensures s[i] != ',' {
      assert s[i] == url[i] && url[i] in url;
    }
    assert |seg| >= |url|;
    assert seg[..|url|] == url;
    rest := seg[|url|..];
    assert seg == url + rest;
    if rest != [] {
      assert rest[0] == s[|url|] == tail[0];
    }
  }

  /** Stripping "w + rest", with w free of whitespace and rest empty or
      starting with whitespace, keeps w and leaves rest's part empty or
      starting with whitespace. */
  lemma StripKeepsHead(w: string, rest: string)
    requires w != [] && NoSpace(w)
    requires rest == [] || IsSpace(rest[0])
    ensures |Strip(w + rest)| >= |w| && Strip(w + rest)[..|w|] == w
    ensures var st := Strip(w + rest); |st| == |w| || IsSpace(st[|w|])
  {
    var s := w + rest;
    assert s[0] == w[0];
    assert TrimLeft(s, IsSpace) == s;
    var st := TrimRight(s, IsSpace);
    assert s[|w| - 1] == w[|w| - 1];
    assert |st| >= |w|;
    assert st[..|w|] == s[..|w|] == w;
    if |st| > |w| {
      assert st[|w|] == s[|w|] == rest[0];
    }
  }

  /** _absolutize: protocol-relative references get the https scheme. */
  function Absolutize(url: string): (r: string)
    ensures r == "" <==> url == ""
    ensures StartsWith(url, "//") ==> r == "https:" + url
    ensures !StartsWith(url, "//") ==> r == url
    ensures !StartsWith(r, "//")
  {
    if url == "" then ""
    else if StartsWith(url, "//") then
      assert ("https:" + url)[..2] == "ht";
      "https:" + url
    else url
  }

  predicate IsHttp(url: string)
  {
    StartsWith(url, "http://") || StartsWith(url, "https://")
  }

  /** A protocol-relative reference becomes an https URL, so the collector
      keeps it. */
  lemma ProtocolRelativeIsHttps(url: string)
    requires StartsWith(url, "//")
    ensures Absolutize(url) == "https:" + url && IsHttp(Absolutize(url))
  {
    assert ("https:" + url)[..8] == "https:" + url[..2];
  }

  /** Absolutising twice is absolutising once. */
  lemma AbsolutizeIdempotent(url: string)
    ensures Absolutize(Absolutize(url)) == Absolutize(url)
  {
  }

  /** The attributes that may hold an image reference, in precedence order. */
  const ImageSrcAttributes: seq<string> :=
    ["src", "data-src", "data-lazy-src", "data-original", "data-background"]

  /** The Python chain `a or b or c ...` over attribute values: the first
      non-empty one, or "" when all are empty or absent. */
  function FirstNonEmpty(attrs: Attrs, names: seq<string>): (r: string)
    ensures r == "" <==> forall k :: 0 <= k < |names| ==> Get(attrs, names[k]) == ""
    ensures r != "" ==> exists k :: 0 <= k < |names| && Get(attrs, names[k]) == r
                         && forall j :: 0 <= j < k ==> Get(attrs, names[j]) == ""
  {
    if names == [] then ""
    else if Get(attrs, names[0]) != "" then Get(attrs, names[0])
    else
      var r := FirstNonEmpty(attrs, names[1..]);
      assert r != "" ==> exists k :: 0 <= k < |names| && Get(attrs, names[k]) == r &&
                           forall j :: 0 <= j < k ==> Get(attrs, names[j]) == "" by {
        if r != "" {
          var k :| 0 <= k < |names| - 1 && Get(attrs, names[1..][k]) == r
                   && forall j :: 0 <= j < k ==> Get(attrs, names[1..][j]) == "";
          assert Get(attrs, names[k + 1]) == r;
          forall j | 0 <= j < k + 1 ensures Get(attrs, names[j]) == "" {
            if j > 0 { assert names[j] == names[1..][j - 1]; }
          }
        }
      }
      r
  }

  /** The image reference of an <img> (lines 42-51 and 105-114): the first
      non-empty of src, data-src, data-lazy-src, data-original,
      data-background; failing those the first candidate of a non-empty
      srcset; then absolutised. Some("") means no reference at all; None is
      the IndexError of a blank first srcset candidate. */
  function ResolveImageSrc(attrs: Attrs): (r: Option<string>)
    ensures r.Some? ==> !StartsWith(r.value, "//")
  {
    var src := FirstNonEmpty(attrs, ImageSrcAttributes);
    if src == "" && Get(attrs, "srcset") != "" then
      match FirstSrcFromSrcset(Get(attrs, "srcset"))
      case None => None
      case Some(first) => Some(Absolutize(first))
    else Some(Absolutize(src))
  }

  /** The three outcomes of the resolution: it raises only on a blank first
      srcset candidate when no attribute of the chain is set; it yields ""
      only when neither the chain nor srcset is set; and a set attribute of
      the chain always wins over srcset. */
  lemma ResolveImageSrcCases(attrs: Attrs)
    ensures ResolveImageSrc(attrs).None? <==>
      FirstNonEmpty(attrs, ImageSrcAttributes) == "" && Get(attrs, "srcset") != ""
      && FirstSrcFromSrcset(Get(attrs, "srcset")).None?
    ensures ResolveImageSrc(attrs) == Some("") <==>
      FirstNonEmpty(attrs, ImageSrcAttributes) == "" && Get(attrs, "srcset") == ""
    ensures FirstNonEmpty(attrs, ImageSrcAttributes) != "" ==>
      ResolveImageSrc(attrs) == Some(Absolutize(FirstNonEmpty(attrs, ImageSrcAttributes)))
    ensures FirstNonEmpty(attrs, ImageSrcAttributes) == "" && Get(attrs, "srcset") != ""
            && FirstSrcFromSrcset(Get(attrs, "srcset")).Some? ==>
      ResolveImageSrc(attrs) == Some(Absolutize(FirstSrcFromSrcset(Get(attrs, "srcset")).value))
  {
  }

  /** An empty src does not hide a later lazy-load attribute. */
  lemma EmptySrcFallsThrough(lazy: string)
    requires lazy != "" && !StartsWith(lazy, "//")
    ensures ResolveImageSrc([("data-src", lazy), ("src", "")]) == Some(lazy)
  {
    var attrs := [("data-src", lazy), ("src", "")];
    assert Get(attrs, "src") == "";
    assert Get(attrs, "data-src") == lazy;
    assert ImageSrcAttributes[1..][0] == "data-src";
    assert FirstNonEmpty(attrs, ImageSrcAttributes[1..]) == lazy;
  }

  // ---------------------------------------------------------------------
  // re.findall(r"url\((.*?)\)", style)

  /** The position of the first ')' at or after k, provided no newline comes
      before it ('.' does not match a newline). */
  function CloseParen(s: string, k: nat): (r: Option<nat>)
    requires k <= |s|
    ensures r.Some? ==> k <= r.value < |s| && s[r.value] == ')'
                        && forall i :: k <= i < r.value ==> s[i] != ')' && s[i] != '\n'
    decreases |s| - k
  {
    if k == |s| then None
    else if s[k] == ')' then Some(k)
    else if s[k] == '\n' then None
    else CloseParen(s, k + 1)
  }

  /** There is no such ')' exactly when every ')' after k has a newline
      before it. */
  lemma {:induction false} CloseParenNone(s: string, k: nat)
    requires k <= |s|
    ensures CloseParen(s, k).None? <==>
      forall i :: k <= i < |s| && s[i] == ')' ==> exists j :: k <= j < i && s[j] == '\n'
    decreases |s| - k
  {
    if k < |s| && s[k] != ')' && s[k] != '\n' {
      CloseParenNone(s, k + 1);
    }
  }

  /** "url(" at p opens a match: a ')' follows with no newline before it. */
  predicate MatchAt(s: string, p: nat)
  {
    p + 4 <= |s| && s[p..p + 4] == "url(" && CloseParen(s, p + 4).Some?
  }

  /** The captured groups of the non-overlapping matches, scanning from i. */
  function UrlArgsFrom(s: string, i: nat): (r: seq<string>)
    requires i <= |s|
    ensures forall a <- r :: ')' !in a && '\n' !in a
    decreases |s| - i
  {
    if i + 4 > |s| then []
    else if s[i..i + 4] == "url(" then
      match CloseParen(s, i + 4)
      case Some(j) =>
        var arg := s[i + 4..j];
        assert forall c <- arg :: c != ')' && c != '\n' by {
          forall c | c in arg ensures c != ')' && c != '\n' {
            var m :| 0 <= m < |arg| && arg[m] == c;
            assert c == s[i + 4 + m];
          }
        }
        [arg] + UrlArgsFrom(s, j + 1)
      case None => UrlArgsFrom(s, i + 1)
    else UrlArgsFrom(s, i + 1)
  }

  function UrlArgs(style: string): seq<string>
  {
    UrlArgsFrom(style, 0)
  }

  /** There is no match exactly when no "url(" at or after i is followed by
      a ')' without a newline in between. */
  lemma {:induction false} UrlArgsEmptyIff(s: string, i: nat)
    requires i <= |s|
    ensures UrlArgsFrom(s, i) == [] <==> forall p :: i <= p <= |s| ==> !MatchAt(s, p)
    decreases |s| - i
  {
    if MatchAt(s, i) {
      assert UrlArgsFrom(s, i) != [];
    } else if i + 4 <= |s| {
      assert UrlArgsFrom(s, i) == UrlArgsFrom(s, i + 1);
      UrlArgsEmptyIff(s, i + 1);
    }
  }

  /** re.findall takes the leftmost match, captures what lies between "url("
      and the first ')' after it, and resumes the search after that ')'. */
  lemma UrlArgsLeftmost(s: string, i: nat)
    requires i <= |s| && UrlArgsFrom(s, i) != []
    ensures exists p :: i <= p <= |s| && MatchAt(s, p) && (forall q :: i <= q < p ==> !MatchAt(s, q))
              && UrlArgsFrom(s, i) == [s[p + 4..CloseParen(s, p + 4).value]] + UrlArgsFrom(s, CloseParen(s, p + 4).value + 1)
  {
    var p := LeftmostMatch(s, i);
    UrlArgsAtMatch(s, p);
  }

  /** The scan passes over the positions before the leftmost match without
      capturing anything. */
  lemma {:induction false} LeftmostMatch(s: string, i: nat) returns (p: nat)
    requires i <= |s| && UrlArgsFrom(s, i) != []
    ensures i <= p <= |s| && MatchAt(s, p) && (forall q :: i <= q < p ==> !MatchAt(s, q))
    ensures UrlArgsFrom(s, i) == UrlArgsFrom(s, p)
    decreases |s| - i
  {
    if MatchAt(s, i) {
      p := i;
    } else {
      UrlArgsSkip(s, i);
      p := LeftmostMatch(s, i + 1);
      NoMatchBefore(s, i, p);
    }
  }

  lemma UrlArgsAtMatch(s: string, i: nat)
    requires i <= |s| && MatchAt(s, i)
    ensures UrlArgsFrom(s, i) == [s[i + 4..CloseParen(s, i + 4).value]] + UrlArgsFrom(s, CloseParen(s, i + 4).value + 1)
  {
  }

  lemma UrlArgsSkip(s: string, i: nat)
    requires i <= |s| && UrlArgsFrom(s, i) != [] && !MatchAt(s, i)
    ensures i < |s| && UrlArgsFrom(s, i) == UrlArgsFrom(s, i + 1)
  {
  }

  lemma NoMatchBefore(s: string, i: nat, p: nat)
    requires i < p && !MatchAt(s, i) && forall q :: i + 1 <= q < p ==> !MatchAt(s, q)
    ensures forall q :: i <= q < p ==> !MatchAt(s, q)
  {
  }

  /** A lone url(...) call yields exactly its argument. */
  lemma UrlArgsSingle(arg: string)
    requires ')' !in arg && '\n' !in arg
    ensures UrlArgs("url(" + arg + ")") == [arg]
  {
    var s := "url(" + arg + ")";
    assert s[0..4] == "url(";
    var j := |s| - 1;
    assert forall i :: 4 <= i < j ==> s[i] == arg[i - 4];
    assert CloseParen(s, 4) == Some(j) by {
      CloseParenFinds(s, 4, j);
    }
    assert s[4..j] == arg;
    assert UrlArgsFrom(s, j + 1) == [];
  }

  lemma {:induction false} CloseParenFinds(s: string, k: nat, j: nat)
    requires k <= j < |s| && s[j] == ')'
    requires forall i :: k <= i < j ==> s[i] != ')' && s[i] != '\n'
    ensures CloseParen(s, k) == Some(j)
    decreases j - k
  {
    if k < j {
      CloseParenFinds(s, k + 1, j);
    }
  }

  predicate IsQuoteOrSpace(c: char)
  {
    c == '"' || c == '\'' || c == ' '
  }

  /** The URLs an inline style names, as the collector reads them:
      match.strip("\"' ") and then absolutised (line 67). One URL per match;
      none is protocol-relative, none holds a ')' or a newline, and none
      starts or ends with a quote or a space. */
  function StyleUrls(style: string): (r: seq<string>)
    ensures |r| == |UrlArgs(style)|
    ensures forall u <- r :: !StartsWith(u, "//") && ')' !in u && '\n' !in u
    ensures forall u <- r :: u == [] || (!IsQuoteOrSpace(u[0]) && !IsQuoteOrSpace(u[|u| - 1]))
  {
    var args := UrlArgs(style);
    StyleUrlsClean(args);
    StyleUrlsOf(args)
  }

  /** match.strip("\"' ") and absolutising, over a list of groups. */
  function StyleUrlsOf(args: seq<string>): (r: seq<string>)
    ensures |r| == |args|
  {
    if args == [] then [] else [StyleUrl(args[0])] + StyleUrlsOf(args[1..])
  }

  lemma {:induction false} StyleUrlsClean(args: seq<string>)
    requires forall a <- args :: ')' !in a && '\n' !in a
    ensures forall u <- StyleUrlsOf(args) :: CleanUrl(u)
  {
    if args != [] {
      assert args[0] in args;
      assert forall b <- args[1..] :: b in args;
      StyleUrlsClean(args[1..]);
      StyleUrlShape(args[0]);
      assert StyleUrlsOf(args) == [StyleUrl(args[0])] + StyleUrlsOf(args[1..]);
    }
  }

  /** Not protocol-relative, free of ')' and newlines, and without a quote
      or a space at either end. */
  predicate CleanUrl(u: string)
  {
    !StartsWith(u, "//") && ')' !in u && '\n' !in u
    && (u == [] || (!IsQuoteOrSpace(u[0]) && !IsQuoteOrSpace(u[|u| - 1])))
  }

  /** One group: match.strip("\"' "), then absolutised. */
  function StyleUrl(a: string): string
  {
    Absolutize(Trim(a, IsQuoteOrSpace))
  }

  /** Stripping quotes and spaces and absolutising keeps a group free of ')'
      and newlines and leaves no quote or space at either end. */
  lemma StyleUrlShape(a: string)
    requires ')' !in a && '\n' !in a
    ensures var u := Absolutize(Trim(a, IsQuoteOrSpace));
            ')' !in u && '\n' !in u && (u == [] || (!IsQuoteOrSpace(u[0]) && !IsQuoteOrSpace(u[|u| - 1])))
  {
    var t := Trim(a, IsQuoteOrSpace);
    TrimmedGroup(a);
    AbsolutizeShape(t);
  }

  lemma TrimmedGroup(a: string)
    requires ')' !in a && '\n' !in a
    ensures var t := Trim(a, IsQuoteOrSpace);
            ')' !in t && '\n' !in t && (t == [] || (!IsQuoteOrSpace(t[0]) && !IsQuoteOrSpace(t[|t| - 1])))
  {
    TrimFixpoint(a, IsQuoteOrSpace);
    TrimInside(a, IsQuoteOrSpace);
  }

  lemma AbsolutizeShape(t: string)
    requires ')' !in t && '\n' !in t && (t == [] || (!IsQuoteOrSpace(t[0]) && !IsQuoteOrSpace(t[|t| - 1])))
    ensures var u := Absolutize(t);
            ')' !in u && '\n' !in u && (u == [] || (!IsQuoteOrSpace(u[0]) && !IsQuoteOrSpace(u[|u| - 1])))
  {
    if StartsWith(t, "//") {
      var u := "https:" + t;
      assert u[0] == 'h' && u[|u| - 1] == t[|t| - 1];
      assert forall c <- u :: c in "https:" || c in t;
    }
  }

  /** Every character of a trimmed string comes from the string. */
  lemma TrimInside(a: string, drop: char -> bool)
    ensures forall c <- Trim(a, drop) :: c in a
  {
    var l := TrimLeft(a, drop);
    var t := TrimRight(l, drop);
    forall c | c in t ensures c in a {
      var m :| 0 <= m < |t| && t[m] == c;
      assert t[m] == l[m];
      assert l[m] == a[|a| - |l| + m];
    }
  }

  /** A quoted url("...") in a style gives the quoted text, absolutised. */
  lemma StyleUrlQuoted(arg: string)
    requires arg != [] && ')' !in arg && '\n' !in arg
    requires !IsQuoteOrSpace(arg[0]) && !IsQuoteOrSpace(arg[|arg| - 1])
    ensures StyleUrls("url(\"" + arg + "\")") == [Absolutize(arg)]
  {
    var quoted := "\"" + arg + "\"";
    var style := "url(" + quoted + ")";
    assert "url(\"" + arg + "\")" == style;
    QuotedGroup(arg);
    UrlArgsSingle(quoted);
    TrimQuotes(arg);
    assert [quoted][1..] == [];
    assert StyleUrlsOf([quoted]) == [StyleUrl(quoted)] + StyleUrlsOf([]);
  }

  lemma QuotedGroup(arg: string)
    requires ')' !in arg && '\n' !in arg
    ensures var quoted := "\"" + arg + "\""; ')' !in quoted && '\n' !in quoted
  {
    var quoted := "\"" + arg + "\"";
    assert forall c <- quoted :: c == '"' || c in arg;
  }

  /** Stripping the quotes of "arg" gives arg back when arg neither starts
      nor ends with a quote or a space. */
  lemma TrimQuotes(arg: string)
    requires arg != [] && !IsQuoteOrSpace(arg[0]) && !IsQuoteOrSpace(arg[|arg| - 1])
    ensures Trim("\"" + arg + "\"", IsQuoteOrSpace) == arg
  {
    var quoted := "\"" + arg + "\"";
    assert quoted[1..] == arg + "\"";
    assert TrimLeft(arg + "\"", IsQuoteOrSpace) == arg + "\"" by {
      assert (arg + "\"")[0] == arg[0];
    }
    assert TrimLeft(quoted, IsQuoteOrSpace) == arg + "\"";
    assert (arg + "\"")[..|arg|] == arg;
    assert TrimRight(arg, IsQuoteOrSpace) == arg;
  }
}
