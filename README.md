# Skuad blog scraper: a verified model of the extraction core

`blog_scraper_skuad.py` fetches a skuad.io blog page and answers with the
page's title, its article markup and the images it uses. This project models
the part of that program that decides what ends up in the answer. The model
starts from the page already parsed into a tree of elements and text nodes.

- **Title** (`extract_title`): four selectors are tried in order. The first
  match whose stripped text is non-empty gives the title.
- **Article** (`build_combined_article_html`): the builder finds the rich
  articles below the first `div.blog-content-new`, or in the whole page when
  that container is missing. It cleans each article where it stands, joins
  their markup, strips it, and wraps it in one `<article>`.
- **Cleaning** (`clean_article`): eleven kinds of page furniture are removed
  with everything inside them. Tags outside a sixteen-tag allowlist are
  unwrapped. An `img` keeps only a resolved `src` and a stripped `alt`, or is
  removed when it has no reference. An `a` keeps only a non-blank stripped
  `href`. Every other kept tag loses all its attributes.
- **Images** (`extract_images`, `extract_all_images`): the http(s) URLs of
  `img` references, of the first `source srcset` candidates and of
  `url(...)` values in inline styles. They are collected from the hero
  container, the content container and every rich article. This happens
  after the builder has cleaned the articles in place.
- **Reply** (`scrape_blog`): title, `<h1>title</h1>` followed by the article
  markup, the images once each, and one `imageN.png` name per image. The
  reply is 422 when the article markup is empty. It is 500 when an image
  reference raises `IndexError`: a non-empty `srcset` whose first
  comma-separated candidate is blank.

The modules follow the program:

- `Strings`: Python's `strip`, `split` and `startswith`, and the decimal
  rendering used in image names.
- `Dom`: the tree, BeautifulSoup's `find`, `find_all`, `select_one` and
  `get_text(strip=True)`, and positions with in-place replacement of a subtree.
- `Urls`: `_first_src_from_srcset`, `_absolutize`, the image-reference chain
  and the `url(...)` regular expression.
- `Collector`: `extract_images`.
- `Sanitizer`: `clean_article`, stated on values.
- `Scraper`: the title, the builder, the image gathering, and the `Soup`
  class. `Soup` holds the page and changes it in place, as the program does.

Raising is modelled as `None`, and `scrape_blog` turns it into
`ServerError`. The builder needs the rich articles it cleans not to be
nested inside one another (`NotNested`), so that cleaning one leaves the
positions of the others intact.

Two things the program does not do:

- It has no fallback to a generic `article` or `body` element. Without rich
  articles it answers 422.
- It has no fallback to the page's `<title>`.

## Model

| member | source | states |
|---|---|---|
| Urls.FirstSrcFromSrcset | blog_scraper_skuad.py:20-25 | An empty srcset gives ""; it raises (None) exactly when the text before the first comma is all whitespace; otherwise the result is the first maximal run of non-whitespace characters before the first comma: only whitespace precedes it, and the end of the segment or whitespace follows it |
| Urls.StripBlankIff | blog_scraper_skuad.py:24 | `strip().split()` has no first word exactly when the text is all whitespace |
| Urls.SrcsetFirstCandidate | blog_scraper_skuad.py:20-25 | For a srcset written as "url descriptor, …" the result is that url; descriptors and later candidates are ignored |
| Urls.Absolutize | blog_scraper_skuad.py:27-32 | The result is empty iff the input is; a "//" reference becomes "https:" + reference, and any other comes back unchanged; the result never starts with "//" |
| Urls.ProtocolRelativeIsHttps | blog_scraper_skuad.py:30-31 | A "//" reference becomes "https:" + reference, which counts as an https URL |
| Urls.AbsolutizeIdempotent | blog_scraper_skuad.py:27-32 | Absolutising twice is absolutising once |
| Urls.FirstNonEmpty | blog_scraper_skuad.py:42-48 | The `a or b or …` chain gives "" iff every attribute is empty or absent; otherwise it gives the first non-empty one, and every earlier one is empty |
| Urls.ResolveImageSrc | blog_scraper_skuad.py:42-51 | A resolved image reference never starts with "//" |
| Urls.ResolveImageSrcCases | blog_scraper_skuad.py:42-51 | It raises only when no chain attribute is set and the first srcset candidate is blank; it is "" only when neither the chain nor srcset is set; a set chain attribute wins over srcset and is absolutised; otherwise the result is the absolutised first srcset candidate |
| Urls.EmptySrcFallsThrough | blog_scraper_skuad.py:42-48 | An empty `src` does not hide a later `data-src` |
| Urls.CloseParen | blog_scraper_skuad.py:66 | A position found is the first ")" at or after the start, with no newline before it |
| Urls.CloseParenNone | blog_scraper_skuad.py:66 | No ")" is found exactly when every ")" after the start has a newline before it (`.` does not match a newline) |
| Urls.UrlArgsFrom | blog_scraper_skuad.py:66 | No captured group of `url\((.*?)\)` contains ")" or a newline |
| Urls.UrlArgsEmptyIff | blog_scraper_skuad.py:66 | `re.findall` finds nothing exactly when no "url(" at or after the start is followed by a ")" without a newline in between |
| Urls.UrlArgsLeftmost | blog_scraper_skuad.py:66 | When there are matches, the first group is the text between the leftmost matching "url(" and the first ")" after it, and the search resumes after that ")" |
| Urls.UrlArgsSingle | blog_scraper_skuad.py:66 | "url(x)" yields exactly [x] |
| Urls.StyleUrls | blog_scraper_skuad.py:66-67 | One URL per match; no URL is protocol-relative, holds ")" or a newline, or has a quote or a space at either end |
| Urls.StyleUrlQuoted | blog_scraper_skuad.py:66-67 | `url("x")` yields exactly the absolutised x: the quotes are stripped |
| Collector.HttpRefsMembers | blog_scraper_skuad.py:52-53 | A URL is kept iff it is http(s) and some element's resolved reference is that URL |
| Collector.HttpUrlsMembers | blog_scraper_skuad.py:68-69 | A style URL is kept iff it occurs and is http(s) |
| Collector.ScanImages | blog_scraper_skuad.py:41-53 | The img loop raises iff some img's reference raises; otherwise it yields exactly the http(s) references of the img elements below |
| Collector.ScanSources | blog_scraper_skuad.py:56-61 | The source loop raises iff some non-empty srcset has a blank first candidate; otherwise it yields the http(s) first candidates |
| Collector.ScanStyles | blog_scraper_skuad.py:64-69 | The style loop yields the http(s) URLs among the url(...) values of every styled element below |
| Collector.AddHttp | blog_scraper_skuad.py:66-69 | The inner loop adds exactly the http(s) URLs of one style |
| Collector.ExtractImages | blog_scraper_skuad.py:34-71 | The three loops together compute the container's image set; a missing container gives the empty set; every URL is http(s) |
| Collector.CollectedHttp | blog_scraper_skuad.py:52-53 | Only http(s) URLs are collected |
| Collector.CollectedFailsIff | blog_scraper_skuad.py:41-61 | `extract_images` raises exactly when an img or a source below has a failing srcset |
| Collector.CollectedMembers | blog_scraper_skuad.py:38-71 | A URL is in the result iff it is http(s) and is an img reference, a source's first candidate or a style url(...) value below the container |
| Collector.ProtocolRelativeImageCollected | blog_scraper_skuad.py:42-53 | An img whose chosen attribute is "//host/x" contributes "https://host/x" |
| Sanitizer.RemoveMatching | blog_scraper_skuad.py:92-93 | After the removal for one selector nothing below matches it |
| Sanitizer.RemoveMatchingTokens | blog_scraper_skuad.py:92-93 | The removal keeps every tag and text outside the matched subtrees, in order: its tag stream is the input's with the span from each matching start tag to its own end tag dropped |
| Sanitizer.RemoveKeepsAbsent | blog_scraper_skuad.py:92-93 | A removal never brings back a match of another selector |
| Sanitizer.RemoveEachClears | blog_scraper_skuad.py:79-93 | After the removal loop no blocklisted selector matches anything below |
| Sanitizer.RemoveEachNoop | blog_scraper_skuad.py:79-93 | When nothing matches, the removal loop changes nothing |
| Sanitizer.BlocklistDisallowed | blog_scraper_skuad.py:79-96 | No blocklisted tag is on the allowlist |
| Sanitizer.AllowedNotBlocked | blog_scraper_skuad.py:79-96 | A tree holding only allowlisted tags has nothing the blocklist names |
| Sanitizer.AltText | blog_scraper_skuad.py:115 | The new alt is the stripped alt when alt is set, and "Image" when it is empty or absent; either way it is stripped |
| Sanitizer.LinkAttrs | blog_scraper_skuad.py:120-122 | A link keeps no attributes iff its stripped href is blank; otherwise it keeps exactly that stripped href |
| Sanitizer.SanitizeNodes | blog_scraper_skuad.py:98-124 | After the pass every element below has an allowlisted tag and exactly the attributes the pass leaves (img: non-empty resolved src and stripped alt; a: nothing or a stripped href; others: nothing) |
| Sanitizer.CleanArticle | blog_scraper_skuad.py:73-126 | The article keeps its own tag and attributes; only what is below it changes |
| Sanitizer.CleanArticleSafe | blog_scraper_skuad.py:79-124 | Below a cleaned article every element has the safe shape and no blocklisted selector matches |
| Sanitizer.SanitizeTokens | blog_scraper_skuad.py:98-124 | On a parsed tree the pass rewrites the tag stream token by token. Texts stay in place. An unwrapped element loses only its own tags. A removed img takes nothing else. Each kept tag gets its new attributes |
| Sanitizer.SanitizeFailsIff | blog_scraper_skuad.py:104-114 | On a parsed tree the pass raises exactly when some img below has no chain attribute and a blank first srcset candidate |
| Sanitizer.SanitizeFixpoint | blog_scraper_skuad.py:98-124 | Safe elements with a non-blank alt go through the pass unchanged |
| Sanitizer.CleanArticleIdempotentUnlessBlankAlt | blog_scraper_skuad.py:73-126 | Cleaning a cleaned article changes nothing unless an img in it was left with an empty alt |
| Sanitizer.BlankAltNotIdempotent | blog_scraper_skuad.py:115-117 | An alt of " " becomes "" on the first run and "Image" on the second |
| Sanitizer.CleanSingleImage | blog_scraper_skuad.py:104-117 | An article with one img keeps its src and gets the computed alt |
| Dom.FindAll | blog_scraper_skuad.py:138-140 | `find_all` returns only matching elements from below the search root |
| Dom.Matching | blog_scraper_skuad.py:138-140 | The reference filter keeps exactly the matching elements of a list, in order |
| Dom.FindAllIsMatching | blog_scraper_skuad.py:138-140 | `find_all` returns exactly the matching elements below the root, in document order |
| Dom.FindAllComplete | blog_scraper_skuad.py:138-140 | Every matching element below the root is in the `find_all` result |
| Dom.Find | blog_scraper_skuad.py:135 | `find` gives the first element of `find_all`, or None exactly when `find_all` gives nothing |
| Dom.FindFirst | blog_scraper_skuad.py:135 | `find` gives None exactly when no element below matches; otherwise a match with no matching element before it in document order |
| Dom.SelectOne | blog_scraper_skuad.py:163 | `select_one` gives the first of the `select` matches, or None when there is none |
| Dom.FindBelowInside | blog_scraper_skuad.py:157 | Once the search is inside an element matching the outer part (`div.container-new`), the descendant selector finds every match of the inner part (`h1.payo-h1`) |
| Dom.StrippedTextTrimmed | blog_scraper_skuad.py:164-165 | `get_text(strip=True)` neither starts nor ends with whitespace |
| Dom.Render | blog_scraper_skuad.py:146 | An element's markup starts with "<" and ends with ">" |
| Dom.MatchPathsNodes | blog_scraper_skuad.py:138-140 | The positions of the matches hold exactly the `find_all` elements, in order |
| Dom.MatchPathsIncomparable | blog_scraper_skuad.py:143-146 | When matches do not nest, no match position lies inside another |
| Dom.ReplaceAtSame | blog_scraper_skuad.py:93 | After a subtree is replaced in place, its position holds the new subtree |
| Dom.ReplaceAtOther | blog_scraper_skuad.py:93 | Replacing one subtree leaves every position outside it valid and unchanged |
| Dom.ReplaceEach | blog_scraper_skuad.py:143-146 | After the articles are replaced one by one, each position holds its cleaned article |
| Dom.ReplaceEachOther | blog_scraper_skuad.py:143-146 | Positions apart from all replaced ones keep their nodes |
| Strings.TrimFixpoint | blog_scraper_skuad.py:24 | `strip` leaves no whitespace at either end, keeps a string without any, and is idempotent |
| Strings.WordsHead | blog_scraper_skuad.py:24 | `split()` of a word followed by whitespace or nothing starts with that word |
| Strings.NatToStringRoundTrip | blog_scraper_skuad.py:210 | Reading back the decimal rendering of n gives n |
| Strings.NatToStringInjective | blog_scraper_skuad.py:210 | Different numbers render differently |
| Scraper.FirstText | blog_scraper_skuad.py:162-166 | The title is "" iff every selector's text is empty; otherwise it is the first non-empty one, and every earlier one is empty |
| Scraper.TitlePrefersContainer | blog_scraper_skuad.py:157-165 | A heading with text under `div.container-new` is the title |
| Scraper.TitleFromFirstH1 | blog_scraper_skuad.py:160-166 | The title is non-empty whenever the first h1 of the page has text |
| Scraper.TitleIsStripped | blog_scraper_skuad.py:164-165 | The title neither starts nor ends with whitespace |
| Scraper.Articles | blog_scraper_skuad.py:135-140 | Every article the builder visits is a `blog-details-rich` article element |
| Scraper.ArticlePaths | blog_scraper_skuad.py:135-146 | The positions of the visited articles hold exactly them; when they do not nest, the positions are pairwise apart |
| Scraper.AllSome | blog_scraper_skuad.py:143-146 | The loop raises iff some run of `clean_article` raised; otherwise the results are exactly the cleaned articles, one per article |
| Scraper.CleanAllAt | blog_scraper_skuad.py:143-146 | Each article's cleaning is the one in the result, and one raising article makes the builder raise |
| Scraper.ConcatRenderedEnds | blog_scraper_skuad.py:146-148 | Joined cleaned articles start with "<", end with ">" and carry no surrounding whitespace |
| Scraper.StripRendered | blog_scraper_skuad.py:148 | The final `strip()` changes nothing and the joined markup is non-empty |
| Scraper.CombinedHtmlShape | blog_scraper_skuad.py:148-149 | The markup is "" without articles; otherwise it is the joined markup inside one `<article>` |
| Scraper.NoArticlesIff | blog_scraper_skuad.py:148-149 | The builder returns "" (the 422 case) exactly when there are no rich articles |
| Scraper.UnionAllCover | blog_scraper_skuad.py:179-180 | Each article's images are in the union |
| Scraper.UnionAllIff | blog_scraper_skuad.py:179-180 | The union succeeds exactly when every scan succeeds, and then holds exactly the URLs some scan found |
| Scraper.ArticlesImagesIff | blog_scraper_skuad.py:179-180 | The article loop succeeds exactly when every rich article's scan succeeds, and then holds exactly the URLs found in some article |
| Scraper.AllImagesIff | blog_scraper_skuad.py:168-181 | `extract_all_images` succeeds exactly when the hero, the content container and every rich article scan without raising; its URLs are then those of the hero, the content container or some article, and nothing else |
| Scraper.AllImagesCover | blog_scraper_skuad.py:168-181 | The hero's, the content container's and every rich article's images are all in the result |
| Scraper.ScanArticles | blog_scraper_skuad.py:179-180 | The article loop computes the union of the articles' image sets, or raises when one raises; every URL is http(s) |
| Scraper.ImageNamesDistinct | blog_scraper_skuad.py:210 | The i-th name is "image" + (i+1) + ".png", and no two names are equal |
| Scraper.SetToList | blog_scraper_skuad.py:181 | `list(urls)` holds each member of the set exactly once |
| Scraper.Soup.constructor | blog_scraper_skuad.py:198 | The page is the parsed document |
| Scraper.Soup.RemoveEachAt | blog_scraper_skuad.py:79-93 | The removal loop changes the page only below the article, and there exactly as the removals prescribe |
| Scraper.Soup.CleanArticleAt | blog_scraper_skuad.py:73-126 | `clean_article` in place: the result is the article's cleaned form, or None when the pass raises; on success the article is replaced by its cleaned form and nothing else on the page changes |
| Scraper.Soup.CleanArticlesAt | blog_scraper_skuad.py:142-146 | The loop raises iff some article's cleaning raises; otherwise it yields the markup of each cleaned article, and the page holds the cleaned articles at their positions |
| Scraper.Soup.BuildCombinedArticleHtml | blog_scraper_skuad.py:128-149 | The builder raises iff a rich article's cleaning raises; otherwise it returns the wrapped markup and leaves the page with every rich article cleaned in place |
| Scraper.Soup.ExtractAllImages | blog_scraper_skuad.py:168-181 | The image gathering returns the union of the hero's, the content container's and the articles' image sets, or raises; every URL is http(s) |
| Scraper.Soup.ScrapeBlog | blog_scraper_skuad.py:198-221 | 500 when cleaning or image gathering raises, and 422 when the article markup is empty. Otherwise the reply is the 200 payload: the title of the page as fetched, "<h1>title</h1>" + markup, the images of the page as cleaned (each once) and one name per image |

## Left out

- The Flask route, the JSON request and reply encoding, CORS, the 400 reply for a missing `url`, logging and the `__main__` block: HTTP plumbing around the core.
- `requests.get` and `raise_for_status`: the network. The page is a parameter, and their failures are 500 replies the model does not describe.
- HTML parsing: the parsed tree is the input. `Parsed` records the one property of html.parser the proofs need: void elements such as `img` have no children.
- `str(tag)` serialisation: `Dom.Render` is a simple stand-in. It does not reproduce BeautifulSoup's attribute quoting or entity escaping, or `str` of comments and doctypes.
- Comments, CDATA and other special strings that `get_text` may include or skip: text nodes are plain text.
- Nested rich articles: the builder and the reply require that no rich article lies inside another one. For nested articles the outcome depends on how BeautifulSoup treats an article that was detached while cleaning its ancestor.
- Scraper.Soup.BuildCombinedArticleHtml: when an article's cleaning raises, the contract says nothing about the page, although the articles before it were cleaned in place. The reply is then 500 and the page is not used again.
- Scraper.Soup.CleanArticleAt: when the pass raises, the contract says nothing about the page. By then the snapshot loop has already unwrapped, or reset the attributes of, the tags before the failing `img`; the model computes the pass on values and does not track that partial state.
- Scraper.Soup.ScrapeBlog: on the 500 path the contract says nothing about the page either, for the same reason.
- Urls.ResolveImageSrc: its own contract only says the result never starts with "//". The value in each case is stated by `Urls.ResolveImageSrcCases`.
- Urls.UrlArgsFrom: its own contract only bounds what a group may contain. Which groups are found is stated by `Urls.UrlArgsEmptyIff` and `Urls.UrlArgsLeftmost`.
- Urls.StyleUrls: the contract states the number and the shape of the URLs. That each is the stripped, absolutised group is the definition itself (`Urls.StyleUrl`), shown on a quoted example by `Urls.StyleUrlQuoted`.
- Sanitizer.RemoveMatching: its own contract only says no match is left. What survives, and in what order, is stated by `Sanitizer.RemoveMatchingTokens`.
- Dom.FindAll: its own contract states soundness only. Completeness and document order are stated by `Dom.FindAllIsMatching`.
- The order of `images`: `list(set)` has no order the program relies on, so images are a set and the list is any arrangement of its members.
- `clean_article(None)` and `if cleaned:`: the builder only passes elements, and a tag is always truthy. The model has no None input and no falsy cleaned article.
- Duplicate attribute names: the attribute list is taken to have each name once. `Get` reads the first occurrence.
- The snapshot loop `for tag in list(node.find_all(True))` is modelled by the recursion it amounts to (`Sanitizer.SanitizeNodes`), not as a loop over a snapshot.
- CSS selectors and regular expressions in general: only the fixed selectors and the one pattern the program uses are modelled.
- Unicode: `str.isspace` is modelled over the characters it accepts. There is no normalisation or case folding.
