# Blog scraper core, modelled in Dafny

The scraper opens a blog's listing page. It decides how the blog paginates, collects the article links of the page, visits each article and extracts a record. It then computes the URL of the next listing page. This project models the decision logic of `scrape.js` as pure functions over strings and sequences, and proves properties of them. The browser itself is abstracted away.

Modules, in dependency order:

- `Wrappers`: `Option` and `Result`.
- `Page`: the anchors of a loaded page, with the selectors each one matches.
- `Whitespace`: the JavaScript white-space set, and the two operations applied to extracted text:
  - `trim`, as `Trim`;
  - `replace(/\s+/g, " ")`, as `Collapse`.
  `Collapse` has an independent reference definition: blank every space, then squeeze adjacent spaces.
- `Substrings`: `includes`, the leftmost occurrence of a string, and cutting at it.
- `Decimal`: how a page counter is rendered inside a template literal, and how it is read back.
- `Selection`: the positions at which a sequence of flags is set. This is the reference for the "in-order filter" properties.
- `Pagination`: `detectPaginationType`.
  - Choosing the "next" anchor: structural selectors first, then the text fallback.
  - Classifying the scheme as `none`, `pathname`, `query` or `link-based`.
- `NextPage`: synthesis of the next listing URL for the `pathname` and `query` schemes. Each scheme has a reader that inverts it.
- `Listing`: the article-link filter over the anchors under an article title.
- `Article`:
  - content normalisation: trim, collapse, then strip the share widget;
  - the per-article accumulation loop.
- `Scrape`: one run of the scraper over the first listing page. It covers the missing-URL guard, the first navigation, detection, the article loop and the next-URL computation. It also has a corrected run for the link-based branch (see Findings).

The browser is represented by data:

- Each `Anchor` carries its resolved `href` property, its raw `href` attribute, its text, the structural "next" selectors it matches, and whether it sits under an article title.
- URL parsing is a parameter `parse: string -> Option<Url>`. A `None` result stands for the `TypeError` thrown by `new URL`.
- Each article visit is an outcome, `Loaded(heading, body, image)` or `Failed`.

Two behaviours of the code are easy to misread:

- **The "next" anchor is chosen by document order, not by selector priority.** `document.querySelector` returns the first element in document order that matches any selector in the list. So an `a.older-posts` that precedes an `a[rel="next"]` wins, as `Pagination.DocumentOrderNotSelectorOrder` shows.
- **A space before the share marker is kept.** The code trims before it cuts at the marker. So `"Hello   world.  Share this:Tweet Facebook"` normalises to `"Hello world. "`, with a trailing space, not to `"Hello world."`. `Article.SpaceBeforeMarkerSurvives` proves this for every text of that shape.

## Model

| member | source | states |
|---|---|---|
| Pagination.SelectNext | scrape.js:9-17 | The first anchor in document order that matches any structural "next" selector is chosen. Only when no anchor matches one is the first anchor whose trimmed, lower-cased text contains "older" or "next" chosen. Nothing is chosen exactly when neither kind exists. |
| Pagination.Classify | scrape.js:32-39 | The result is `pathname` iff the pathnames differ, whatever the query. It is `query` iff the pathnames agree and the searches differ. It is `link-based` iff both URLs agree. It is never `none`. |
| Pagination.Detect | scrape.js:19-43 | A missing or empty link gives `none` with a null link, and nothing is parsed. Otherwise the base URL is parsed first: if it fails, that is the error. Then the link is parsed: if it fails, the link is the error. If both parse, the result is the classification of the two URLs together with the found `href` unchanged. |
| Pagination.DetectOutcomes | scrape.js:8-43 | In terms of the selected anchor: `none` exactly when no anchor is selected or its `href` is empty. An error exactly when the `href` is non-empty and one of the two URLs does not parse. A classified scheme exactly when both parse. |
| Pagination.TextFallbackIgnoresTrim | scrape.js:14-17 | The `trim()` before the text test makes no difference: an anchor passes the fallback iff its untrimmed lower-cased text contains "older" or "next". |
| Pagination.DocumentOrderNotSelectorOrder | scrape.js:9-12 | An `a.older-posts` anchor that comes first is chosen over a later `a[rel="next"]` anchor. |
| Pagination.StructuralWithoutHrefMeansNone | scrape.js:9-25 | When some anchor matches a structural selector, the text fallback is never consulted. If that anchor has no `href`, the result is `none`, even when an earlier anchor's text says "next". |
| NextPage.DropTrailingSlash | scrape.js:157 | At most one trailing `/` is removed, and one is removed exactly when the string ends in `/`. |
| NextPage.NextPageUrl | scrape.js:155-170 | A URL is synthesised exactly for the `pathname` and `query` schemes, and then the counter goes up by exactly one. A `pathname` URL starts with the slash-trimmed base followed by `/page/`. A `query` URL starts with the unchanged base, then one separator, then `page=`. The separator is `&` iff the base contains `?` anywhere, and `?` otherwise. |
| NextPage.PathnameRoundTrip | scrape.js:155-157 | Reading a synthesised `pathname` URL back gives the slash-trimmed base and the incremented counter. The reader accepts only a numeral without a leading zero, so the counter is written as `${pageNum}` writes it. |
| NextPage.QueryRoundTrip | scrape.js:158-161 | Reading a synthesised `query` URL back gives the base URL unchanged and the incremented counter. The reader accepts only a numeral without a leading zero, so the counter is written as `${pageNum}` writes it. |
| NextPage.PathnameExample | scrape.js:155-157 | `https://x.com/blog/` on page 1 goes to `https://x.com/blog/page/2`. |
| NextPage.QueryExample | scrape.js:158-161 | `https://x.com/blog?cat=tech` on page 1 goes to `https://x.com/blog?cat=tech&page=2`. |
| Decimal.ToDecimal | scrape.js:157 | The rendered counter is a non-empty string of digits with no leading zero. |
| Decimal.ValueOfDecimal | scrape.js:157 | Reading a rendered counter back gives the counter. |
| Decimal.DecimalInjective | scrape.js:157 | Distinct counters render to distinct strings. |
| Listing.ArticleLinks | scrape.js:102-106 | The output is never longer than the input, and no kept link is empty or starts with `#`. |
| Listing.ArticleLinksAreSelection | scrape.js:102-106 | The links are exactly the `href` attributes of the qualifying anchors, in document order, one per anchor. |
| Listing.CollectArticleLinks | scrape.js:102-106 | The push loop produces the filtered links. |
| Listing.DuplicatesKept | scrape.js:103-105 | Two anchors with the same `href` give that link twice. |
| Whitespace.Trim | scrape.js:131 | The result is the part of the text from its first non-space character on. Everything cut off at either end is white space, and the result neither starts nor ends with white space. |
| Whitespace.CollapseIsSqueezedBlank | scrape.js:132 | Collapsing equals the reference definition: every white-space character becomes a space, then every space that follows another space is dropped. |
| Whitespace.CollapseSingleSpaced | scrape.js:132 | After collapsing, the only white space is the plain space, and no two spaces are adjacent. |
| Whitespace.CollapseEnds | scrape.js:132 | Collapsing keeps white space at either end as white space, and non-space at either end as non-space. |
| Whitespace.CollapseIdempotent | scrape.js:132 | Collapsing twice equals collapsing once. |
| Whitespace.CollapseAppend | scrape.js:132 | Collapsing distributes over a split made right after a non-space character. |
| Substrings.FirstOccurrence | scrape.js:133 | Finds the leftmost occurrence of the marker, and finds none exactly when the text does not contain it. |
| Substrings.CutAt | scrape.js:133 | The result is the longest prefix in which no occurrence of the marker starts. When the result is shorter than the text, the marker starts right after it. The result never contains the marker. |
| Article.StripShareWidget | scrape.js:133 | Text without the marker is unchanged. Otherwise the result is the text before the leftmost marker followed by the text from the end of that marker's line on, so at least the marker is removed. |
| Article.StripOnOneLine | scrape.js:133 | On text without line terminators, the flag-less `replace(/Share this:Tweet.*/, "")` equals cutting at the first marker. |
| Article.NormalizeContent | scrape.js:129-133 | The content is the trimmed, collapsed text up to the first `Share this:Tweet` (all of it when there is none). It never contains the marker, never starts with white space, and has only single plain spaces. |
| Article.NoMarkerKeepsAllText | scrape.js:129-133 | When the trimmed, collapsed text holds no marker, the content is all of that text and does not end with white space. A marker split by a run of white space in the raw text still counts, because collapsing joins it. |
| Article.SpaceBeforeMarkerSurvives | scrape.js:129-133 | Take text with no white space at either end whose collapsed form holds no marker, followed by white space and then the marker. That white space becomes one trailing space of the content. Trimming ran before the cut, so it is not removed. With no text before it, trimming removes that white space instead. |
| Article.MakeRecord | scrape.js:126-142 | A record carries the heading text without white-space margins, the normalised body text (which holds no marker), the first image's `src` as found, the visited link, and the base URL as its source. |
| Article.Collect | scrape.js:115-150 | No more records than links. Every record's `source` is the base URL, and its `link` is one of the links. |
| Article.CollectIsSelection | scrape.js:115-150 | The records are, in link order, exactly one per successful visit, each built from its own link and page. |
| Article.FailedVisitAddsNothing | scrape.js:147-149 | A failed visit adds nothing and leaves the earlier records as they were. |
| Article.LoadedVisitAppendsOne | scrape.js:136-142 | A successful visit appends exactly its own record after the earlier ones. |
| Article.Accumulate | scrape.js:115-150 | The loop over the links produces the collected records. Each one is stamped with the base URL as `source` and with one of the links. |
| Scrape.ScrapeFirstPage | scrape.js:51-170 | An empty URL stops the run, and so does a failed first navigation or a failed detection, each with its own error. When detection gives `none` or `link-based`, the re-query's invalid selector makes the run fail. A run succeeds exactly for the `pathname` and `query` schemes. It then returns the detected pagination, the accumulated records of the listed links, and the synthesised next URL with counter 2. |
| Scrape.RequeryLink | scrape.js:162-168 | The `href` of the first anchor in document order that matches the re-query list, and `null` exactly when no anchor matches. The list omits `aria-label="Next"` and adds anchors whose text contains "Older Posts". |
| Scrape.ScrapeFirstPageIntended | scrape.js:51-170 | Fails exactly on the missing URL, a failed first navigation or a failed detection. Otherwise it returns the detected pagination and the accumulated records. For `pathname` and `query` it returns the synthesised URL with counter 2, and otherwise the re-queried link with the counter unchanged at 1. |
| Scrape.IntendedDiffersOnlyOnRequery | scrape.js:155-169 | The run as written and the corrected run differ exactly when detection succeeds with `none` or `link-based`. |
| Scrape.NoPaginationLosesRecords | scrape.js:162-169 | Take one page, used for both detection and listing, where no anchor matches a structural selector or mentions "older" or "next". The run as written fails there with the invalid selector. The corrected run returns `none` and one record per successfully visited article link on the page. |
| Scrape.RunRecordsAreSelection | scrape.js:102-150 | The records of a successful run, as written or corrected, are in link order. There is exactly one per successful visit of a listed article, each built from its own link and page. |

## Findings

| source | as written | input that shows it | evidently intended | confidence | as-written member | corrected member |
|---|---|---|---|---|---|---|
| scrape.js:162-169 | For the `none` and `link-based` schemes the next link is re-queried with a selector list that includes `a:contains("Older Posts")`. `:contains` is not a CSS pseudo-class, so `document.querySelector` throws a `SyntaxError`. The throw is not caught, so the run rejects and every record gathered so far is lost. | A page with article links but no "next" control and no anchor text containing "older" or "next": detection gives `none`, the articles are scraped, and then the re-query throws. | The first anchor matching the structural selectors or containing the text "Older Posts" is returned as the next URL, and the scraped records are returned. | not executed | Scrape.ScrapeFirstPage, Scrape.NoPaginationLosesRecords | Scrape.ScrapeFirstPageIntended, Scrape.RequeryLink, Scrape.IntendedDiffersOnlyOnRequery |

## Left out

- Browser lifecycle and navigation (scrape.js:57-77, 89-97, 117-121, 181) are I/O. These are launch, user agent, headers, viewport, `goto`, `waitForSelector`, timeouts and `close`. A navigation error, a timeout or an extraction exception on an article page is the `Failed` visit outcome. A failed reload of the listing page is not modelled: the listing DOM is an input.
- CSS selector matching and DOM text extraction are inputs, not re-implemented. An anchor's matched selectors and texts are given, and so are the heading text, body text and first `img` source of an article page. Heading concatenation and the `img` lookup are plain DOM reads.
- `new URL` is the WHATWG URL parser, a foreign call. It is the `parse` parameter, and only `pathname` and `search` are compared. Resolving a relative `href` against the page is part of the `href` property the anchor carries.
- CSS selector parsing is not modelled. That the re-query list (scrape.js:165) is rejected is stated as the constant outcome `InvalidSelector`, because `:contains` is not a pseudo-class in the CSS selector grammar.
- Scrape.ScrapeFirstPageIntended: the DOM after the article loop is an input, `finalPage`. Which page that is (the last article visited, or the listing page when there were no links) depends on navigation and is not modelled.
- The multi-page loop and the page ceiling are commented out in the source (scrape.js:86, 172-179). A run processes one listing page, and the next URL is computed but not followed. The model does the same.
- `delay` (scrape.js:46-48, 146) and console logging are left out, because they have no effect on the data.
- The missing-URL guard (scrape.js:52-55) is the error `MissingUrl`. The process exit itself is not modelled. A missing argument is modelled as the empty string, which is the only string `!baseUrl` rejects.
- The first navigation to the base URL (scrape.js:78) is not guarded. Its failure is the error `NavigationFailed`, with `basePage` absent. Why the navigation fails is not modelled.
- app.js (an HTTP route, port binding and file writing) and index.js (a bootstrap that writes `data.json`) are glue and are not part of this model.
- Pagination.SelectNext and Pagination.TextFallbackIgnoresTrim: `toLowerCase` in the text fallback (through `TextSaysNext`) is modelled on ASCII letters only. Full Unicode case mapping is left out. The fallback test is unaffected, because no non-ASCII character lower-cases to a letter of "older" or "next". Every white-space character is unaffected either way.
- Strings are sequences of Unicode scalar values, whereas JavaScript strings are UTF-16 code units. Nothing modelled here depends on the difference.
- Decimal.ToDecimal: `Number` to string conversion is modelled only for the non-negative integers a page counter takes.
