/** One run of the scraper (scrape.js:51-185) with the browser abstracted
    away: check the URL argument, open the base page, detect pagination on
    it, list the article links of the (re-)loaded listing page, visit each
    link in order, and compute the next listing URL. The run processes the
    first listing page only; the next URL is computed and then not followed. */
module Scrape {

  import opened Wrappers
  import opened Page
  import opened Substrings
  import opened Selection
  import opened Pagination
  import opened NextPage
  import opened Listing
  import opened Article

  /** The page counter a run starts from. */
  const FirstPage: nat := 1

  /** The selector list the link-based branch hands to `document.querySelector`.
      Its last alternative, `:contains(...)`, is a jQuery extension and no
      CSS pseudo-class, so the browser rejects the whole list with a
      `SyntaxError`. */
  const RequerySelector: string :=
    "a[rel=\"next\"], a.next, a.pagination-next, a.blog-pager-older-link, a.older-posts, a:contains(\"Older Posts\")"

  /** The text the `:contains` alternative looks for. */
  const OlderPostsText: string := "Older Posts"

  /** Why a run ends without returning its records: the missing-URL guard
      exits the process, the first navigation to the base URL is not guarded,
      detection may throw, and so may the re-query of the link-based branch. */
  datatype RunError =
    | MissingUrl
    | NavigationFailed(url: string)
    | DetectionFailed(cause: DetectError)
    | InvalidSelector(selector: string)

  /** What one run produces: the detected pagination, the collected records,
      and the final values of `nextPageUrl` and `pageNum`. */
  datatype Crawl = Crawl(pagination: PaginationInfo, records: seq<Record>, nextUrl: Option<string>, pageNum: nat)

  /** The run as written. `basePage` is the DOM the detector sees after the
      first navigation (`None` when that navigation throws), `listingPage` the
      DOM after the page is loaded again, and `visits[i]` the outcome of
      visiting the i-th article link. Records are gathered for every scheme,
      but for `none` and `link-based` the re-query throws afterwards and the
      run returns none of them. */
  function ScrapeFirstPage(
    baseUrl: string,
    basePage: Option<seq<Anchor>>,
    parse: string -> Option<Url>,
    listingPage: seq<Anchor>,
    visits: seq<Visit>): (r: Result<Crawl, RunError>)
    requires |visits| == |ArticleLinks(listingPage)|
    ensures baseUrl == [] ==> r == Failure(MissingUrl)
    ensures baseUrl != [] && basePage.None? ==> r == Failure(NavigationFailed(baseUrl))
    ensures baseUrl != [] && basePage.Some? ==>
      var d := Detect(basePage.value, baseUrl, parse);
      && (d.Failure? ==> r == Failure(DetectionFailed(d.error)))
      && (d.Success? && d.value.scheme in {NoPagination, LinkBased} ==> r == Failure(InvalidSelector(RequerySelector)))
    ensures r.Success? <==>
      && baseUrl != [] && basePage.Some?
      && Detect(basePage.value, baseUrl, parse).Success?
      && Detect(basePage.value, baseUrl, parse).value.scheme in {Pathname, Query}
    ensures r.Success? ==> r.value.pagination == Detect(basePage.value, baseUrl, parse).value
    ensures r.Success? ==> r.value.records == Collect(ArticleLinks(listingPage), visits, baseUrl)
    ensures r.Success? ==>
      var n := NextPageUrl(baseUrl, FirstPage, r.value.pagination.scheme);
      n.Synthesized? && r.value.nextUrl == Some(n.url) && r.value.pageNum == n.pageNum == FirstPage + 1
    ensures r.Success? ==> forall k :: 0 <= k < |r.value.records| ==>
      r.value.records[k].source == baseUrl && r.value.records[k].link in ArticleLinks(listingPage)
  {
    if baseUrl == [] then Failure(MissingUrl)
    else if basePage.None? then Failure(NavigationFailed(baseUrl))
    else
      var detected := Detect(basePage.value, baseUrl, parse);
      if detected.Failure? then Failure(DetectionFailed(detected.error))
      else
        var records := Collect(ArticleLinks(listingPage), visits, baseUrl);
        match NextPageUrl(baseUrl, FirstPage, detected.value.scheme)
        case Synthesized(url, n) => Success(Crawl(detected.value, records, Some(url), n))
        case RequeryDom => Failure(InvalidSelector(RequerySelector))
  }

  /** Whether an anchor matches one alternative of the re-query selector list:
      a structural "next" selector other than `a[aria-label="Next"]`, which the
      list does not repeat, or text containing "Older Posts" (case-sensitive,
      as jQuery's `:contains` compares). */
  predicate RequeryMatches(a: Anchor) {
    (a.nextSelectors - {AriaLabelNext}) != {} || Contains(a.text, OlderPostsText)
  }

  /** What the re-query evidently means to return: the `href` of the first
      anchor in document order that matches the list, or `null`. */
  function RequeryLink(page: seq<Anchor>): (r: Option<string>)
    ensures r.None? <==> forall i :: 0 <= i < |page| ==> !RequeryMatches(page[i])
    ensures r.Some? ==> exists i :: 0 <= i < |page| && RequeryMatches(page[i]) && r.value == page[i].href
                                 && (forall j :: 0 <= j < i ==> !RequeryMatches(page[j]))
  {
    var i := FirstIndex(page, RequeryMatches);
    if i.Some? then
      assert RequeryMatches(page[i.value]);
      Some(page[i.value].href)
    else None
  }

  /** The run as evidently intended: identical, except that the link-based
      branch returns the first matching link of `finalPage`, the DOM the page
      holds after the article loop, and leaves the counter alone. */
  function ScrapeFirstPageIntended(
    baseUrl: string,
    basePage: Option<seq<Anchor>>,
    parse: string -> Option<Url>,
    listingPage: seq<Anchor>,
    visits: seq<Visit>,
    finalPage: seq<Anchor>): (r: Result<Crawl, RunError>)
    requires |visits| == |ArticleLinks(listingPage)|
    ensures baseUrl == [] ==> r == Failure(MissingUrl)
    ensures baseUrl != [] && basePage.None? ==> r == Failure(NavigationFailed(baseUrl))
    ensures r.Failure? <==>
      baseUrl == [] || basePage.None? || Detect(basePage.value, baseUrl, parse).Failure?
    ensures baseUrl != [] && basePage.Some? && Detect(basePage.value, baseUrl, parse).Failure? ==>
      r == Failure(DetectionFailed(Detect(basePage.value, baseUrl, parse).error))
    ensures r.Success? ==> r.value.pagination == Detect(basePage.value, baseUrl, parse).value
    ensures r.Success? ==> r.value.records == Collect(ArticleLinks(listingPage), visits, baseUrl)
    ensures r.Success? && r.value.pagination.scheme in {Pathname, Query} ==>
      var n := NextPageUrl(baseUrl, FirstPage, r.value.pagination.scheme);
      n.Synthesized? && r.value.nextUrl == Some(n.url) && r.value.pageNum == n.pageNum == FirstPage + 1
    ensures r.Success? && r.value.pagination.scheme in {NoPagination, LinkBased} ==>
      r.value.nextUrl == RequeryLink(finalPage) && r.value.pageNum == FirstPage
  {
    if baseUrl == [] then Failure(MissingUrl)
    else if basePage.None? then Failure(NavigationFailed(baseUrl))
    else
      var detected := Detect(basePage.value, baseUrl, parse);
      if detected.Failure? then Failure(DetectionFailed(detected.error))
      else
        var records := Collect(ArticleLinks(listingPage), visits, baseUrl);
        match NextPageUrl(baseUrl, FirstPage, detected.value.scheme)
        case Synthesized(url, n) => Success(Crawl(detected.value, records, Some(url), n))
        case RequeryDom => Success(Crawl(detected.value, records, RequeryLink(finalPage), FirstPage))
  }

  /** The run as written and the intended run differ exactly on the re-query
      branch: when detection succeeds with `none` or `link-based`. */
  lemma IntendedDiffersOnlyOnRequery(
    baseUrl: string,
    basePage: Option<seq<Anchor>>,
    parse: string -> Option<Url>,
    listingPage: seq<Anchor>,
    visits: seq<Visit>,
    finalPage: seq<Anchor>)
    requires |visits| == |ArticleLinks(listingPage)|
    ensures ScrapeFirstPage(baseUrl, basePage, parse, listingPage, visits)
         != ScrapeFirstPageIntended(baseUrl, basePage, parse, listingPage, visits, finalPage)
      <==> && baseUrl != [] && basePage.Some?
           && Detect(basePage.value, baseUrl, parse).Success?
           && Detect(basePage.value, baseUrl, parse).value.scheme in {NoPagination, LinkBased}
  {
  }

  /** The discrepancy on a blog page without any "next" control, loaded once
      for detection and once more for the listing: the run as written throws
      away every record it gathered from the page's article links, while the
      intended run returns them all. */
  lemma NoPaginationLosesRecords(
    baseUrl: string,
    parse: string -> Option<Url>,
    page: seq<Anchor>,
    visits: seq<Visit>,
    finalPage: seq<Anchor>)
    requires baseUrl != []
    requires forall i :: 0 <= i < |page| ==> page[i].nextSelectors == {} && !TextSaysNext(page[i])
    requires |visits| == |ArticleLinks(page)|
    ensures ScrapeFirstPage(baseUrl, Some(page), parse, page, visits) == Failure(InvalidSelector(RequerySelector))
    ensures var r := ScrapeFirstPageIntended(baseUrl, Some(page), parse, page, visits, finalPage);
      && r.Success? && r.value.pagination == PaginationInfo(NoPagination, None)
      && r.value.records == Collect(ArticleLinks(page), visits, baseUrl)
  {
  }

  /** The records of a successful run, as written or as intended, are, in
      link order, one per successful visit of a listed article, each built
      from its own link and page. */
  lemma {:induction false} RunRecordsAreSelection(
    baseUrl: string,
    basePage: Option<seq<Anchor>>,
    parse: string -> Option<Url>,
    listingPage: seq<Anchor>,
    visits: seq<Visit>,
    finalPage: seq<Anchor>)
    requires |visits| == |ArticleLinks(listingPage)|
    ensures var r := ScrapeFirstPageIntended(baseUrl, basePage, parse, listingPage, visits, finalPage);
      var links := ArticleLinks(listingPage);
      var p := Positions(LoadedFlags(visits));
      r.Success? ==>
        && |r.value.records| == |p|
        && forall k :: 0 <= k < |p| ==> r.value.records[k] == MakeRecord(links[p[k]], baseUrl, visits[p[k]])
    ensures var r := ScrapeFirstPage(baseUrl, basePage, parse, listingPage, visits);
      var links := ArticleLinks(listingPage);
      var p := Positions(LoadedFlags(visits));
      r.Success? ==>
        && |r.value.records| == |p|
        && forall k :: 0 <= k < |p| ==> r.value.records[k] == MakeRecord(links[p[k]], baseUrl, visits[p[k]])
  {
    CollectIsSelection(ArticleLinks(listingPage), visits, baseUrl);
  }
}
