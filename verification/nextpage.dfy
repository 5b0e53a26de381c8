/** Next-URL synthesis for the two structured schemes (scrape.js:152-170):
    the `pathname` scheme appends `/page/<n>` to the base URL, the `query`
    scheme appends a `page=<n>` parameter. Readers that recover the base and
    the counter from a synthesized URL serve as the inverse. */
module NextPage {

  import opened Wrappers
  import opened Decimal
  import opened Substrings
  import opened Pagination

  /** Where the crawl would go next. `RequeryDom` stands for the branch that
      asks the loaded page for a "next" anchor again; its answer is not
      part of this model. */
  datatype NextUrl = Synthesized(url: string, pageNum: nat) | RequeryDom

  /** `replace(/\/$/, "")`: at most one trailing slash is removed. */
  function DropTrailingSlash(s: string): (r: string)
    ensures s == r || s == r + "/"
    ensures s == r + "/" <==> s != [] && s[|s| - 1] == '/'
  {
    if s != [] && s[|s| - 1] == '/' then s[..|s| - 1] else s
  }

  /** The separator before `page=`: `&` when the base URL has a `?` anywhere. */
  function QuerySeparator(baseUrl: string): (c: char)
    ensures c == '&' <==> '?' in baseUrl
    ensures c == '?' <==> '?' !in baseUrl
  {
    if '?' in baseUrl then '&' else '?'
  }

  /** The next listing URL from the base URL, the current page counter and the
      detected scheme. For the structured schemes the counter goes up by
      exactly one and the URL extends the (slash-trimmed) base. */
  function NextPageUrl(baseUrl: string, pageNum: nat, scheme: Scheme): (r: NextUrl)
    ensures r.Synthesized? <==> scheme == Pathname || scheme == Query
    ensures r.Synthesized? ==> r.pageNum == pageNum + 1
    ensures scheme == Pathname ==>
      var base := DropTrailingSlash(baseUrl);
      |r.url| > |base| + 6 && r.url[..|base|] == base && r.url[|base|..|base| + 6] == "/page/"
    ensures scheme == Query ==>
      |r.url| > |baseUrl| + 6 && r.url[..|baseUrl|] == baseUrl && r.url[|baseUrl| + 1..|baseUrl| + 6] == "page="
      && (r.url[|baseUrl|] == '&' <==> '?' in baseUrl)
      && (r.url[|baseUrl|] == '?' <==> '?' !in baseUrl)
  {
    if scheme == Pathname then
      var n := pageNum + 1;
      Synthesized(DropTrailingSlash(baseUrl) + "/page/" + ToDecimal(n), n)
    else if scheme == Query then
      var n := pageNum + 1;
      Synthesized(baseUrl + [QuerySeparator(baseUrl)] + "page=" + ToDecimal(n), n)
    else
      RequeryDom
  }

  /** Length of the longest all-digit suffix of `s`. */
  function TrailingDigits(s: string): (k: nat)
    ensures k <= |s|
    ensures forall i :: |s| - k <= i < |s| ==> IsDigit(s[i])
    ensures k < |s| ==> !IsDigit(s[|s| - k - 1])
  {
    if s != [] && IsDigit(s[|s| - 1]) then 1 + TrailingDigits(s[..|s| - 1]) else 0
  }

  lemma {:induction false} TrailingDigitsAfterSeparator(p: string, c: char, d: string)
    requires !IsDigit(c) && AllDigits(d)
    ensures TrailingDigits(p + [c] + d) == |d|
    decreases |d|
  {
    var s := p + [c] + d;
    if d == [] {
      assert s[|s| - 1] == c;
    } else {
      assert s[..|s| - 1] == p + [c] + d[..|d| - 1];
      TrailingDigitsAfterSeparator(p, c, d[..|d| - 1]);
    }
  }

  /** Reads a `pathname`-scheme URL back: the part before `/page/` and the
      counter after it, which must be a numeral without a leading zero. */
  function ReadPathnamePage(url: string): Option<(string, nat)>
  {
    var k := TrailingDigits(url);
    var head := url[..|url| - k];
    if k > 0 && (k == 1 || url[|url| - k] != '0') && |head| >= 6 && head[|head| - 6..] == "/page/" then
      Some((head[..|head| - 6], Value(url[|url| - k..])))
    else
      None
  }

  /** Reads a `query`-scheme URL back: the base URL before the separator and
      `page=`, and the counter, which must be a numeral without a leading
      zero; the separator must be the one the base calls for. */
  function ReadQueryPage(url: string): Option<(string, nat)>
  {
    var k := TrailingDigits(url);
    var head := url[..|url| - k];
    if k > 0 && (k == 1 || url[|url| - k] != '0') && |head| >= 6 && head[|head| - 5..] == "page=" then
      var base := head[..|head| - 6];
      if head[|head| - 6] == QuerySeparator(base) then Some((base, Value(url[|url| - k..]))) else None
    else
      None
  }

  /** A synthesized `pathname` URL reads back as the slash-trimmed base and
      the incremented counter. */
  lemma PathnameRoundTrip(baseUrl: string, pageNum: nat)
    ensures ReadPathnamePage(NextPageUrl(baseUrl, pageNum, Pathname).url)
         == Some((DropTrailingSlash(baseUrl), pageNum + 1))
  {
    var p := DropTrailingSlash(baseUrl);
    var d := ToDecimal(pageNum + 1);
    var head := p + "/page/";
    var url := head + d;
    assert NextPageUrl(baseUrl, pageNum, Pathname).url == url;
    assert url == (p + "/page") + ['/'] + d;
    TrailingDigitsAfterSeparator(p + "/page", '/', d);
    SplitAppend(head, d);
    SplitAppend(p, "/page/");
    assert url[..|url| - |d|] == head && url[|url| - |d|..] == d;
    assert url[|url| - |d|] == d[0];
    assert head[|head| - 6..] == "/page/" && head[..|head| - 6] == p;
    ValueOfDecimal(pageNum + 1);
  }

  /** A synthesized `query` URL reads back as the unchanged base URL and the
      incremented counter. */
  lemma QueryRoundTrip(baseUrl: string, pageNum: nat)
    ensures ReadQueryPage(NextPageUrl(baseUrl, pageNum, Query).url) == Some((baseUrl, pageNum + 1))
  {
    var sep := QuerySeparator(baseUrl);
    var d := ToDecimal(pageNum + 1);
    var head := baseUrl + [sep] + "page=";
    var url := head + d;
    assert NextPageUrl(baseUrl, pageNum, Query).url == url;
    assert url == (baseUrl + [sep] + "page") + ['='] + d;
    TrailingDigitsAfterSeparator(baseUrl + [sep] + "page", '=', d);
    SplitAppend(head, d);
    assert url[|url| - |d|] == d[0];
    assert head[|head| - 5..] == "page=";
    SplitAppend(baseUrl, [sep] + "page=");
    assert head == baseUrl + ([sep] + "page=");
    assert head[|head| - 6] == sep;
    ValueOfDecimal(pageNum + 1);
  }

  /** Worked example: a trailing slash on the base is dropped once. */
  lemma PathnameExample()
    ensures NextPageUrl("https://x.com/blog/", 1, Pathname) == Synthesized("https://x.com/blog/page/2", 2)
  {
    assert ToDecimal(2) == "2";
  }

  /** Worked example: a base that already has a query string gets `&`. */
  lemma QueryExample()
    ensures NextPageUrl("https://x.com/blog?cat=tech", 1, Query) == Synthesized("https://x.com/blog?cat=tech&page=2", 2)
  {
    var b := "https://x.com/blog?cat=tech";
    assert b[18] == '?';
    assert QuerySeparator(b) == '&';
    assert ToDecimal(2) == "2";
    assert b + ['&'] + "page=" + "2" == "https://x.com/blog?cat=tech&page=2";
  }
}
