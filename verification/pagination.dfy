/** Pagination detection (`detectPaginationType`, scrape.js:5-44): pick the
    listing page's "next" control, then classify the site's pagination scheme
    by comparing the next link's URL with the base URL. */
module Pagination {

  import opened Wrappers
  import opened Page
  import opened Whitespace
  import opened Substrings

  /** The two components of a parsed URL the classifier compares. */
  datatype Url = Url(pathname: string, search: string)

  datatype Scheme = NoPagination | Pathname | Query | LinkBased

  /** The `{ type, nextLink }` object the detector returns. */
  datatype PaginationInfo = PaginationInfo(scheme: Scheme, nextLink: Option<string>)

  /** The `TypeError` the URL constructor throws on input it cannot parse. */
  datatype DetectError = InvalidUrl(input: string)

  predicate IsNextControl(a: Anchor) {
    a.nextSelectors != {}
  }

  /** `toLowerCase` on the ASCII letters. */
  function LowerChar(c: char): char
  {
    if 'A' <= c <= 'Z' then (c as int - 'A' as int + 'a' as int) as char else c
  }

  /** Lower-casing never turns a white-space character into anything else. */
  lemma LowerCharKeepsSpace(c: char)
    requires IsSpace(c)
    ensures LowerChar(c) == c
  {
  }

  function Lower(s: string): (r: string)
    ensures |r| == |s|
    ensures forall i :: 0 <= i < |s| ==> r[i] == LowerChar(s[i])
  {
    seq(|s|, i requires 0 <= i < |s| => LowerChar(s[i]))
  }

  /** The text fallback: the trimmed, lower-cased text mentions "older" or "next". */
  predicate TextSaysNext(a: Anchor) {
    MentionsNext(Lower(Trim(a.text)))
  }

  predicate MentionsNext(t: string) {
    Contains(t, "older") || Contains(t, "next")
  }

  /** Index of the first anchor, in document order, that satisfies `p`. */
  function FirstIndex(anchors: seq<Anchor>, p: Anchor -> bool): (r: Option<nat>)
    ensures r.Some? ==> r.value < |anchors| && p(anchors[r.value])
    ensures r.Some? ==> forall j :: 0 <= j < r.value ==> !p(anchors[j])
    ensures r.None? ==> forall j :: 0 <= j < |anchors| ==> !p(anchors[j])
  {
    if anchors == [] then None
    else if p(anchors[0]) then Some(0)
    else
      var rest := FirstIndex(anchors[1..], p);
      if rest.None? then None else Some(rest.value + 1)
  }

  /** Which anchor the detector takes as the "next" control: the first one
      in document order that matches any structural selector, and only when
      there is none, the first one whose text says "older" or "next". */
  function SelectNext(anchors: seq<Anchor>): (r: Option<nat>)
    ensures r.Some? ==> r.value < |anchors|
    ensures (exists i :: 0 <= i < |anchors| && IsNextControl(anchors[i])) ==>
      && r.Some? && IsNextControl(anchors[r.value])
      && forall j :: 0 <= j < r.value ==> !IsNextControl(anchors[j])
    ensures (forall i :: 0 <= i < |anchors| ==> !IsNextControl(anchors[i])) ==>
      && (r.Some? ==> TextSaysNext(anchors[r.value]))
      && (r.Some? ==> forall j :: 0 <= j < r.value ==> !TextSaysNext(anchors[j]))
      && (r.None? <==> forall j :: 0 <= j < |anchors| ==> !TextSaysNext(anchors[j]))
  {
    var structural := FirstIndex(anchors, IsNextControl);
    if structural.Some? then structural else FirstIndex(anchors, TextSaysNext)
  }

  /** What the in-page evaluation returns: the selected anchor's `href`
      property, or `null` when no anchor was selected. */
  function FoundLink(anchors: seq<Anchor>): (r: Option<string>)
    ensures r.Some? <==> SelectNext(anchors).Some?
    ensures r.Some? ==> r.value == anchors[SelectNext(anchors).value].href
  {
    var i := SelectNext(anchors);
    if i.Some? then Some(anchors[i.value].href) else None
  }

  /** The scheme decided from the two URLs: a different path wins whatever the
      query, then a different query, and identical URLs mean link-based. */
  function Classify(current: Url, next: Url): (r: Scheme)
    ensures r != NoPagination
    ensures r == Pathname <==> current.pathname != next.pathname
    ensures r == Query <==> current.pathname == next.pathname && current.search != next.search
    ensures r == LinkBased <==> current == next
  {
    if current.pathname != next.pathname then Pathname
    else if current.search != next.search then Query
    else LinkBased
  }

  /** `detectPaginationType`. A missing or empty link means no pagination and
      no URL is parsed; otherwise the base URL and then the link are parsed
      (either may throw) and the scheme is classified from them. */
  function Detect(anchors: seq<Anchor>, baseUrl: string, parse: string -> Option<Url>): (r: Result<PaginationInfo, DetectError>)
    ensures FoundLink(anchors) in {None, Some("")} ==> r == Success(PaginationInfo(NoPagination, None))
    ensures FoundLink(anchors).Some? && FoundLink(anchors).value != "" && parse(baseUrl).None? ==>
      r == Failure(InvalidUrl(baseUrl))
    ensures FoundLink(anchors).Some? && FoundLink(anchors).value != "" && parse(baseUrl).Some? ==>
      var link := FoundLink(anchors).value;
      && (parse(link).None? ==> r == Failure(InvalidUrl(link)))
      && (parse(link).Some? ==> r == Success(PaginationInfo(Classify(parse(baseUrl).value, parse(link).value), Some(link))))
    ensures r.Failure? ==>
      && FoundLink(anchors).Some? && FoundLink(anchors).value != ""
      && (if parse(baseUrl).None? then r.error == InvalidUrl(baseUrl)
          else parse(FoundLink(anchors).value).None? && r.error == InvalidUrl(FoundLink(anchors).value))
    ensures r.Success? ==> (r.value.scheme == NoPagination <==> r.value.nextLink.None?)
    ensures r.Success? && r.value.nextLink.Some? ==>
      && FoundLink(anchors) == r.value.nextLink
      && parse(baseUrl).Some? && parse(r.value.nextLink.value).Some?
      && r.value.scheme == Classify(parse(baseUrl).value, parse(r.value.nextLink.value).value)
  {
    var found := FoundLink(anchors);
    if found.None? || found.value == "" then
      Success(PaginationInfo(NoPagination, None))
    else
      var current := parse(baseUrl);
      if current.None? then Failure(InvalidUrl(baseUrl))
      else
        var next := parse(found.value);
        if next.None? then Failure(InvalidUrl(found.value))
        else Success(PaginationInfo(Classify(current.value, next.value), Some(found.value)))
  }

  /** The three outcomes of detection in terms of the selected anchor: no
      pagination exactly when nothing is selected or the selected anchor's
      `href` is empty, an error exactly when a non-empty link is found and one
      of the two URLs does not parse, and a classified scheme otherwise. */
  lemma DetectOutcomes(anchors: seq<Anchor>, baseUrl: string, parse: string -> Option<Url>)
    ensures var sel := SelectNext(anchors);
      Detect(anchors, baseUrl, parse) == Success(PaginationInfo(NoPagination, None))
      <==> sel.None? || anchors[sel.value].href == ""
    ensures var sel := SelectNext(anchors);
      Detect(anchors, baseUrl, parse).Failure?
      <==> sel.Some? && anchors[sel.value].href != ""
           && (parse(baseUrl).None? || parse(anchors[sel.value].href).None?)
    ensures var sel := SelectNext(anchors);
      Detect(anchors, baseUrl, parse).Success? && Detect(anchors, baseUrl, parse).value.scheme != NoPagination
      <==> sel.Some? && anchors[sel.value].href != ""
           && parse(baseUrl).Some? && parse(anchors[sel.value].href).Some?
  {
  }

  /** A needle that neither starts nor ends with white space occurs in a
      string exactly when it occurs in the string with white-space margins cut. */
  lemma ContainsIgnoresSpaceMargins(u: string, i: nat, j: nat, n: string)
    requires i <= j <= |u|
    requires AllSpace(u[..i]) && AllSpace(u[j..])
    requires n != [] && !IsSpace(n[0]) && !IsSpace(n[|n| - 1])
    ensures Contains(u[i..j], n) <==> Contains(u, n)
  {
    if Contains(u[i..j], n) {
      var k :| 0 <= k <= |u[i..j]| - |n| && OccursAt(u[i..j], k, n);
      OccursInSlice(u, i, j, k, n);
      assert 0 <= i + k <= |u| - |n|;
    }
    if Contains(u, n) {
      var k :| 0 <= k <= |u| - |n| && OccursAt(u, k, n);
      assert u[k] == n[0];
      assert k >= i;
      var e := k + |n| - 1;
      assert u[e] == u[k..k + |n|][|n| - 1] == n[|n| - 1];
      assert e < j;
      var inner := u[i..j][k - i..k - i + |n|];
      assert forall x :: 0 <= x < |n| ==> inner[x] == u[k + x] == u[k..k + |n|][x];
      assert inner == u[k..k + |n|];
      assert OccursAt(u[i..j], k - i, n);
    }
  }

  /** Trimming before the text test makes no difference: an anchor passes the
      fallback exactly when its untrimmed lower-cased text mentions "older"
      or "next". */
  lemma TextFallbackIgnoresTrim(a: Anchor)
    ensures TextSaysNext(a) <==> MentionsNext(Lower(a.text))
  {
    var t := a.text;
    var older, next := "older", "next";
    assert !IsSpace(older[0]) && !IsSpace(older[4]);
    assert !IsSpace(next[0]) && !IsSpace(next[3]);
    TrimIrrelevantToNeedle(t, older);
    TrimIrrelevantToNeedle(t, next);
  }

  lemma TrimIrrelevantToNeedle(t: string, n: string)
    requires n != [] && !IsSpace(n[0]) && !IsSpace(n[|n| - 1])
    ensures Contains(Lower(Trim(t)), n) <==> Contains(Lower(t), n)
  {
    var r := Trim(t);
    var i := LeadingSpaces(t);
    var j := i + |r|;
    assert r == t[i..j];
    assert AllSpace(t[..i]) && AllSpace(t[j..]);
    LowerSlice(t, i, j);
    LowerKeepsSpaceMargins(t, i, j);
    ContainsIgnoresSpaceMargins(Lower(t), i, j, n);
  }

  lemma LowerSlice(t: string, a: nat, b: nat)
    requires a <= b <= |t|
    ensures Lower(t[a..b]) == Lower(t)[a..b]
  {
  }

  lemma LowerKeepsSpaceMargins(t: string, i: nat, j: nat)
    requires i <= j <= |t|
    requires AllSpace(t[..i]) && AllSpace(t[j..])
    ensures AllSpace(Lower(t)[..i]) && AllSpace(Lower(t)[j..])
  {
    var u := Lower(t);
    forall k | 0 <= k < |t| && (k < i || j <= k)
      ensures u[k] == t[k]
    {
      if k < i {
        assert IsSpace(t[..i][k]);
      } else {
        assert IsSpace(t[j..][k - j]);
      }
      LowerCharKeepsSpace(t[k]);
    }
    assert forall k :: 0 <= k < i ==> u[..i][k] == t[..i][k];
    assert forall k :: 0 <= k < |t| - j ==> u[j..][k] == t[j..][k];
  }

  /** Selection follows document order across the whole selector list: an
      `a.older-posts` anchor that comes first wins over a later `rel="next"`. */
  lemma DocumentOrderNotSelectorOrder(older: Anchor, relNext: Anchor)
    requires older.nextSelectors == {OlderPosts}
    requires relNext.nextSelectors == {RelNext}
    ensures SelectNext([older, relNext]) == Some(0)
  {
  }

  /** The text fallback is never consulted once some anchor matches a
      structural selector, even if that anchor has no `href` and a
      text-matching anchor with a link precedes it. */
  lemma StructuralWithoutHrefMeansNone(byText: Anchor, structural: Anchor, parse: string -> Option<Url>, baseUrl: string)
    requires byText.nextSelectors == {} && TextSaysNext(byText) && byText.href != ""
    requires IsNextControl(structural) && structural.href == ""
    ensures Detect([byText, structural], baseUrl, parse) == Success(PaginationInfo(NoPagination, None))
  {
    assert IsNextControl([byText, structural][1]);
  }
}
