/** The listing extractor (scrape.js:102-106): the `href` attributes of the
    anchors under an article title, in document order, without empty or
    missing ones and without in-page fragment links. */
module Listing {

  import opened Wrappers
  import opened Selection
  import opened Page

  /** The anchor matches the article-link selectors and its `href` attribute
      is present, non-empty and does not start with `#`. */
  predicate IsArticleLink(a: Anchor) {
    a.inArticleTitle && a.hrefAttr.Some? && a.hrefAttr.value != [] && a.hrefAttr.value[0] != '#'
  }

  function ArticleLinks(anchors: seq<Anchor>): (r: seq<string>)
    ensures |r| <= |anchors|
    ensures forall k :: 0 <= k < |r| ==> r[k] != [] && r[k][0] != '#'
  {
    if anchors == [] then []
    else (if IsArticleLink(anchors[0]) then [anchors[0].hrefAttr.value] else []) + ArticleLinks(anchors[1..])
  }

  function ArticleFlags(anchors: seq<Anchor>): (r: seq<bool>)
    ensures |r| == |anchors|
    ensures forall i :: 0 <= i < |anchors| ==> r[i] == IsArticleLink(anchors[i])
  {
    seq(|anchors|, i requires 0 <= i < |anchors| => IsArticleLink(anchors[i]))
  }

  /** Filtering a concatenation filters each part. */
  lemma {:induction false} ArticleLinksAppend(a: seq<Anchor>, b: seq<Anchor>)
    ensures ArticleLinks(a + b) == ArticleLinks(a) + ArticleLinks(b)
    decreases |a|
  {
    if a == [] {
      assert a + b == b;
    } else {
      assert (a + b)[1..] == a[1..] + b;
      ArticleLinksAppend(a[1..], b);
    }
  }

  /** The links are exactly the `href`s of the qualifying anchors, in
      document order, one entry per anchor (duplicates kept). */
  lemma {:induction false} ArticleLinksAreSelection(anchors: seq<Anchor>)
    ensures var p := Positions(ArticleFlags(anchors));
      && |ArticleLinks(anchors)| == |p|
      && forall k :: 0 <= k < |p| ==> ArticleLinks(anchors)[k] == anchors[p[k]].hrefAttr.value
    decreases |anchors|
  {
    if anchors != [] {
      var n := |anchors| - 1;
      var front := anchors[..n];
      assert anchors == front + [anchors[n]];
      ArticleLinksAppend(front, [anchors[n]]);
      ArticleLinksAreSelection(front);
      var before := ArticleLinks(front);
      var all := ArticleLinks(anchors);
      var q := Positions(ArticleFlags(front));
      var p := Positions(ArticleFlags(anchors));
      assert ArticleFlags(anchors)[..n] == ArticleFlags(front);
      assert p == q + (if IsArticleLink(anchors[n]) then [n] else []);
      forall k | 0 <= k < |p|
        ensures all[k] == anchors[p[k]].hrefAttr.value
      {
        if k < |q| {
          assert all[k] == before[k];
          assert front[q[k]] == anchors[q[k]];
        }
      }
    }
  }

  /** The push loop of the source over the matched anchors. */
  method CollectArticleLinks(anchors: seq<Anchor>) returns (links: seq<string>)
    ensures links == ArticleLinks(anchors)
    ensures forall k :: 0 <= k < |links| ==> links[k] != [] && links[k][0] != '#'
  {
    links := [];
    var i := 0;
    while i < |anchors|
      invariant i <= |anchors|
      invariant links == ArticleLinks(anchors[..i])
    {
      var a := anchors[i];
      ArticleLinksAppend(anchors[..i], [a]);
      assert anchors[..i + 1] == anchors[..i] + [a];
      if a.inArticleTitle && a.hrefAttr.Some? {
        var link := a.hrefAttr.value;
        if link != [] && link[0] != '#' {
          links := links + [link];
        }
      }
      i := i + 1;
    }
    assert anchors[..i] == anchors;
  }

  /** Duplicate `href`s are not merged. */
  lemma DuplicatesKept(a: Anchor)
    requires IsArticleLink(a)
    ensures ArticleLinks([a, a]) == [a.hrefAttr.value, a.hrefAttr.value]
  {
    assert [a, a][1..] == [a];
  }
}
