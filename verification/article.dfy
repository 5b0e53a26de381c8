/** The article extractor and the per-article loop (scrape.js:115-150): the
    body text is trimmed, its white-space runs collapsed, and the share
    widget's text cut off; each successful visit yields one record stamped
    with its link and the base URL, and a failed visit yields nothing. */
module Article {

  import opened Wrappers
  import opened Whitespace
  import opened Substrings
  import opened Selection

  /** Text the sharing widget of some templates appends to the article body. */
  const ShareMarker: string := "Share this:Tweet"

  /** What one visit of an article page produced: the raw texts the page's
      selectors matched and the first image's `src`, or a failure
      (navigation error, timeout waiting for content, or an exception while
      extracting). */
  datatype Visit =
    | Loaded(headingText: string, bodyText: string, imageSrc: Option<string>)
    | Failed

  /** One scraped article. */
  datatype Record = Record(heading: string, content: string, imageUrl: Option<string>, link: string, source: string)

  /** First index at or after `from` that holds a line terminator, or `|s|`. */
  function LineEnd(s: string, from: nat): (e: nat)
    requires from <= |s|
    ensures from <= e <= |s|
    ensures forall i :: from <= i < e ==> !IsLineTerminator(s[i])
    ensures e < |s| ==> IsLineTerminator(s[e])
    decreases |s| - from
  {
    if from == |s| || IsLineTerminator(s[from]) then from else LineEnd(s, from + 1)
  }

  /** The marker-stripping `replace` as a flag-less regular expression does
      it: the leftmost marker and the rest of its line (a `.` does not match
      a line terminator) are removed. */
  function StripShareWidget(s: string): (r: string)
    ensures !Contains(s, ShareMarker) ==> r == s
    ensures forall i :: OccursAt(s, i, ShareMarker) && (forall j :: 0 <= j < i ==> !OccursAt(s, j, ShareMarker)) ==>
      r == s[..i] + s[LineEnd(s, i + |ShareMarker|)..]
    ensures Contains(s, ShareMarker) ==> |r| + |ShareMarker| <= |s|
  {
    match FirstOccurrence(s, ShareMarker)
    case None => s
    case Some(i) => s[..i] + s[LineEnd(s, i + |ShareMarker|)..]
  }

  /** On text without line breaks the `.*` runs to the end, so stripping is
      cutting at the first marker. */
  lemma StripOnOneLine(s: string)
    requires forall i :: 0 <= i < |s| ==> !IsLineTerminator(s[i])
    ensures StripShareWidget(s) == CutAt(s, ShareMarker)
  {
    var f := FirstOccurrence(s, ShareMarker);
    if f.Some? {
      assert LineEnd(s, f.value + |ShareMarker|) == |s|;
    }
  }

  /** Collapsed text has no line breaks left. */
  lemma SingleSpacedIsOneLine(s: string)
    requires SingleSpaced(s)
    ensures forall i :: 0 <= i < |s| ==> !IsLineTerminator(s[i])
  {
    SingleSpacedOnlyPlainSpaces(s);
    forall i | 0 <= i < |s|
      ensures !IsLineTerminator(s[i])
    {
      LineTerminatorIsSpace(s[i]);
    }
  }

  /** The article content: the result is the trimmed, collapsed text up to
      the first share marker (all of it when there is none). It never holds
      the marker, never starts with white space, and has only single plain
      spaces; a space just before the marker survives, since trimming ran
      before the cut. */
  function NormalizeContent(text: string): (r: string)
    ensures var c := Collapse(Trim(text));
      && |r| <= |c| && r == c[..|r|]
      && (forall j :: 0 <= j < |r| ==> !OccursAt(c, j, ShareMarker))
      && (|r| < |c| ==> OccursAt(c, |r|, ShareMarker))
      && (|r| == |c| ==> !Contains(c, ShareMarker))
    ensures !Contains(r, ShareMarker)
    ensures r == [] || !IsSpace(r[0])
    ensures SingleSpaced(r)
  {
    var c := Collapse(Trim(text));
    CollapseSingleSpaced(Trim(text));
    CollapseEnds(Trim(text));
    SingleSpacedIsOneLine(c);
    StripOnOneLine(c);
    SingleSpacedPrefix(c, |CutAt(c, ShareMarker)|);
    StripShareWidget(c)
  }

  /** When the trimmed, collapsed text holds no marker, the content is all of
      it and is fully trimmed at both ends. */
  lemma NoMarkerKeepsAllText(text: string)
    requires !Contains(Collapse(Trim(text)), ShareMarker)
    ensures NormalizeContent(text) == Collapse(Trim(text))
    ensures var r := NormalizeContent(text); r == [] || !IsSpace(r[|r| - 1])
  {
    CollapseEnds(Trim(text));
  }

  /** The record of a successful visit: the heading text without white-space
      margins, the normalised body text, the first image's `src` as found,
      the visited link and the base URL as the source. */
  function MakeRecord(link: string, baseUrl: string, v: Visit): (r: Record)
    requires v.Loaded?
    ensures r.link == link && r.source == baseUrl && r.imageUrl == v.imageSrc
    ensures r.heading == Trim(v.headingText)
    ensures r.heading == [] || (!IsSpace(r.heading[0]) && !IsSpace(r.heading[|r.heading| - 1]))
    ensures r.content == NormalizeContent(v.bodyText) && !Contains(r.content, ShareMarker)
  {
    Record(Trim(v.headingText), NormalizeContent(v.bodyText), v.imageSrc, link, baseUrl)
  }

  /** The records the loop over `links` produces, given each visit's outcome. */
  function Collect(links: seq<string>, visits: seq<Visit>, baseUrl: string): (r: seq<Record>)
    requires |links| == |visits|
    ensures |r| <= |links|
    ensures forall k :: 0 <= k < |r| ==> r[k].source == baseUrl && r[k].link in links
  {
    if links == [] then []
    else
      var rest := Collect(links[1..], visits[1..], baseUrl);
      if visits[0].Loaded? then [MakeRecord(links[0], baseUrl, visits[0])] + rest else rest
  }

  lemma {:induction false} CollectAppend(l1: seq<string>, v1: seq<Visit>, l2: seq<string>, v2: seq<Visit>, baseUrl: string)
    requires |l1| == |v1| && |l2| == |v2|
    ensures Collect(l1 + l2, v1 + v2, baseUrl) == Collect(l1, v1, baseUrl) + Collect(l2, v2, baseUrl)
    decreases |l1|
  {
    if l1 == [] {
      assert l1 + l2 == l2 && v1 + v2 == v2;
    } else {
      assert (l1 + l2)[1..] == l1[1..] + l2;
      assert (v1 + v2)[1..] == v1[1..] + v2;
      CollectAppend(l1[1..], v1[1..], l2, v2, baseUrl);
    }
  }

  /** A failed visit adds nothing and leaves the earlier records as they were. */
  lemma FailedVisitAddsNothing(links: seq<string>, visits: seq<Visit>, link: string, baseUrl: string)
    requires |links| == |visits|
    ensures Collect(links + [link], visits + [Failed], baseUrl) == Collect(links, visits, baseUrl)
  {
    CollectAppend(links, visits, [link], [Failed], baseUrl);
  }

  /** A successful visit appends exactly its own record after the earlier ones. */
  lemma LoadedVisitAppendsOne(links: seq<string>, visits: seq<Visit>, link: string, v: Visit, baseUrl: string)
    requires |links| == |visits| && v.Loaded?
    ensures Collect(links + [link], visits + [v], baseUrl) == Collect(links, visits, baseUrl) + [MakeRecord(link, baseUrl, v)]
  {
    CollectAppend(links, visits, [link], [v], baseUrl);
  }

  function LoadedFlags(visits: seq<Visit>): (r: seq<bool>)
    ensures |r| == |visits|
    ensures forall i :: 0 <= i < |visits| ==> r[i] == visits[i].Loaded?
  {
    seq(|visits|, i requires 0 <= i < |visits| => visits[i].Loaded?)
  }

  /** The records are, in link order, one per successful visit and nothing else. */
  lemma {:induction false} CollectIsSelection(links: seq<string>, visits: seq<Visit>, baseUrl: string)
    requires |links| == |visits|
    ensures var p := Positions(LoadedFlags(visits));
      && |Collect(links, visits, baseUrl)| == |p|
      && forall k :: 0 <= k < |p| ==> Collect(links, visits, baseUrl)[k] == MakeRecord(links[p[k]], baseUrl, visits[p[k]])
    decreases |links|
  {
    if links != [] {
      var n := |links| - 1;
      CollectStep(links, visits, n, baseUrl);
      assert links[..n + 1] == links && visits[..n + 1] == visits;
      CollectIsSelection(links[..n], visits[..n], baseUrl);
      var before := Collect(links[..n], visits[..n], baseUrl);
      var all := Collect(links, visits, baseUrl);
      var q := Positions(LoadedFlags(visits[..n]));
      var p := Positions(LoadedFlags(visits));
      assert LoadedFlags(visits)[..n] == LoadedFlags(visits[..n]);
      assert p == q + (if visits[n].Loaded? then [n] else []);
      forall k | 0 <= k < |p|
        ensures all[k] == MakeRecord(links[p[k]], baseUrl, visits[p[k]])
      {
        if k < |q| {
          assert all[k] == before[k];
          assert links[..n][q[k]] == links[q[k]] && visits[..n][q[k]] == visits[q[k]];
        }
      }
    }
  }

  lemma CollectStep(links: seq<string>, visits: seq<Visit>, i: nat, baseUrl: string)
    requires |links| == |visits| && i < |links|
    ensures Collect(links[..i + 1], visits[..i + 1], baseUrl)
         == Collect(links[..i], visits[..i], baseUrl)
          + (if visits[i].Loaded? then [MakeRecord(links[i], baseUrl, visits[i])] else [])
  {
    assert links[..i + 1] == links[..i] + [links[i]];
    assert visits[..i + 1] == visits[..i] + [visits[i]];
    CollectAppend(links[..i], visits[..i], [links[i]], [visits[i]], baseUrl);
  }

  /** The per-article loop: visit each link in order, keep what loaded. */
  method Accumulate(links: seq<string>, visits: seq<Visit>, baseUrl: string) returns (records: seq<Record>)
    requires |links| == |visits|
    ensures records == Collect(links, visits, baseUrl)
    ensures forall k :: 0 <= k < |records| ==> records[k].source == baseUrl && records[k].link in links
  {
    records := [];
    var i := 0;
    while i < |links|
      invariant i <= |links|
      invariant records == Collect(links[..i], visits[..i], baseUrl)
    {
      var step := if visits[i].Loaded? then [MakeRecord(links[i], baseUrl, visits[i])] else [];
      CollectStep(links, visits, i, baseUrl);
      records := records + step;
      i := i + 1;
    }
    assert links[..i] == links && visits[..i] == visits;
  }

  /** The share marker's first letter occurs nowhere else in it, so no
      proper suffix of the marker is also a prefix of it. */
  lemma MarkerBorderless()
    ensures ShareMarker != [] && ShareMarker[|ShareMarker| - 1] != ' '
    ensures forall d :: 1 <= d < |ShareMarker| ==> ShareMarker[d] != ShareMarker[0]
  {
  }

  /** The share marker is unchanged by trimming and collapsing. */
  lemma MarkerSingleSpaced()
    ensures ShareMarker != [] && SingleSpaced(ShareMarker)
    ensures !IsSpace(ShareMarker[0]) && !IsSpace(ShareMarker[|ShareMarker| - 1])
  {
    var m := ShareMarker;
    assert forall i :: 0 <= i < |m| && IsSpace(m[i]) ==> i == 5;
    assert m[5] == ' ' && m[6] == 't';
    SingleSpacedByIndex(m);
  }

  /** Trimming `x + y` keeps all of `x` when `x` has no white space at its ends. */
  lemma TrimKeepsFront(x: string, y: string)
    requires x != [] && !IsSpace(x[0]) && !IsSpace(x[|x| - 1])
    ensures |Trim(x + y)| >= |x| && Trim(x + y) == x + Trim(x + y)[|x|..]
  {
    var s := x + y;
    assert s[0] == x[0];
    assert LeadingSpaces(s) == 0;
    assert s[|x| - 1] == x[|x| - 1];
    var t := Trim(s);
    assert forall k :: 0 <= k < |x| ==> t[k] == x[k];
    assert t[..|x|] == x;
    assert t == t[..|x|] + t[|x|..];
  }

  /** Collapsing `pre + sp + m + q` keeps `m` intact behind one space. */
  lemma CollapseAroundMarker(pre: string, sp: string, m: string, q: string)
    requires pre != [] && !IsSpace(pre[|pre| - 1])
    requires sp != [] && AllSpace(sp)
    requires m != [] && SingleSpaced(m) && !IsSpace(m[0]) && !IsSpace(m[|m| - 1])
    ensures Collapse(pre + (sp + (m + q))) == Collapse(pre) + (" " + (m + Collapse(q)))
  {
    var mq := m + q;
    var rest := sp + mq;
    CollapseAppend(m, q);
    CollapseKeepsSingleSpaced(m);
    var cq := Collapse(q);
    assert Collapse(mq) == m + cq;
    CollapseSpacesThen(sp, mq);
    assert Collapse(rest) == " " + (m + cq);
    CollapseAppend(pre, rest);
  }

  /** The collapsed, trimmed text of `pre + sp + m + post` is the collapsed
      `pre`, one space, `m`, and whatever the rest collapses to. */
  lemma CollapsedLayout(pre: string, sp: string, m: string, post: string)
    requires pre != [] && !IsSpace(pre[0]) && !IsSpace(pre[|pre| - 1])
    requires sp != [] && AllSpace(sp)
    requires m != [] && SingleSpaced(m) && !IsSpace(m[0]) && !IsSpace(m[|m| - 1])
    ensures var x := pre + sp + m;
      |Trim(x + post)| >= |x| &&
      Collapse(Trim(x + post)) == Collapse(pre) + (" " + (m + Collapse(Trim(x + post)[|x|..])))
  {
    var x := pre + sp + m;
    assert x[0] == pre[0] && x[|x| - 1] == m[|m| - 1];
    TrimKeepsFront(x, post);
    var t := Trim(x + post);
    var q := t[|x|..];
    Regroup(pre, sp, m, q);
    CollapseAroundMarker(pre, sp, m, q);
  }

  /** In `cp + " " + m + rest` the first occurrence of `m` is the one
      after the space, when `cp` does not contain `m` and `m` has no border. */
  lemma FirstOccurrenceAfterSpace(cp: string, m: string, rest: string)
    requires m != [] && m[|m| - 1] != ' '
    requires forall d :: 1 <= d < |m| ==> m[d] != m[0]
    requires !Contains(cp, m)
    ensures var c := cp + (" " + (m + rest));
      && OccursAt(c, |cp| + 1, m)
      && forall j :: 0 <= j <= |cp| ==> !OccursAt(c, j, m)
  {
    var c := cp + (" " + (m + rest));
    var L := |cp| + 1;
    assert forall k :: 0 <= k < |m| ==> c[L + k] == m[k];
    assert c[L..L + |m|] == m;
    assert forall k :: 0 <= k < |cp| ==> c[k] == cp[k];
    assert c[L - 1] == ' ';
    forall j | 0 <= j < L
      ensures !OccursAt(c, j, m)
    {
      if j + |m| <= |cp| {
        assert c[j..j + |m|] == cp[j..j + |m|];
        assert !OccursAt(cp, j, m);
      } else if j + |m| == L {
        assert c[j + |m| - 1] != m[|m| - 1];
      } else {
        assert c[j + (L - j)] != m[L - j];
      }
    }
  }

  /** In the trimmed, collapsed text of `pre + sp + marker + post`, the
      first marker starts right after the collapsed `pre` and one space. */
  lemma MarkerAfterCollapsedPrefix(pre: string, sp: string, post: string)
    requires pre != [] && !IsSpace(pre[0]) && !IsSpace(pre[|pre| - 1])
    requires !Contains(Collapse(pre), ShareMarker)
    requires sp != [] && AllSpace(sp)
    ensures var c := Collapse(Trim(pre + sp + ShareMarker + post));
      var L := |Collapse(pre)| + 1;
      && OccursAt(c, L, ShareMarker)
      && (forall j :: 0 <= j < L ==> !OccursAt(c, j, ShareMarker))
      && c[..L] == Collapse(pre) + " "
  {
    var m := ShareMarker;
    var x := pre + sp + m;
    var cp := Collapse(pre);
    MarkerBorderless();
    MarkerSingleSpaced();
    CollapsedLayout(pre, sp, m, post);
    var rest := Collapse(Trim(x + post)[|x|..]);
    FirstOccurrenceAfterSpace(cp, m, rest);
    Regroup(cp, " ", m, rest);
    SplitAppend(cp + " ", m + rest);
  }

  /** White space in front of the marker survives as one trailing space when
      it follows text with no white space at either end whose collapsed form
      holds no marker: trimming runs before the marker is cut off, so the
      content of
      `"Hello   world.  Share this:Tweet Facebook"` is `"Hello world. "`. */
  lemma SpaceBeforeMarkerSurvives(pre: string, sp: string, post: string)
    requires pre != [] && !IsSpace(pre[0]) && !IsSpace(pre[|pre| - 1])
    requires !Contains(Collapse(pre), ShareMarker)
    requires sp != [] && AllSpace(sp)
    ensures NormalizeContent(pre + sp + ShareMarker + post) == Collapse(pre) + " "
  {
    var text := pre + sp + ShareMarker + post;
    MarkerAfterCollapsedPrefix(pre, sp, post);
    CutEndsAtFirstOccurrence(Collapse(Trim(text)), ShareMarker, NormalizeContent(text), |Collapse(pre)| + 1);
  }

  /** A prefix of `c` that stops at the first occurrence of `m`, or at the
      end when there is none, ends at `L` when `L` is that first occurrence. */
  lemma CutEndsAtFirstOccurrence(c: string, m: string, r: string, L: nat)
    requires |r| <= |c| && r == c[..|r|]
    requires forall j :: 0 <= j < |r| ==> !OccursAt(c, j, m)
    requires |r| < |c| ==> OccursAt(c, |r|, m)
    requires |r| == |c| ==> !Contains(c, m)
    requires OccursAt(c, L, m) && forall j :: 0 <= j < L ==> !OccursAt(c, j, m)
    ensures r == c[..L]
  {
    assert |r| <= L;
    assert |r| >= L;
  }

  lemma Regroup(a: string, b: string, c: string, d: string)
    ensures a + b + c + d == a + (b + (c + d)) == (a + b) + (c + d)
  {
  }
}
