/** White space as JavaScript sees it (`String.prototype.trim` and the regular
    expression class `\s` use the same set), and the two whitespace operations
    the scraper applies to extracted text: trimming and collapsing runs. */
module Whitespace {

  /** WhiteSpace and LineTerminator code points of ECMAScript: TAB, VT, FF,
      SP, NBSP, ZWNBSP, the Unicode space separators, LF, CR, LS and PS. */
  predicate IsSpace(c: char) {
    || c == '\t' || c == '\n' || c == '\U{000B}' || c == '\U{000C}' || c == '\r'
    || c == ' ' || c == '\U{00A0}' || c == '\U{1680}'
    || ('\U{2000}' <= c <= '\U{200A}')
    || c == '\U{2028}' || c == '\U{2029}' || c == '\U{202F}' || c == '\U{205F}'
    || c == '\U{3000}' || c == '\U{FEFF}'
  }

  /** The characters a regular-expression `.` refuses to match. */
  predicate IsLineTerminator(c: char) {
    c == '\n' || c == '\r' || c == '\U{2028}' || c == '\U{2029}'
  }

  lemma LineTerminatorIsSpace(c: char)
    ensures IsLineTerminator(c) ==> IsSpace(c)
  {
  }

  predicate AllSpace(s: string) {
    forall i :: 0 <= i < |s| ==> IsSpace(s[i])
  }

  /** Every white-space character is a plain space and no two spaces are adjacent. */
  predicate SingleSpaced(s: string) {
    || s == []
    || (&& (IsSpace(s[0]) ==> s[0] == ' ')
        && (s[0] == ' ' && |s| > 1 ==> s[1] != ' ')
        && SingleSpaced(s[1..]))
  }

  /** The same property stated character by character. */
  lemma {:induction false} SingleSpacedByIndex(s: string)
    requires forall i :: 0 <= i < |s| && IsSpace(s[i]) ==> s[i] == ' '
    requires forall i :: 0 <= i < |s| - 1 && s[i] == ' ' ==> s[i + 1] != ' '
    ensures SingleSpaced(s)
    decreases |s|
  {
    if s != [] {
      assert forall i :: 0 <= i < |s| - 1 ==> s[1..][i] == s[i + 1];
      SingleSpacedByIndex(s[1..]);
    }
  }

  lemma {:induction false} SingleSpacedPrefix(s: string, k: nat)
    requires SingleSpaced(s) && k <= |s|
    ensures SingleSpaced(s[..k])
    decreases k
  {
    if k > 0 {
      assert s[..k][1..] == s[1..][..k - 1];
      SingleSpacedPrefix(s[1..], k - 1);
    }
  }

  /** The only white-space character of a single-spaced string is the plain space. */
  lemma {:induction false} SingleSpacedOnlyPlainSpaces(s: string)
    requires SingleSpaced(s)
    ensures forall i :: 0 <= i < |s| && IsSpace(s[i]) ==> s[i] == ' '
    decreases |s|
  {
    if s != [] {
      SingleSpacedOnlyPlainSpaces(s[1..]);
      assert forall i :: 1 <= i < |s| ==> s[i] == s[1..][i - 1];
    }
  }

  /** Number of white-space characters at the start of `s`. */
  function LeadingSpaces(s: string): (n: nat)
    ensures n <= |s|
    ensures forall i :: 0 <= i < n ==> IsSpace(s[i])
    ensures n < |s| ==> !IsSpace(s[n])
  {
    if s != [] && IsSpace(s[0]) then 1 + LeadingSpaces(s[1..]) else 0
  }

  /** Number of white-space characters at the end of `s`. */
  function TrailingSpaces(s: string): (n: nat)
    ensures n <= |s|
    ensures forall i :: |s| - n <= i < |s| ==> IsSpace(s[i])
    ensures n < |s| ==> !IsSpace(s[|s| - n - 1])
  {
    if s != [] && IsSpace(s[|s| - 1]) then 1 + TrailingSpaces(s[..|s| - 1]) else 0
  }

  /** `String.prototype.trim`: the result is the slice of `s` that starts at
      its first non-space character; every character of `s` outside it is
      white space, and the result neither starts nor ends with white space. */
  function Trim(s: string): (r: string)
    ensures LeadingSpaces(s) + |r| <= |s|
    ensures forall k :: 0 <= k < |r| ==> r[k] == s[LeadingSpaces(s) + k]
    ensures forall i :: LeadingSpaces(s) + |r| <= i < |s| ==> IsSpace(s[i])
    ensures r == [] || (!IsSpace(r[0]) && !IsSpace(r[|r| - 1]))
  {
    var a := LeadingSpaces(s);
    if a == |s| then []
    else
      var b := |s| - TrailingSpaces(s);
      assert a < b;
      s[a..b]
  }

  /** `replace(/\s+/g, " ")`: every maximal run of white space becomes one
      plain space; everything else is kept in order. */
  function Collapse(s: string): (r: string)
    ensures |r| <= |s|
    ensures r == [] <==> s == []
    decreases |s|
  {
    if s == [] then []
    else if IsSpace(s[0]) then " " + Collapse(s[LeadingSpaces(s)..])
    else [s[0]] + Collapse(s[1..])
  }

  /** Collapsing keeps white space at either end as white space and
      non-space at either end as non-space. */
  lemma {:induction false} CollapseEnds(s: string)
    ensures var r := Collapse(s); s != [] ==>
      && (IsSpace(r[0]) <==> IsSpace(s[0]))
      && (IsSpace(r[|r| - 1]) <==> IsSpace(s[|s| - 1]))
  {
    CollapseLast(s);
  }

  lemma {:induction false} CollapseLast(s: string)
    ensures var r := Collapse(s); s != [] ==> (IsSpace(r[|r| - 1]) <==> IsSpace(s[|s| - 1]))
    decreases |s|
  {
    if s != [] {
      var k := if IsSpace(s[0]) then LeadingSpaces(s) else 1;
      var t := s[k..];
      CollapseLast(t);
      if t != [] {
        assert t[|t| - 1] == s[|s| - 1];
      }
    }
  }

  /** Collapsed text is single-spaced. */
  lemma {:induction false} CollapseSingleSpaced(s: string)
    ensures SingleSpaced(Collapse(s))
    decreases |s|
  {
    if s != [] {
      var r := Collapse(s);
      if IsSpace(s[0]) {
        var t := s[LeadingSpaces(s)..];
        CollapseSingleSpaced(t);
        CollapseEnds(t);
        assert r[1..] == Collapse(t);
      } else {
        CollapseSingleSpaced(s[1..]);
        assert r[1..] == Collapse(s[1..]);
      }
    }
  }

  /** Collapsing an already single-spaced string changes nothing. */
  lemma {:induction false} CollapseKeepsSingleSpaced(s: string)
    requires SingleSpaced(s)
    ensures Collapse(s) == s
    decreases |s|
  {
    if s != [] {
      CollapseKeepsSingleSpaced(s[1..]);
      if IsSpace(s[0]) && |s| > 1 {
        assert s[0] == ' ' && s[1] != ' ';
        assert !IsSpace(s[1]);
        assert LeadingSpaces(s) == 1;
      }
    }
  }

  /** Collapsing is idempotent. */
  lemma {:induction false} CollapseIdempotent(s: string)
    ensures Collapse(Collapse(s)) == Collapse(s)
  {
    CollapseSingleSpaced(s);
    CollapseKeepsSingleSpaced(Collapse(s));
  }

  /** Reference definition of collapsing, independent of `Collapse`: first
      turn every white-space character into a plain space, then drop each
      space that follows another space. */
  function Blank(s: string): (r: string)
  {
    seq(|s|, i requires 0 <= i < |s| => if IsSpace(s[i]) then ' ' else s[i])
  }

  function Squeeze(s: string): string
  {
    if |s| <= 1 then s
    else if s[0] == ' ' && s[1] == ' ' then Squeeze(s[1..])
    else [s[0]] + Squeeze(s[1..])
  }

  function Spaces(k: nat): (r: string)
  {
    seq(k, i => ' ')
  }

  lemma {:induction false} SqueezeSpaces(k: nat, u: string)
    requires k >= 1
    requires u == [] || u[0] != ' '
    ensures Squeeze(Spaces(k) + u) == " " + Squeeze(u)
    decreases k
  {
    var s := Spaces(k) + u;
    if k == 1 {
      assert s == [' '] + u;
      if u != [] {
        assert s[1..] == u;
      }
    } else {
      assert s[0] == ' ' && s[1] == ' ';
      assert s[1..] == Spaces(k - 1) + u;
      SqueezeSpaces(k - 1, u);
    }
  }

  /** Collapsing agrees with the reference definition on every input. */
  lemma {:induction false} CollapseIsSqueezedBlank(s: string)
    ensures Collapse(s) == Squeeze(Blank(s))
    decreases |s|
  {
    if s == [] {
    } else if IsSpace(s[0]) {
      var k := LeadingSpaces(s);
      var t := s[k..];
      assert s == s[..k] + t;
      assert Blank(s) == Spaces(k) + Blank(t);
      assert Blank(t) == [] || Blank(t)[0] == t[0];
      SqueezeSpaces(k, Blank(t));
      CollapseIsSqueezedBlank(t);
    } else {
      var b := Blank(s);
      assert b == [s[0]] + Blank(s[1..]);
      if |s| > 1 {
        assert b[1..] == Blank(s[1..]);
      }
      CollapseIsSqueezedBlank(s[1..]);
    }
  }

  /** Leading white space of `a + b` stays within `a` when `a` has a
      non-space character. */
  lemma LeadingSpacesAppend(a: string, b: string)
    requires a != [] && !IsSpace(a[|a| - 1])
    ensures LeadingSpaces(a) < |a| && LeadingSpaces(a + b) == LeadingSpaces(a)
  {
    var s := a + b;
    var k := LeadingSpaces(a);
    assert k < |a|;
    assert forall i :: 0 <= i < k ==> s[i] == a[i];
    assert s[k] == a[k];
  }

  /** Collapsing distributes over a split made just after a non-space
      character: no white-space run straddles the split. */
  lemma {:induction false} CollapseAppend(a: string, b: string)
    requires a == [] || !IsSpace(a[|a| - 1])
    ensures Collapse(a + b) == Collapse(a) + Collapse(b)
    decreases |a|, 1
  {
    if a == [] {
      assert a + b == b;
    } else if IsSpace(a[0]) {
      CollapseAppendSpaceFirst(a, b);
    } else {
      CollapseAppendWordFirst(a, b);
    }
  }

  lemma {:induction false} CollapseAppendSpaceFirst(a: string, b: string)
    requires a != [] && IsSpace(a[0]) && !IsSpace(a[|a| - 1])
    ensures Collapse(a + b) == Collapse(a) + Collapse(b)
    decreases |a|, 0
  {
    var s := a + b;
    var k := LeadingSpaces(a);
    LeadingSpacesAppend(a, b);
    assert s[k..] == a[k..] + b;
    CollapseAppend(a[k..], b);
    var ca, cb := Collapse(a[k..]), Collapse(b);
    assert " " + (ca + cb) == (" " + ca) + cb;
  }

  lemma {:induction false} CollapseAppendWordFirst(a: string, b: string)
    requires a != [] && !IsSpace(a[0]) && !IsSpace(a[|a| - 1])
    ensures Collapse(a + b) == Collapse(a) + Collapse(b)
    decreases |a|, 0
  {
    var s := a + b;
    assert s[0] == a[0];
    assert s[1..] == a[1..] + b;
    CollapseAppend(a[1..], b);
    var ca, cb := Collapse(a[1..]), Collapse(b);
    assert [a[0]] + (ca + cb) == ([a[0]] + ca) + cb;
  }

  /** A white-space run followed by a non-space character becomes one space. */
  lemma CollapseSpacesThen(sp: string, rest: string)
    requires sp != [] && AllSpace(sp)
    requires rest == [] || !IsSpace(rest[0])
    ensures Collapse(sp + rest) == " " + Collapse(rest)
  {
    var s := sp + rest;
    var n := LeadingSpaces(s);
    assert forall i :: 0 <= i < |sp| ==> s[i] == sp[i] && IsSpace(s[i]);
    assert rest != [] ==> s[|sp|] == rest[0];
    assert n == |sp|;
    assert s[n..] == rest;
  }
}
