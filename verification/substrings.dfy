/** Substring search as `String.prototype.includes` and a non-global regular
    expression `replace` perform it: occurrences are found leftmost first. */
module Substrings {

  import opened Wrappers

  /** `m` occurs in `s` starting at index `i`. */
  predicate OccursAt(s: string, i: int, m: string) {
    0 <= i && i + |m| <= |s| && s[i..i + |m|] == m
  }

  /** `s.includes(m)`. */
  predicate Contains(s: string, m: string) {
    exists i :: 0 <= i <= |s| - |m| && OccursAt(s, i, m)
  }

  /** Index of the leftmost occurrence of `m` in `s`, if any. */
  function FirstOccurrence(s: string, m: string): (r: Option<nat>)
    ensures r.Some? ==> OccursAt(s, r.value, m)
    ensures r.Some? ==> forall j :: 0 <= j < r.value ==> !OccursAt(s, j, m)
    ensures r.None? <==> !Contains(s, m)
  {
    if |s| < |m| then
      None
    else if s[..|m|] == m then
      Some(0)
    else
      var rest := FirstOccurrence(s[1..], m);
      assert forall j :: 1 <= j ==> OccursAt(s, j, m) == OccursAt(s[1..], j - 1, m);
      if rest.None? then None else Some(rest.value + 1)
  }

  /** Occurrences in a prefix are occurrences in the whole string. */
  lemma OccursInPrefix(s: string, k: nat, i: int, m: string)
    requires k <= |s|
    requires OccursAt(s[..k], i, m)
    ensures OccursAt(s, i, m)
  {
    assert s[..k][i..i + |m|] == s[i..i + |m|];
  }

  /** Occurrences in a slice are occurrences in the whole string, shifted by
      the slice's start. */
  lemma OccursInSlice(s: string, a: nat, b: nat, i: int, m: string)
    requires a <= b <= |s|
    requires OccursAt(s[a..b], i, m)
    ensures OccursAt(s, a + i, m)
  {
    var inner := s[a..b][i..i + |m|];
    var outer := s[a + i..a + i + |m|];
    assert forall k :: 0 <= k < |m| ==> inner[k] == s[a + i + k] == outer[k];
    assert inner == outer;
  }

  /** Everything from the first occurrence of `m` on is dropped: the result
      is the longest prefix of `s` in which no occurrence of `m` starts. */
  function CutAt(s: string, m: string): (r: string)
    ensures |r| <= |s| && r == s[..|r|]
    ensures forall j :: 0 <= j < |r| ==> !OccursAt(s, j, m)
    ensures |r| < |s| ==> OccursAt(s, |r|, m)
    ensures |r| == |s| ==> !Contains(s, m) || m == []
    ensures !Contains(r, m) || m == []
  {
    var f := FirstOccurrence(s, m);
    var r := if f.Some? then s[..f.value] else s;
    assert !Contains(r, m) || m == [] by {
      if m != [] && Contains(r, m) {
        var i :| OccursAt(r, i, m);
        OccursInPrefix(s, |r|, i, m);
        assert false;
      }
    }
    r
  }

  /** The two halves of a concatenation, read back by slicing. */
  lemma SplitAppend(a: string, b: string)
    ensures (a + b)[..|a|] == a && (a + b)[|a|..] == b
  {
  }
}
