/** Order-preserving selection: the positions at which a sequence of flags
    is set, in increasing order. Used as the reference against which the
    scraper's filter and accumulation loops are stated. */
module Selection {

  function Positions(keep: seq<bool>): (r: seq<nat>)
    ensures |r| <= |keep|
    ensures forall k :: 0 <= k < |r| ==> r[k] < |keep| && keep[r[k]]
    ensures forall k, l :: 0 <= k < l < |r| ==> r[k] < r[l]
    ensures forall i :: 0 <= i < |keep| && keep[i] ==> i in r
  {
    if keep == [] then []
    else
      var n := |keep| - 1;
      var prefix := Positions(keep[..n]);
      if keep[n] then prefix + [n] else prefix
  }
}
