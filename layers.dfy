/** The layer click handler's effect on the `expanded` flags. */
module Layers {
  import opened Collections

  /** After a click on layer `k`: its flag flips and every other layer closes. */
  function Toggled(s: seq<bool>, k: nat): (r: seq<bool>)
    requires k < |s|
    ensures |r| == |s| && r[k] == !s[k]
    ensures forall j :: 0 <= j < |s| && j != k ==> !r[j]
  {
    seq(|s|, j requires 0 <= j < |s| => j == k && !s[k])
  }

  /** A click opens the clicked layer alone, or closes it and leaves all
      layers closed. */
  lemma ToggledOpensOrCloses(s: seq<bool>, k: nat)
    requires k < |s|
    ensures Toggled(s, k) == if s[k] then AllClear(|s|) else Exclusive(|s|, k)
  {
  }

  /** Whatever the prior state, at most one layer is expanded afterwards,
      and it is the clicked one. */
  lemma AtMostOneExpanded(s: seq<bool>, k: nat)
    requires k < |s|
    ensures CountSet(Toggled(s, k)) <= 1
    ensures forall j :: 0 <= j < |s| && Toggled(s, k)[j] ==> j == k
  {
    ToggledOpensOrCloses(s, k);
    if s[k] {
      CountAllClear(|s|);
    } else {
      CountExclusive(|s|, k);
    }
  }

  /** Clicking the same layer twice undoes the first click whenever no other
      layer was open. */
  lemma ClickTwiceRestores(s: seq<bool>, k: nat)
    requires k < |s|
    requires forall j :: 0 <= j < |s| && j != k ==> !s[j]
    ensures Toggled(Toggled(s, k), k) == s
  {
  }
}
