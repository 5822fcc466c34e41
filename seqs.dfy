/** Sequence helpers shared by the controllers: document-order lookup and counting flags. */
module Seqs {
  import opened Wrappers

  /** The index a document-order query returns: the first position holding x. */
  function FirstIndexOf<T(==)>(xs: seq<T>, x: T): (r: Option<nat>)
    ensures r.Some? ==> r.value < |xs| && xs[r.value] == x
    ensures r.Some? ==> forall j :: 0 <= j < r.value ==> xs[j] != x
    ensures r.None? <==> x !in xs
  {
    if xs == [] then None
    else if xs[0] == x then Some(0)
    else match FirstIndexOf(xs[1..], x)
      case None => None
      case Some(i) => Some(i + 1)
  }

  /** Number of set flags, e.g. how many links carry the `active` class. */
  function CountTrue(s: seq<bool>): nat
  {
    if s == [] then 0 else CountTrue(s[..|s| - 1]) + (if s[|s| - 1] then 1 else 0)
  }

  /** No value occurs twice. */
  predicate Distinct<T(==)>(s: seq<T>)
  {
    forall i, j :: 0 <= i < j < |s| ==> s[i] != s[j]
  }

  /** The flags of n elements of which only the one at k (if any) is set. */
  function OnlyAt(n: nat, k: Option<nat>): (r: seq<bool>)
    ensures |r| == n && forall j :: 0 <= j < n ==> r[j] == (k == Some(j))
    ensures CountTrue(r) == if k.Some? && k.value < n then 1 else 0
  {
    if n == 0 then [] else
      var r := OnlyAt(n - 1, k) + [k == Some(n - 1)];
      assert r[..n - 1] == OnlyAt(n - 1, k);
      r
  }
}
