/**
 * Index arithmetic on a circular bucket array of length n: the single
 * circular walk that the C code writes as two consecutive loops.
 */
module Circular {

  /** The index after i, wrapping from n - 1 back to 0. */
  function Next(i: nat, n: nat): (j: nat)
    requires i < n
    ensures j < n
  {
    if i + 1 == n then 0 else i + 1
  }

  /** Number of forward steps needed to walk circularly from a to b. */
  function Dist(a: nat, b: nat, n: nat): (d: nat)
    requires a < n && b < n
    ensures d < n
  {
    if a <= b then b - a else n - a + b
  }

  /** x lies in the circular interval (a, b]. */
  predicate InOpenClosed(x: nat, a: nat, b: nat, n: nat)
    requires x < n && a < n && b < n
  {
    0 < Dist(a, x, n) <= Dist(a, b, n)
  }

  /**
   * The test hashmap_remove applies to the entry at index cur whose
   * preferred index is p, while the slot at index gap is open: one branch
   * for gap < cur and one for the case where the walk has wrapped around.
   */
  predicate MovesBack(gap: nat, cur: nat, p: nat)
  {
    if gap < cur then p <= gap || p > cur
    else cur < p && p <= gap
  }

  /** Both branches of the move test say "p is not in the circular interval (gap, cur]". */
  lemma MovesBackIsCircular(gap: nat, cur: nat, p: nat, n: nat)
    requires gap < n && cur < n && p < n && gap != cur
    ensures MovesBack(gap, cur, p) <==> !InOpenClosed(p, gap, cur, n)
  {
  }

  /** One step forward adds one to the distance from p, as long as the walk does not come back to p. */
  lemma DistNext(p: nat, i: nat, n: nat)
    requires p < n && i < n && Dist(p, i, n) + 1 < n
    ensures Next(i, n) != p && Dist(p, Next(i, n), n) == Dist(p, i, n) + 1
  {
  }

  /** A walk from p that is at i and has not yet reached e takes one more step towards e. */
  lemma StepTowards(p: nat, i: nat, e: nat, n: nat)
    requires p < n && i < n && e < n && i != e && Dist(p, i, n) <= Dist(p, e, n)
    ensures Next(i, n) != p && Dist(p, Next(i, n), n) == Dist(p, i, n) + 1 <= Dist(p, e, n)
  {
    DistNext(p, i, n);
  }
}
