/** The state matrix of the parallel pair scheduler, as a flat sequence of n * n cells, and what
    one round of selections means. */
module PairMatrix {
  import opened Common

  type Pair = (nat, nat)

  const UNTESTED := 0
  const RUNNING := 1
  const DONE := 2

  lemma IndexBound(n: nat, i: nat, j: nat)
    requires i < n && j < n
    ensures j + i * n < n * n
  {
    MulStep(i, n, n);
  }

  /** `j + i * numProcs`: row i, column j. */
  function Index(n: nat, i: nat, j: nat): (c: nat)
    requires i < n && j < n
    ensures c < n * n && c / n == i && c % n == j
  {
    IndexBound(n, i, j);
    Quotient(j + i * n, n, i, j);
    j + i * n
  }

  lemma IndexInjective(n: nat, i: nat, j: nat, k: nat, l: nat)
    requires i < n && j < n && k < n && l < n
    ensures Index(n, i, j) == Index(n, k, l) <==> i == k && j == l
  {
    if i < k { MulStep(i, k, n); } else if k < i { MulStep(k, i, n); }
  }

  function At<T>(s: seq<T>, n: nat, i: nat, j: nat): T
    requires |s| == n * n && i < n && j < n
  {
    s[Index(n, i, j)]
  }

  lemma AtUpdate<T>(s: seq<T>, n: nat, i: nat, j: nat, v: T, k: nat, l: nat)
    requires |s| == n * n && i < n && j < n && k < n && l < n
    ensures At(s[Index(n, i, j) := v], n, k, l) == if k == i && l == j then v else At(s, n, k, l)
  {
    IndexInjective(n, i, j, k, l);
  }

  /** A pair of two different processors. */
  predicate Proper(n: nat, p: Pair) { p.0 < n && p.1 < n && p.0 != p.1 }

  predicate Shares(p: Pair, q: Pair) { p.0 == q.0 || p.0 == q.1 || p.1 == q.0 || p.1 == q.1 }

  /** No processor is in two of the pairs. */
  ghost predicate Disjoint(pairs: seq<Pair>) {
    forall k, l :: 0 <= k < l < |pairs| ==> !Shares(pairs[k], pairs[l])
  }

  ghost predicate Blocked(pairs: seq<Pair>, p: Pair) {
    exists k :: 0 <= k < |pairs| && Shares(pairs[k], p)
  }

  /** Between rounds: every cell is untested or done. */
  ghost predicate Idle(s: seq<nat>, n: nat)
    requires |s| == n * n
  {
    forall i, j :: 0 <= i < n && 0 <= j < n ==> At(s, n, i, j) == UNTESTED || At(s, n, i, j) == DONE
  }

  /** `after` is `before` with exactly the given pairs running. */
  ghost predicate RunningAre(before: seq<nat>, after: seq<nat>, n: nat, pairs: seq<Pair>)
    requires |before| == |after| == n * n
  {
    forall i, j :: 0 <= i < n && 0 <= j < n ==>
      At(after, n, i, j) == if (i, j) in pairs then RUNNING else At(before, n, i, j)
  }

  /** The pairs may run together: proper, untested before, and processor-disjoint. */
  ghost predicate Selection(before: seq<nat>, n: nat, pairs: seq<Pair>)
    requires |before| == n * n
  {
    && (forall k :: 0 <= k < |pairs| ==> Proper(n, pairs[k]) && At(before, n, pairs[k].0, pairs[k].1) == UNTESTED)
    && Disjoint(pairs)
  }

  /** (i, j) comes before (k, l) in the order of the two nested loops. */
  predicate Before(i: nat, j: nat, k: nat, l: nat) { i < k || (i == k && j < l) }

  predicate AtOrBefore(p: Pair, q: Pair) { p == q || Before(p.0, p.1, q.0, q.1) }

  /** The pairs are in the order of the loops. */
  ghost predicate Ordered(pairs: seq<Pair>) {
    forall k, l :: 0 <= k < l < |pairs| ==> Before(pairs[k].0, pairs[k].1, pairs[l].0, pairs[l].1)
  }

  /** When the loops come to p, it is selected or shares a processor with a pair selected before. */
  ghost predicate Claimed(pairs: seq<Pair>, p: Pair) {
    exists k :: 0 <= k < |pairs| && Claims(pairs[k], p)
  }

  predicate Claims(p: Pair, q: Pair) { Shares(p, q) && AtOrBefore(p, q) }

  lemma ClaimedIsBlocked(pairs: seq<Pair>, p: Pair)
    requires Claimed(pairs, p)
    ensures Blocked(pairs, p)
  {
    var k :| 0 <= k < |pairs| && Claims(pairs[k], p);
    assert Shares(pairs[k], p);
  }

  /** Every untested pair before (k, l) was selected or gave way to an earlier one. */
  ghost predicate Considered(before: seq<nat>, n: nat, pairs: seq<Pair>, k: nat, l: nat)
    requires |before| == n * n
  {
    forall i, j :: 0 <= i < n && 0 <= j < n && i != j && Before(i, j, k, l) && At(before, n, i, j) == UNTESTED
      ==> Claimed(pairs, (i, j))
  }

  /** The loops come to p before the limit ends them. */
  predicate Reached(pairs: seq<Pair>, limit: nat, p: Pair) {
    |pairs| < limit || (|pairs| > 0 && AtOrBefore(p, pairs[|pairs| - 1]))
  }

  /** First come, first served: every untested pair that the loops come to was selected or gave way to an
      earlier one. Below the limit this is a maximal matching of the untested pairs. */
  ghost predicate FirstCome(before: seq<nat>, n: nat, pairs: seq<Pair>, limit: nat)
    requires |before| == n * n
  {
    forall i, j :: 0 <= i < n && 0 <= j < n && i != j && At(before, n, i, j) == UNTESTED
        && Reached(pairs, limit, (i, j))
      ==> Claimed(pairs, (i, j))
  }

  /** The scheduler's four tests in the row and column of both processors find a running cell
      exactly if one of the selected pairs shares a processor with the candidate. */
  ghost predicate NoneRunning(s: seq<nat>, n: nat, i: nat, j: nat, upTo: nat)
    requires |s| == n * n && i < n && j < n && upTo <= n
  {
    forall c :: 0 <= c < upTo ==>
      && At(s, n, c, j) != RUNNING && At(s, n, i, c) != RUNNING
      && At(s, n, c, i) != RUNNING && At(s, n, j, c) != RUNNING
  }

  lemma ValidMeansUnblocked(before: seq<nat>, s: seq<nat>, n: nat, pairs: seq<Pair>, i: nat, j: nat)
    requires |before| == |s| == n * n && i < n && j < n
    requires Idle(before, n) && RunningAre(before, s, n, pairs) && Selection(before, n, pairs)
    ensures NoneRunning(s, n, i, j, n) <==> !Blocked(pairs, (i, j))
  {
    if Blocked(pairs, (i, j)) {
      var k :| 0 <= k < |pairs| && Shares(pairs[k], (i, j));
      var p := pairs[k];
      assert p == (p.0, p.1) && At(s, n, p.0, p.1) == RUNNING;
    } else {
      forall c | 0 <= c < n
        ensures At(s, n, c, j) != RUNNING && At(s, n, i, c) != RUNNING
        ensures At(s, n, c, i) != RUNNING && At(s, n, j, c) != RUNNING
      {
        SelectedBlocks(pairs, (c, j), (i, j));
        SelectedBlocks(pairs, (i, c), (i, j));
        SelectedBlocks(pairs, (c, i), (i, j));
        SelectedBlocks(pairs, (j, c), (i, j));
      }
    }
  }

  lemma SelectedBlocks(pairs: seq<Pair>, p: Pair, q: Pair)
    ensures p in pairs && Shares(p, q) ==> Blocked(pairs, q)
  {
  }
}
