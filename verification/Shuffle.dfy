/** The in-place shuffle shared by every pattern builder, on tables: which table it
    produces for which stream of random draws, and why that table is one cycle. */
module Shuffle {
  import opened Cycles

  function Identity(n: nat): (p: seq<nat>)
    ensures |p| == n && forall i :: 0 <= i < n ==> p[i] == i
  {
    seq(n, (i: nat) => i)
  }

  function Swap(p: seq<nat>, i: nat, j: nat): (q: seq<nat>)
    requires i < |p| && j < |p|
    ensures |q| == |p|
  {
    p[i := p[j]][j := p[i]]
  }

  /** The partner of position i: drawn below i - 1, and 0 without a draw when i is 1. */
  function Partner(i: nat, stream: nat -> nat, calls: nat): (j: nat)
    requires i >= 1
    ensures j < i
  {
    if i == 1 then 0 else stream(calls) % (i - 1)
  }

  /** Draws consumed by position i. */
  function Cost(i: nat): nat {
    if i == 1 then 0 else 1
  }

  /** The table after the positions iter-1, ..., 1 have been swapped with their partners. */
  function ShuffleFrom(p: seq<nat>, iter: nat, stream: nat -> nat, calls: nat): (q: seq<nat>)
    requires iter <= |p|
    ensures |q| == |p|
    decreases iter
  {
    if iter <= 1 then p
    else ShuffleFrom(Swap(p, iter - 1, Partner(iter - 1, stream, calls)), iter - 1, stream, calls + Cost(iter - 1))
  }

  /** The shuffle of n positions, reading the stream from draw `calls` on. */
  function Shuffled(n: nat, stream: nat -> nat, calls: nat): (p: seq<nat>)
    ensures |p| == n
  {
    ShuffleFrom(Identity(n), n, stream, calls)
  }

  /** How many draws a shuffle of n positions consumes. */
  function Draws(n: nat): nat {
    if n < 2 then 0 else n - 2
  }

  // ----- One cycle, for every stream -----

  /** Why a table consists of m cycles, one through each position below m: x lies on the
      cycle of owner[x], and dist[x] steps lead from x to owner[x]; len are the cycle lengths. */
  datatype Forest = Forest(owner: seq<nat>, dist: seq<nat>, len: seq<nat>)

  ghost function Sum(s: seq<nat>): nat {
    if s == [] then 0 else Sum(s[..|s| - 1]) + s[|s| - 1]
  }

  /** The loop invariant of the shuffle: every cycle holds exactly one position below m. */
  ghost predicate CyclesBelow(p: seq<nat>, m: nat, f: Forest) {
    && |f.owner| == |f.dist| == |p| && |f.len| == m && 1 <= m <= |p|
    && Closed(p)
    && (forall x :: 0 <= x < m ==> f.owner[x] == x && f.dist[x] == 0)
    && (forall x :: 0 <= x < |p| ==> StepsDown(p, f, x))
    && (forall x, y :: 0 <= x < y < |p| ==> Apart(f, x, y))
    && Sum(f.len) == |p|
  }

  /** x lies on the cycle of a position with a length, and its entry is the next index of that
      cycle: one closer to the owner, or, from the owner itself, as far away as the cycle is long. */
  ghost predicate StepsDown(p: seq<nat>, f: Forest, x: nat)
    requires x < |p| == |f.owner| == |f.dist|
  {
    && p[x] < |p|
    && f.owner[x] < |f.len|
    && f.dist[x] < f.len[f.owner[x]]
    && f.owner[p[x]] == f.owner[x]
    && f.dist[p[x]] == if f.dist[x] > 0 then f.dist[x] - 1 else f.len[f.owner[x]] - 1
  }

  /** The table consists of m cycles, one through each position below m. */
  ghost predicate HasCyclesBelow(p: seq<nat>, m: nat) {
    exists f :: CyclesBelow(p, m, f)
  }

  ghost predicate Apart(f: Forest, x: nat, y: nat)
    requires x < |f.owner| == |f.dist| && y < |f.owner|
  {
    f.owner[x] != f.owner[y] || f.dist[x] != f.dist[y]
  }

  ghost function Singletons(n: nat): Forest {
    Forest(Identity(n), seq(n, _ => 0), seq(n, _ => 1))
  }

  lemma {:induction false} SumOnes(n: nat)
    ensures Sum(seq(n, _ => 1)) == n
  {
    if n > 0 {
      SumOnes(n - 1);
      assert seq(n, _ => 1)[..n - 1] == seq(n - 1, _ => 1);
    }
  }

  lemma {:induction false} SumUpdate(s: seq<nat>, j: nat, v: nat)
    requires j < |s|
    ensures Sum(s[j := v]) == Sum(s) - s[j] + v
  {
    var l := |s| - 1;
    if j == l {
      assert s[j := v][..l] == s[..l];
    } else {
      SumUpdate(s[..l], j, v);
      assert s[j := v][..l] == s[..l][j := v];
    }
  }

  /** Swapping position m - 1 with a lower one merges their two cycles. */
  ghost function Merge(f: Forest, m: nat, j: nat): Forest
    requires |f.owner| == |f.dist| && |f.len| == m && j < m - 1
  {
    Forest(
      seq(|f.owner|, x requires 0 <= x < |f.owner| => if f.owner[x] == m - 1 then j else f.owner[x]),
      seq(|f.owner|, x requires 0 <= x < |f.owner| => if f.owner[x] == m - 1 then f.dist[x] + f.len[j] else f.dist[x]),
      f.len[..m - 1][j := f.len[j] + f.len[m - 1]])
  }

  lemma MergeStep(p: seq<nat>, m: nat, f: Forest, j: nat, x: nat)
    requires CyclesBelow(p, m, f) && j < m - 1 && x < |p|
    ensures StepsDown(Swap(p, m - 1, j), Merge(f, m, j), x)
  {
    var q := Swap(p, m - 1, j);
    assert q[x] == if x == j then p[m - 1] else if x == m - 1 then p[j] else p[x];
    assert StepsDown(p, f, x) && StepsDown(p, f, j) && StepsDown(p, f, m - 1);
    if x != j && x != m - 1 && f.dist[x] == 0 {
      SamePlace(p, m, f, x, f.owner[x]);
    }
  }

  lemma MergedApart(p: seq<nat>, m: nat, f: Forest, j: nat, x: nat, y: nat)
    requires CyclesBelow(p, m, f) && j < m - 1 && x < y < |p|
    ensures Apart(Merge(f, m, j), x, y)
  {
    assert Apart(f, x, y) && StepsDown(p, f, x) && StepsDown(p, f, y);
  }

  /** Owner and distance determine the position. */
  lemma SamePlace(p: seq<nat>, m: nat, f: Forest, x: nat, y: nat)
    requires CyclesBelow(p, m, f) && x < |p| && y < |p|
    requires f.owner[x] == f.owner[y] && f.dist[x] == f.dist[y]
    ensures x == y
  {
    assert !Apart(f, x, y) && !Apart(f, y, x);
  }

  lemma MergedForest(p: seq<nat>, m: nat, f: Forest, j: nat)
    requires CyclesBelow(p, m, f) && j < m - 1
    ensures CyclesBelow(Swap(p, m - 1, j), m - 1, Merge(f, m, j))
  {
    var q, g := Swap(p, m - 1, j), Merge(f, m, j);
    SumUpdate(f.len[..m - 1], j, f.len[j] + f.len[m - 1]);
    assert f.owner[j] == j && f.owner[m - 1] == m - 1;
    forall x: nat | x < |p| ensures StepsDown(q, g, x) {
      MergeStep(p, m, f, j, x);
    }
    forall x: nat, y: nat | x < y < |p| ensures Apart(g, x, y) {
      MergedApart(p, m, f, j, x, y);
    }
  }

  /** One swap merges two cycles: the loop invariant moves from m to m - 1. */
  lemma SwapMerges(p: seq<nat>, m: nat, j: nat)
    requires HasCyclesBelow(p, m) && j < m - 1 < |p|
    ensures HasCyclesBelow(Swap(p, m - 1, j), m - 1)
  {
    var f :| CyclesBelow(p, m, f);
    MergedForest(p, m, f, j);
  }

  /** In a table with one cycle left, k steps from 0 lead to the index at distance |p| - k. */
  lemma {:induction false} DistanceFromZero(p: seq<nat>, f: Forest, k: nat)
    requires CyclesBelow(p, 1, f) && 1 <= k <= |p|
    ensures f.dist[Iter(p, k, 0)] == |p| - k
  {
    assert f.len[0] == |p| by { assert f.len == [f.len[0]]; assert Sum(f.len[..0]) == 0; }
    if k == 1 {
      assert Iter(p, 0, 0) == 0 && StepsDown(p, f, 0);
    } else {
      DistanceFromZero(p, f, k - 1);
      var y := Iter(p, k - 1, 0);
      assert StepsDown(p, f, y);
    }
  }

  /** k steps lead from 0 to x if x is at distance |p| - k. */
  lemma FoundAtDistance(p: seq<nat>, f: Forest, k: nat, x: nat)
    requires CyclesBelow(p, 1, f) && 1 <= k <= |p| && x < |p| && f.dist[x] == |p| - k
    ensures Iter(p, k, 0) == x
  {
    DistanceFromZero(p, f, k);
    var y := Iter(p, k, 0);
    assert StepsDown(p, f, x) && StepsDown(p, f, y);
    SamePlace(p, 1, f, x, y);
  }

  lemma OneCycleLeft(p: seq<nat>, f: Forest)
    requires CyclesBelow(p, 1, f)
    ensures SingleCycle(p)
  {
    var n := |p|;
    assert f.len[0] == n by { assert f.len == [f.len[0]]; assert Sum(f.len[..0]) == 0; }
    FoundAtDistance(p, f, n, 0);
    forall x | 0 <= x < n
      ensures Visits(p, x)
    {
      assert StepsDown(p, f, x);
      if f.dist[x] == 0 {
        assert Iter(p, 0, 0) == 0;
        SamePlace(p, 1, f, x, 0);
      } else {
        FoundAtDistance(p, f, n - f.dist[x], x);
      }
    }
    forall j, k | 0 <= j < k < n
      ensures Iter(p, j, 0) != Iter(p, k, 0)
    {
      DistanceFromZero(p, f, k);
      if j > 0 {
        DistanceFromZero(p, f, j);
      }
    }
  }

  lemma {:induction false} ShuffleFromIsSingleCycle(p: seq<nat>, m: nat, stream: nat -> nat, calls: nat)
    requires HasCyclesBelow(p, m) && 1 <= m <= |p|
    ensures SingleCycle(ShuffleFrom(p, m, stream, calls))
    decreases m
  {
    if m == 1 {
      var f :| CyclesBelow(p, m, f);
      OneCycleLeft(p, f);
    } else {
      var j := Partner(m - 1, stream, calls);
      SwapMerges(p, m, j);
      ShuffleFromIsSingleCycle(Swap(p, m - 1, j), m - 1, stream, calls + Cost(m - 1));
    }
  }

  /** For every size and every stream of draws the shuffle yields one single cycle. */
  lemma ShuffledIsSingleCycle(n: nat, stream: nat -> nat, calls: nat)
    requires n > 0
    ensures SingleCycle(Shuffled(n, stream, calls))
  {
    SumOnes(n);
    assert CyclesBelow(Identity(n), n, Singletons(n));
    ShuffleFromIsSingleCycle(Identity(n), n, stream, calls);
  }

  // ----- What the narrow draw rules out -----

  /** Positions at or above iter are final. */
  lemma {:induction false} UpperPartIsFinal(p: seq<nat>, iter: nat, stream: nat -> nat, calls: nat, x: nat)
    requires iter <= x < |p|
    ensures ShuffleFrom(p, iter, stream, calls)[x] == p[x]
    decreases iter
  {
    if iter > 1 {
      UpperPartIsFinal(Swap(p, iter - 1, Partner(iter - 1, stream, calls)), iter - 1, stream, calls + Cost(iter - 1),
        x);
    }
  }

  /** The draw excludes i - 1, so from three positions on the last one never leads to the one
      before it. Sattolo's algorithm, which draws from 0..i-1, does produce such cycles. */
  lemma LastNeverLeadsToItsPredecessor(n: nat, stream: nat -> nat, calls: nat)
    requires n >= 3
    ensures Shuffled(n, stream, calls)[n - 1] < n - 2
  {
    var j := Partner(n - 1, stream, calls);
    UpperPartIsFinal(Swap(Identity(n), n - 1, j), n - 1, stream, calls + Cost(n - 1), n - 1);
  }
}
