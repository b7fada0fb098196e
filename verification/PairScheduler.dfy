/** The parallel pair scheduler of PThreadsCoherencyLatency.c: rounds of selecting, launching and
    joining tests until every ordered pair of processors has been tested. Thread creation and the
    test itself are replaced by an arbitrary stream of results. */
module PairScheduler {
  import opened Common
  import opened PairMatrix

  /** Invariant of the selection loops when they are about to look at cell (i, j). */
  ghost predicate Selecting(before: seq<nat>, s: seq<nat>, n: nat, pairs: seq<Pair>, i: nat, j: nat) {
    && |before| == |s| == n * n
    && Idle(before, n) && RunningAre(before, s, n, pairs) && Selection(before, n, pairs)
    && Considered(before, n, pairs, i, j) && Ordered(pairs)
    && forall k :: 0 <= k < |pairs| ==> Before(pairs[k].0, pairs[k].1, i, j)
  }

  /** "neither thread can already have a pending run" */
  method ValidPair(state: array<nat>, n: nat, i: nat, j: nat) returns (valid: bool)
    requires state.Length == n * n && i < n && j < n
    ensures valid <==> NoneRunning(state[..], n, i, j, n)
  {
    valid := true;
    for c := 0 to n
      invariant NoneRunning(state[..], n, i, j, c)
    {
      if state[Index(n, c, j)] == RUNNING || state[Index(n, i, c)] == RUNNING ||
         state[Index(n, c, i)] == RUNNING || state[Index(n, j, c)] == RUNNING {
        assert At(state[..], n, c, j) == RUNNING || At(state[..], n, i, c) == RUNNING ||
               At(state[..], n, c, i) == RUNNING || At(state[..], n, j, c) == RUNNING;
        return false;
      }
      assert At(state[..], n, c, j) != RUNNING && At(state[..], n, i, c) != RUNNING;
      assert At(state[..], n, c, i) != RUNNING && At(state[..], n, j, c) != RUNNING;
    }
  }

  /** Cells at or after the loop position are as they were before the round. */
  lemma NotYetRunning(before: seq<nat>, s: seq<nat>, n: nat, pairs: seq<Pair>, i: nat, j: nat)
    requires i < n && j < n && Selecting(before, s, n, pairs, i, j)
    ensures At(s, n, i, j) == At(before, n, i, j) != RUNNING
  {
    assert forall k :: 0 <= k < |pairs| ==> pairs[k] != (i, j);
  }

  /** Moving past a cell that is not selected. */
  lemma Skip(before: seq<nat>, s: seq<nat>, n: nat, pairs: seq<Pair>, i: nat, j: nat)
    requires i < n && j < n && Selecting(before, s, n, pairs, i, j)
    requires i == j || At(before, n, i, j) != UNTESTED || Blocked(pairs, (i, j))
    ensures Selecting(before, s, n, pairs, i, j + 1)
  {
    forall k, l | 0 <= k < n && 0 <= l < n && k != l && Before(k, l, i, j + 1) && At(before, n, k, l) == UNTESTED
      ensures Claimed(pairs, (k, l))
    {
      assert Before(k, l, i, j) || (k == i && l == j);
      if k == i && l == j {
        var m :| 0 <= m < |pairs| && Shares(pairs[m], (k, l));
        assert Claims(pairs[m], (k, l));
      }
    }
  }

  /** Selecting the cell. */
  lemma Select(before: seq<nat>, s: seq<nat>, n: nat, pairs: seq<Pair>, i: nat, j: nat)
    requires i < n && j < n && i != j && Selecting(before, s, n, pairs, i, j)
    requires At(before, n, i, j) == UNTESTED && !Blocked(pairs, (i, j))
    ensures Selecting(before, s[Index(n, i, j) := RUNNING], n, pairs + [(i, j)], i, j + 1)
  {
    var t, qs := s[Index(n, i, j) := RUNNING], pairs + [(i, j)];
    forall k, l | 0 <= k < n && 0 <= l < n
      ensures At(t, n, k, l) == if (k, l) in qs then RUNNING else At(before, n, k, l)
    {
      AtUpdate(s, n, i, j, RUNNING, k, l);
    }
    forall k, l | 0 <= k < l < |qs|
      ensures !Shares(qs[k], qs[l])
    {
      if l == |pairs| {
        assert qs[l] == (i, j) && qs[k] == pairs[k];
      }
    }
    forall k, l | 0 <= k < n && 0 <= l < n && k != l && Before(k, l, i, j + 1) && At(before, n, k, l) == UNTESTED
      ensures Claimed(qs, (k, l))
    {
      if k == i && l == j {
        assert Claims(qs[|pairs|], (k, l));
      } else {
        var m :| 0 <= m < |pairs| && Claims(pairs[m], (k, l));
        assert Claims(qs[m], (k, l));
      }
    }
  }

  /** `bouncyArr + (512 * selectedParallelTestCount + 8 * offsetIdx)`, in 64-bit words. */
  function Target(k: nat, offset: nat): nat { 512 * k + 8 * offset }

  /** Each selected pair has the target that belongs to its place in the round. */
  ghost predicate Targeted(pairs: seq<Pair>, targets: seq<nat>, offset: nat) {
    |targets| == |pairs| && forall k :: 0 <= k < |targets| ==> targets[k] == Target(k, offset)
  }

  /** The body of the inner loop. `failed` is the exit with "Thread unexpectedly did not complete". */
  method ConsiderPair(state: array<nat>, latencies: array<real>, n: nat, i: nat, j: nat, pairs0: seq<Pair>,
                      targets0: seq<nat>, offset: nat, ghost before: seq<nat>)
    returns (pairs: seq<Pair>, targets: seq<nat>, failed: bool)
    requires state.Length == latencies.Length == n * n && i < n && j < n && Targeted(pairs0, targets0, offset)
    requires Selecting(before, state[..], n, pairs0, i, j)
    modifies state, latencies
    ensures Selecting(before, state[..], n, pairs, i, j + 1) && !failed
    ensures Targeted(pairs, targets, offset) && (pairs == pairs0 || pairs == pairs0 + [(i, j)])
    ensures forall c :: 0 <= c < n * n ==>
      latencies[c] == if i == j && c == Index(n, i, j) then 0.0 else old(latencies[c])
  {
    pairs, targets, failed := pairs0, targets0, false;
    ghost var s := state[..];
    NotYetRunning(before, s, n, pairs, i, j);
    if j == i {
      latencies[Index(n, i, j)] := 0.0;
      Skip(before, s, n, pairs, i, j);
    } else if state[Index(n, i, j)] == RUNNING {
      failed := true;
    } else if state[Index(n, i, j)] == UNTESTED {
      var valid := ValidPair(state, n, i, j);
      ValidMeansUnblocked(before, s, n, pairs, i, j);
      if valid {
        Select(before, s, n, pairs, i, j);
        state[Index(n, i, j)] := RUNNING;
        targets := targets + [512 * |pairs| + 8 * offset];
        pairs := pairs + [(i, j)];
      } else {
        Skip(before, s, n, pairs, i, j);
      }
    } else {
      Skip(before, s, n, pairs, i, j);
    }
  }

  /** Diagonal results already written: those of rows before i. */
  ghost predicate DiagonalZero(latencies: seq<real>, n: nat, rows: nat)
    requires |latencies| == n * n && rows <= n
  {
    forall i :: 0 <= i < rows ==> At(latencies, n, i, i) == 0.0
  }

  /** Results off the diagonal are untouched by the selection. */
  ghost predicate SameOffDiagonal(a: seq<real>, b: seq<real>, n: nat)
    requires |a| == |b| == n * n
  {
    forall i, j :: 0 <= i < n && 0 <= j < n && i != j ==> At(a, n, i, j) == At(b, n, i, j)
  }

  /** End of a row is the beginning of the next. */
  lemma NextRow(before: seq<nat>, s: seq<nat>, n: nat, pairs: seq<Pair>, i: nat)
    requires i < n && Selecting(before, s, n, pairs, i, n)
    ensures Selecting(before, s, n, pairs, i + 1, 0)
  {
    forall k, l | 0 <= k < n && 0 <= l < n && k != l && Before(k, l, i + 1, 0) && At(before, n, k, l) == UNTESTED
      ensures Claimed(pairs, (k, l))
    {
      assert Before(k, l, i, n);
    }
  }

  /** The inner loop, for row i. */
  method SelectRow(state: array<nat>, latencies: array<real>, n: nat, i: nat, limit: nat, pairs0: seq<Pair>,
                   targets0: seq<nat>, offset: nat, ghost before: seq<nat>)
    returns (pairs: seq<Pair>, targets: seq<nat>, failed: bool)
    requires state.Length == latencies.Length == n * n && i < n
    requires |pairs0| < limit && Targeted(pairs0, targets0, offset)
    requires Selecting(before, state[..], n, pairs0, i, 0)
    modifies state, latencies
    ensures !failed && |pairs| <= limit && Targeted(pairs, targets, offset)
    ensures |pairs| < limit ==> Selecting(before, state[..], n, pairs, i + 1, 0)
    ensures exists j :: 0 <= j <= n && Selecting(before, state[..], n, pairs, i, j)
    ensures SameOffDiagonal(old(latencies[..]), latencies[..], n)
    ensures old(DiagonalZero(latencies[..], n, i)) ==> DiagonalZero(latencies[..], n, i)
    ensures |pairs| < limit ==> At(latencies[..], n, i, i) == 0.0
  {
    pairs, targets, failed := pairs0, targets0, false;
    var j: nat := 0;
    while j < n && |pairs| < limit
      invariant j <= n && !failed && |pairs| <= limit && Targeted(pairs, targets, offset)
      invariant Selecting(before, state[..], n, pairs, i, j)
      invariant SameOffDiagonal(old(latencies[..]), latencies[..], n)
      invariant old(DiagonalZero(latencies[..], n, i)) ==> DiagonalZero(latencies[..], n, i)
      invariant j > i ==> At(latencies[..], n, i, i) == 0.0
      decreases n - j
    {
      ghost var was := latencies[..];
      pairs, targets, failed := ConsiderPair(state, latencies, n, i, j, pairs, targets, offset, before);
      DiagonalStep(was, latencies[..], n, i, j);
      j := j + 1;
    }
    if |pairs| < limit {
      NextRow(before, state[..], n, pairs, i);
    }
  }

  lemma DiagonalStep(a: seq<real>, b: seq<real>, n: nat, i: nat, j: nat)
    requires |a| == |b| == n * n && i < n && j < n
    requires forall c :: 0 <= c < n * n ==> b[c] == if i == j && c == Index(n, i, j) then 0.0 else a[c]
    ensures SameOffDiagonal(a, b, n)
    ensures DiagonalZero(a, n, i) ==> DiagonalZero(b, n, i)
    ensures (j > i && At(a, n, i, i) == 0.0) || j == i ==> At(b, n, i, i) == 0.0
  {
    forall k, l | 0 <= k < n && 0 <= l < n
      ensures At(b, n, k, l) == if i == j && k == i && l == j then 0.0 else At(a, n, k, l)
    {
      IndexInjective(n, i, j, k, l);
    }
  }

  /** One round of selections: processor-disjoint untested pairs, at most `limit` of them, first come first
      served. */
  ghost predicate Round(before: seq<nat>, s: seq<nat>, n: nat, pairs: seq<Pair>, limit: nat) {
    && |before| == |s| == n * n
    && RunningAre(before, s, n, pairs) && Selection(before, n, pairs)
    && |pairs| <= limit && Ordered(pairs) && FirstCome(before, n, pairs, limit)
  }

  method SelectRound(state: array<nat>, latencies: array<real>, n: nat, limit: nat, offset: nat)
    returns (pairs: seq<Pair>, targets: seq<nat>, failed: bool)
    requires state.Length == latencies.Length == n * n && Idle(state[..], n)
    modifies state, latencies
    ensures !failed && Targeted(pairs, targets, offset) && Round(old(state[..]), state[..], n, pairs, limit)
    ensures SameOffDiagonal(old(latencies[..]), latencies[..], n)
    ensures |pairs| < limit ==> DiagonalZero(latencies[..], n, n)
  {
    pairs, targets, failed := [], [], false;
    ghost var before := state[..];
    assert Selecting(before, state[..], n, pairs, 0, 0);
    var i: nat := 0;
    while i < n && |pairs| < limit
      invariant i <= n && !failed && |pairs| <= limit && Targeted(pairs, targets, offset)
      invariant exists k, l :: Selecting(before, state[..], n, pairs, k, l)
      invariant |pairs| < limit ==> Selecting(before, state[..], n, pairs, i, 0)
      invariant SameOffDiagonal(old(latencies[..]), latencies[..], n)
      invariant |pairs| < limit ==> DiagonalZero(latencies[..], n, i)
      decreases n - i
    {
      pairs, targets, failed := SelectRow(state, latencies, n, i, limit, pairs, targets, offset, before);
      i := i + 1;
    }
    var k, l := ScanEnd(before, state[..], n, pairs, limit, i);
    AllConsidered(before, state[..], n, pairs, limit, k, l);
  }

  /** Where the loops have stopped. */
  lemma ScanEnd(before: seq<nat>, s: seq<nat>, n: nat, pairs: seq<Pair>, limit: nat, i: nat) returns (k: nat, l: nat)
    requires exists k, l :: Selecting(before, s, n, pairs, k, l)
    requires |pairs| < limit ==> i == n && Selecting(before, s, n, pairs, i, 0)
    ensures Selecting(before, s, n, pairs, k, l) && (|pairs| < limit ==> k == n)
  {
    if |pairs| < limit {
      k, l := n, 0;
    } else {
      k, l :| Selecting(before, s, n, pairs, k, l);
    }
  }

  lemma AllConsidered(before: seq<nat>, s: seq<nat>, n: nat, pairs: seq<Pair>, limit: nat, k: nat, l: nat)
    requires Selecting(before, s, n, pairs, k, l) && |pairs| <= limit && (|pairs| < limit ==> k == n)
    ensures FirstCome(before, n, pairs, limit)
  {
    forall i, j | 0 <= i < n && 0 <= j < n && i != j && At(before, n, i, j) == UNTESTED && Reached(pairs, limit, (i, j))
      ensures Claimed(pairs, (i, j))
    {
      assert Before(i, j, k, l);
    }
  }

  /** The pairs have the results that come next in the stream. */
  ghost predicate Measured(measured: seq<real>, pairs: seq<Pair>, results: nat -> real, base: nat) {
    |measured| == |pairs| && forall k :: 0 <= k < |pairs| ==> measured[k] == results(base + k)
  }

  /** The launch loop: its break for a pair of processors 0 and 0 is never taken, so every selected pair is
      launched and finds its result in its run data, which selection had set to zero. */
  method Launch(n: nat, pairs: seq<Pair>, results: nat -> real, base: nat) returns (measured: seq<real>)
    requires forall k :: 0 <= k < |pairs| ==> Proper(n, pairs[k])
    ensures Measured(measured, pairs, results, base)
  {
    measured := seq(|pairs|, _ => 0.0);
    var launched := 0;
    while launched < |pairs|
      invariant launched <= |pairs| == |measured|
      invariant forall k :: 0 <= k < launched ==> measured[k] == results(base + k)
    {
      if pairs[launched].0 == 0 && pairs[launched].1 == 0 {
        break;
      }
      measured := measured[launched := results(base + launched)];
      launched := launched + 1;
    }
  }

  /** After the first `upTo` joins: their cells are done, their results recorded. */
  ghost predicate Joined(s0: seq<nat>, s: seq<nat>, l0: seq<real>, l: seq<real>, n: nat, pairs: seq<Pair>, upTo: nat,
        measured: seq<real>)
    requires |s0| == |s| == |l0| == |l| == n * n && upTo <= |pairs| == |measured|
  {
    && (forall i, j :: 0 <= i < n && 0 <= j < n ==>
          At(s, n, i, j) == if (i, j) in pairs[..upTo] then DONE else At(s0, n, i, j))
    && (forall i, j :: 0 <= i < n && 0 <= j < n && (i, j) !in pairs[..upTo] ==> At(l, n, i, j) == At(l0, n, i, j))
    && (forall k :: 0 <= k < upTo && Proper(n, pairs[k]) ==> At(l, n, pairs[k].0, pairs[k].1) == measured[k])
  }

  /** The join loop. */
  method Join(state: array<nat>, latencies: array<real>, n: nat, pairs: seq<Pair>, measured: seq<real>)
    requires state.Length == latencies.Length == n * n && |measured| == |pairs|
    requires (forall k :: 0 <= k < |pairs| ==> Proper(n, pairs[k])) && Disjoint(pairs)
    modifies state, latencies
    ensures Joined(old(state[..]), state[..], old(latencies[..]), latencies[..], n, pairs, |pairs|, measured)
  {
    for k := 0 to |pairs|
      invariant Joined(old(state[..]), state[..], old(latencies[..]), latencies[..], n, pairs, k, measured)
    {
      var i, j := pairs[k].0, pairs[k].1;
      ghost var s, l := state[..], latencies[..];
      latencies[Index(n, i, j)] := measured[k];
      state[Index(n, i, j)] := DONE;
      JoinStep(old(state[..]), s, old(latencies[..]), l, n, pairs, k, measured);
    }
  }

  lemma JoinStep(s0: seq<nat>, s: seq<nat>, l0: seq<real>, l: seq<real>, n: nat, pairs: seq<Pair>, k: nat,
        measured: seq<real>)
    requires |s0| == |s| == |l0| == |l| == n * n && k < |pairs| == |measured|
    requires (forall m :: 0 <= m < |pairs| ==> Proper(n, pairs[m])) && Proper(n, pairs[k]) && Disjoint(pairs)
    requires Joined(s0, s, l0, l, n, pairs, k, measured)
    ensures var c := Index(n, pairs[k].0, pairs[k].1);
      Joined(s0, s[c := DONE], l0, l[c := measured[k]], n, pairs, k + 1, measured)
  {
    var a, b := pairs[k].0, pairs[k].1;
    assert pairs[..k + 1] == pairs[..k] + [pairs[k]];
    forall i, j | 0 <= i < n && 0 <= j < n
      ensures At(s[Index(n, a, b) := DONE], n, i, j) == if (i, j) == pairs[k] then DONE else At(s, n, i, j)
      ensures At(l[Index(n, a, b) := measured[k]], n, i, j) ==
        if (i, j) == pairs[k] then measured[k] else At(l, n, i, j)
    {
      AtUpdate(s, n, a, b, DONE, i, j);
      AtUpdate(l, n, a, b, measured[k], i, j);
    }
    forall m | 0 <= m < k
      ensures pairs[m] != pairs[k]
    {
      assert !Shares(pairs[m], pairs[k]);
    }
  }

  // ----- All rounds of one offset -----

  ghost predicate NoRepeats(log: seq<Pair>) {
    forall k, l :: 0 <= k < l < |log| ==> log[k] != log[l]
  }

  /** Round r tests processor-disjoint pairs, at least one and at most `limit`, in the order of the loops:
      every proper pair that no earlier round tested and to which the loops come is among them or gave way to
      an earlier one. */
  ghost predicate GoodRound(rounds: seq<seq<Pair>>, r: nat, n: nat, limit: nat)
    requires r < |rounds|
  {
    && Disjoint(rounds[r]) && Ordered(rounds[r]) && 1 <= |rounds[r]| <= limit
    && forall p: Pair :: Proper(n, p) && p !in Flatten(rounds[..r]) && Reached(rounds[r], limit, p) ==>
      Claimed(rounds[r], p)
  }

  /** Between rounds: the matrix records exactly what has been tested, and the results are in place. */
  ghost predicate Progress(s: seq<nat>, l: seq<real>, n: nat, rounds: seq<seq<Pair>>, limit: nat,
        results: nat -> real) {
    && |s| == |l| == n * n
    && (forall k :: 0 <= k < |Flatten(rounds)| ==> Proper(n, Flatten(rounds)[k]))
    && NoRepeats(Flatten(rounds))
    && (forall i, j :: 0 <= i < n && 0 <= j < n ==>
          At(s, n, i, j) == if (i, j) in Flatten(rounds) then DONE else UNTESTED)
    && (forall k :: 0 <= k < |Flatten(rounds)| ==> ResultOf(l, n, Flatten(rounds), k, results))
    && (forall r :: 0 <= r < |rounds| ==> GoodRound(rounds, r, n, limit))
  }

  ghost predicate ResultOf(l: seq<real>, n: nat, log: seq<Pair>, k: nat, results: nat -> real)
    requires |l| == n * n && k < |log| && Proper(n, log[k])
  {
    At(l, n, log[k].0, log[k].1) == results(k)
  }

  ghost function Untested(s: seq<nat>, n: nat): set<Pair>
    requires |s| == n * n
  {
    set i, j | 0 <= i < n && 0 <= j < n && i != j && At(s, n, i, j) == UNTESTED :: (i, j)
  }

  lemma FlattenSnoc(rounds: seq<seq<Pair>>, pairs: seq<Pair>)
    ensures Flatten(rounds + [pairs]) == Flatten(rounds) + pairs
  {
    assert (rounds + [pairs])[..|rounds|] == rounds;
  }

  /** The log grows by proper pairs that were not in it. */
  lemma LogGrows(s: seq<nat>, l: seq<real>, n: nat, rounds: seq<seq<Pair>>, limit: nat, results: nat -> real,
        pairs: seq<Pair>)
    requires Progress(s, l, n, rounds, limit, results) && Selection(s, n, pairs)
    ensures var log := Flatten(rounds) + pairs;
      (forall k :: 0 <= k < |log| ==> Proper(n, log[k])) && NoRepeats(log)
  {
    var earlier, log := Flatten(rounds), Flatten(rounds) + pairs;
    forall k, m | 0 <= k < m < |log|
      ensures log[k] != log[m]
    {
      if |earlier| <= k {
        assert !Shares(pairs[k - |earlier|], pairs[m - |earlier|]);
      } else if |earlier| <= m {
        var p := pairs[m - |earlier|];
        assert Proper(n, p) && At(s, n, p.0, p.1) == UNTESTED && p == (p.0, p.1);
        assert earlier[k] in earlier;
      }
    }
  }

  lemma StateGrows(s0: seq<nat>, s1: seq<nat>, s2: seq<nat>, l0: seq<real>, l1: seq<real>, l2: seq<real>, n: nat,
                   rounds: seq<seq<Pair>>, limit: nat, results: nat -> real, pairs: seq<Pair>, measured: seq<real>)
    requires Progress(s0, l0, n, rounds, limit, results) && Round(s0, s1, n, pairs, limit)
    requires |s2| == |l1| == |l2| == n * n && |measured| == |pairs|
    requires Joined(s1, s2, l1, l2, n, pairs, |pairs|, measured)
    ensures forall i, j :: 0 <= i < n && 0 <= j < n ==>
      At(s2, n, i, j) == if (i, j) in Flatten(rounds) + pairs then DONE else UNTESTED
  {
    assert pairs[..|pairs|] == pairs;
    forall i, j | 0 <= i < n && 0 <= j < n
      ensures At(s2, n, i, j) == if (i, j) in Flatten(rounds) + pairs then DONE else UNTESTED
    {
      assert At(s2, n, i, j) == if (i, j) in pairs then DONE else At(s1, n, i, j);
      assert At(s1, n, i, j) == if (i, j) in pairs then RUNNING else At(s0, n, i, j);
    }
  }

  lemma ResultsGrow(s0: seq<nat>, s1: seq<nat>, s2: seq<nat>, l0: seq<real>, l1: seq<real>, l2: seq<real>, n: nat,
                    rounds: seq<seq<Pair>>, limit: nat, results: nat -> real, pairs: seq<Pair>, measured: seq<real>)
    requires Progress(s0, l0, n, rounds, limit, results) && Selection(s0, n, pairs)
    requires |s1| == |s2| == |l1| == |l2| == n * n && SameOffDiagonal(l0, l1, n)
    requires Measured(measured, pairs, results, |Flatten(rounds)|)
    requires Joined(s1, s2, l1, l2, n, pairs, |pairs|, measured)
    ensures var log := Flatten(rounds) + pairs;
      forall k :: 0 <= k < |log| ==> Proper(n, log[k]) && ResultOf(l2, n, log, k, results)
  {
    var earlier, log := Flatten(rounds), Flatten(rounds) + pairs;
    assert pairs[..|pairs|] == pairs;
    forall k | 0 <= k < |log|
      ensures Proper(n, log[k]) && ResultOf(l2, n, log, k, results)
    {
      var p := log[k];
      if k < |earlier| {
        assert p == earlier[k] && Proper(n, p) && p == (p.0, p.1) && ResultOf(l0, n, earlier, k, results);
        assert p in earlier && At(s0, n, p.0, p.1) == DONE;
        assert p !in pairs;
      } else {
        assert p == pairs[k - |earlier|] && Proper(n, p);
      }
    }
  }

  lemma RoundsGrow(s: seq<nat>, s1: seq<nat>, l: seq<real>, n: nat, rounds: seq<seq<Pair>>, limit: nat,
        results: nat -> real, pairs: seq<Pair>)
    requires Progress(s, l, n, rounds, limit, results) && Round(s, s1, n, pairs, limit) && |pairs| > 0
    ensures forall r :: 0 <= r <= |rounds| ==> GoodRound(rounds + [pairs], r, n, limit)
  {
    var more := rounds + [pairs];
    forall r | 0 <= r <= |rounds|
      ensures GoodRound(more, r, n, limit)
    {
      if r < |rounds| {
        assert GoodRound(rounds, r, n, limit) && more[..r] == rounds[..r] && more[r] == rounds[r];
      } else {
        assert more[..r] == rounds && more[r] == pairs;
        forall p: Pair | Proper(n, p) && p !in Flatten(rounds) && Reached(pairs, limit, p)
          ensures Claimed(pairs, p)
        {
          assert p == (p.0, p.1) && At(s, n, p.0, p.1) == UNTESTED;
        }
      }
    }
  }

  lemma UntestedShrinks(s0: seq<nat>, s2: seq<nat>, n: nat, log: seq<Pair>, pairs: seq<Pair>)
    requires |s0| == |s2| == n * n && Selection(s0, n, pairs) && |pairs| > 0
    requires forall i, j :: 0 <= i < n && 0 <= j < n ==> At(s0, n, i, j) == if (i, j) in log then DONE else UNTESTED
    requires forall i, j :: 0 <= i < n && 0 <= j < n ==>
      At(s2, n, i, j) == if (i, j) in log + pairs then DONE else UNTESTED
    ensures Untested(s2, n) < Untested(s0, n)
  {
    var p := pairs[0];
    assert Proper(n, p) && p == (p.0, p.1) && p in pairs;
    assert p in Untested(s0, n) && p !in Untested(s2, n);
  }

  lemma RoundDone(s0: seq<nat>, s1: seq<nat>, s2: seq<nat>, l0: seq<real>, l1: seq<real>, l2: seq<real>, n: nat,
                  rounds: seq<seq<Pair>>, limit: nat, results: nat -> real, pairs: seq<Pair>, measured: seq<real>)
    requires Progress(s0, l0, n, rounds, limit, results) && Round(s0, s1, n, pairs, limit) && |pairs| > 0
    requires |s2| == |l1| == |l2| == n * n && SameOffDiagonal(l0, l1, n)
    requires Measured(measured, pairs, results, |Flatten(rounds)|)
    requires Joined(s1, s2, l1, l2, n, pairs, |pairs|, measured)
    ensures Progress(s2, l2, n, rounds + [pairs], limit, results)
    ensures Untested(s2, n) < Untested(s0, n)
  {
    FlattenSnoc(rounds, pairs);
    LogGrows(s0, l0, n, rounds, limit, results, pairs);
    StateGrows(s0, s1, s2, l0, l1, l2, n, rounds, limit, results, pairs, measured);
    ResultsGrow(s0, s1, s2, l0, l1, l2, n, rounds, limit, results, pairs, measured);
    RoundsGrow(s0, s1, l0, n, rounds, limit, results, pairs);
    UntestedShrinks(s0, s2, n, Flatten(rounds), pairs);
  }

  /** A round that selects nothing although it may means that everything has been tested. */
  lemma NothingLeft(s: seq<nat>, s1: seq<nat>, l: seq<real>, n: nat, rounds: seq<seq<Pair>>, limit: nat,
        results: nat -> real, p: Pair)
    requires Progress(s, l, n, rounds, limit, results) && Round(s, s1, n, [], limit) && limit > 0 && Proper(n, p)
    ensures p in Flatten(rounds)
  {
    assert p == (p.0, p.1);
    assert !Claimed([], p) && Reached([], limit, p);
    assert At(s, n, p.0, p.1) == UNTESTED || p in Flatten(rounds);
  }

  /** Every ordered pair of distinct processors exactly once, and nothing else. */
  ghost predicate AllPairsOnce(n: nat, log: seq<Pair>) {
    && (forall k :: 0 <= k < |log| ==> Proper(n, log[k]))
    && NoRepeats(log)
    && forall p: Pair :: Proper(n, p) ==> p in log
  }

  /** The result matrix: zero on the diagonal, and for the pair tested as number k the k-th result. */
  ghost predicate ResultsFilled(l: seq<real>, n: nat, log: seq<Pair>, results: nat -> real) {
    && |l| == n * n
    && (forall i :: 0 <= i < n ==> At(l, n, i, i) == 0.0)
    && (forall k :: 0 <= k < |log| && Proper(n, log[k]) ==> ResultOf(l, n, log, k, results))
  }

  /** The scheduler for one cache line offset, with a fresh matrix. Of a parallelism factor below one,
      which selects nothing, only zero is modelled. `failed` is the "did not complete" exit. */
  method RunOffset(n: nat, limit: nat, offset: nat, results: nat -> real)
    returns (rounds: seq<seq<Pair>>, targets: seq<seq<nat>>, latencies: seq<real>, failed: bool)
    ensures !failed
    ensures limit > 0 ==> AllPairsOnce(n, Flatten(rounds)) && ResultsFilled(latencies, n, Flatten(rounds), results)
    ensures limit == 0 ==> rounds == []
    ensures forall r :: 0 <= r < |rounds| ==> GoodRound(rounds, r, n, limit)
    ensures |targets| == |rounds| && forall r :: 0 <= r < |rounds| ==> Targeted(rounds[r], targets[r], offset)
  {
    var state := new nat[n * n](_ => UNTESTED);
    var lat := new real[n * n];
    rounds, targets, failed := [], [], false;
    while true
      invariant Progress(state[..], lat[..], n, rounds, limit, results)
      invariant limit == 0 ==> rounds == []
      invariant |targets| == |rounds| && forall r :: 0 <= r < |rounds| ==> Targeted(rounds[r], targets[r], offset)
      decreases Untested(state[..], n)
    {
      ghost var s0, l0 := state[..], lat[..];
      var pairs, pairTargets;
      pairs, pairTargets, failed := SelectRound(state, lat, n, limit, offset);
      ghost var s1, l1 := state[..], lat[..];
      if failed {
        break;
      }
      if |pairs| == 0 {
        forall p: Pair | limit > 0 && Proper(n, p)
          ensures p in Flatten(rounds)
        {
          NothingLeft(s0, s1, l0, n, rounds, limit, results, p);
        }
        Kept(l0, l1, n, Flatten(rounds), results);
        break;
      }
      var measured := Launch(n, pairs, results, LogLength(rounds));
      Join(state, lat, n, pairs, measured);
      RoundDone(s0, s1, state[..], l0, l1, lat[..], n, rounds, limit, results, pairs, measured);
      rounds, targets := rounds + [pairs], targets + [pairTargets];
    }
    latencies := lat[..];
  }

  /** Tests run so far. */
  function LogLength(rounds: seq<seq<Pair>>): (k: nat)
    ensures k == |Flatten(rounds)|
  {
    if rounds == [] then 0 else LogLength(rounds[..|rounds| - 1]) + |rounds[|rounds| - 1]|
  }

  lemma Kept(l0: seq<real>, l1: seq<real>, n: nat, log: seq<Pair>, results: nat -> real)
    requires |l0| == |l1| == n * n && SameOffDiagonal(l0, l1, n)
    requires forall k :: 0 <= k < |log| ==> Proper(n, log[k]) && ResultOf(l0, n, log, k, results)
    ensures forall k :: 0 <= k < |log| ==> ResultOf(l1, n, log, k, results)
  {
    forall k | 0 <= k < |log|
      ensures ResultOf(l1, n, log, k, results)
    {
      assert Proper(n, log[k]) && ResultOf(l0, n, log, k, results);
    }
  }
}
