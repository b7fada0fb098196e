/** The scheduler leaves nothing to chance: the number of processors and the parallelism factor determine
    which pairs are tested in which round. */
module PairOrder {
  import opened Common
  import opened PairMatrix
  import opened PairScheduler

  /** A selection in the order of the loops, first come first served, when the pairs in `done` have been tested. */
  ghost predicate Served(n: nat, limit: nat, done: seq<Pair>, pairs: seq<Pair>) {
    && (forall k :: 0 <= k < |pairs| ==> Proper(n, pairs[k]) && pairs[k] !in done)
    && Disjoint(pairs) && Ordered(pairs) && |pairs| <= limit
    && forall p: Pair :: Proper(n, p) && p !in done && Reached(pairs, limit, p) ==> Claimed(pairs, p)
  }

  /** Two selections that agree on their first k pairs cannot differ in the next one. */
  lemma NextIsSame(n: nat, limit: nat, done: seq<Pair>, ps: seq<Pair>, qs: seq<Pair>, k: nat)
    requires Served(n, limit, done, ps) && Served(n, limit, done, qs)
    requires k < |ps| && k <= |qs| && ps[..k] == qs[..k]
    ensures k < |qs| && !Before(ps[k].0, ps[k].1, qs[k].0, qs[k].1)
  {
    var p := ps[k];
    if k == |qs| || Before(p.0, p.1, qs[k].0, qs[k].1) {
      LaterPairs(qs, k, p);
      assert Reached(qs, limit, p);
      var m: nat :| m < |qs| && Claims(qs[m], p);
      ClaimedLater(ps, qs, k, m);
    }
  }

  /** A pair of a disjoint selection is not claimed by the ones before it. */
  lemma ClaimedLater(ps: seq<Pair>, qs: seq<Pair>, k: nat, m: nat)
    requires Disjoint(ps) && k < |ps| && k <= |qs| && ps[..k] == qs[..k]
    requires m < |qs| && Claims(qs[m], ps[k])
    ensures m >= k
  {
  }

  /** A pair before number k of an ordered selection is before all later ones, and before the last. */
  lemma LaterPairs(qs: seq<Pair>, k: nat, p: Pair)
    requires Ordered(qs) && k <= |qs|
    ensures k < |qs| && Before(p.0, p.1, qs[k].0, qs[k].1) ==> forall m :: k <= m < |qs| ==> !AtOrBefore(qs[m], p)
    ensures k < |qs| && Before(p.0, p.1, qs[k].0, qs[k].1) ==> AtOrBefore(p, qs[|qs| - 1])
  {
    if k < |qs| && Before(p.0, p.1, qs[k].0, qs[k].1) {
      forall m | k <= m < |qs|
        ensures Before(p.0, p.1, qs[m].0, qs[m].1)
      {
        if k < m { assert Before(qs[k].0, qs[k].1, qs[m].0, qs[m].1); }
      }
    }
  }

  lemma {:induction false} SamePrefix(n: nat, limit: nat, done: seq<Pair>, ps: seq<Pair>, qs: seq<Pair>, k: nat)
    requires Served(n, limit, done, ps) && Served(n, limit, done, qs) && k <= |ps|
    ensures k <= |qs| && ps[..k] == qs[..k]
  {
    if k > 0 {
      SamePrefix(n, limit, done, ps, qs, k - 1);
      NextIsSame(n, limit, done, ps, qs, k - 1);
      NextIsSame(n, limit, done, qs, ps, k - 1);
      OrderIsTotal(ps[k - 1], qs[k - 1]);
      OneMore(ps, qs, k - 1);
    }
  }

  lemma OrderIsTotal(p: Pair, q: Pair)
    requires !Before(p.0, p.1, q.0, q.1) && !Before(q.0, q.1, p.0, p.1)
    ensures p == q
  {
  }

  lemma OneMore(ps: seq<Pair>, qs: seq<Pair>, k: nat)
    requires k < |ps| && k < |qs| && ps[..k] == qs[..k] && ps[k] == qs[k]
    ensures ps[..k + 1] == qs[..k + 1]
  {
    assert ps[..k + 1] == ps[..k] + [ps[k]] && qs[..k + 1] == qs[..k] + [qs[k]];
  }

  lemma IsPrefix(n: nat, limit: nat, done: seq<Pair>, ps: seq<Pair>, qs: seq<Pair>)
    requires Served(n, limit, done, ps) && Served(n, limit, done, qs)
    ensures ps <= qs
  {
    SamePrefix(n, limit, done, ps, qs, |ps|);
    Whole(ps, qs);
  }

  lemma Whole(ps: seq<Pair>, qs: seq<Pair>)
    requires |ps| <= |qs| && ps[..|ps|] == qs[..|ps|]
    ensures ps <= qs
  {
    assert ps[..|ps|] == ps;
  }

  lemma Antisymmetric(ps: seq<Pair>, qs: seq<Pair>)
    requires ps <= qs && qs <= ps
    ensures ps == qs
  {
  }

  /** The pairs tested before determine the selection. */
  lemma SelectionIsDetermined(n: nat, limit: nat, done: seq<Pair>, ps: seq<Pair>, qs: seq<Pair>)
    requires Served(n, limit, done, ps) && Served(n, limit, done, qs)
    ensures ps == qs
  {
    IsPrefix(n, limit, done, ps, qs);
    IsPrefix(n, limit, done, qs, ps);
    Antisymmetric(ps, qs);
  }

  /** Complete rounds for one offset. */
  ghost predicate Complete(n: nat, limit: nat, rounds: seq<seq<Pair>>) {
    AllPairsOnce(n, Flatten(rounds)) && forall r :: 0 <= r < |rounds| ==> GoodRound(rounds, r, n, limit)
  }

  lemma {:induction false} FlattenSplit(rounds: seq<seq<Pair>>, r: nat)
    requires r < |rounds|
    ensures exists rest :: Flatten(rounds) == Flatten(rounds[..r]) + rounds[r] + rest
    decreases |rounds|
  {
    var front := rounds[..|rounds| - 1];
    if r == |rounds| - 1 {
      assert Flatten(rounds) == Flatten(rounds[..r]) + rounds[r] + [];
    } else {
      FlattenSplit(front, r);
      assert front[..r] == rounds[..r] && front[r] == rounds[r];
      var rest :| Flatten(front) == Flatten(rounds[..r]) + rounds[r] + rest;
      assert Flatten(rounds) == Flatten(rounds[..r]) + rounds[r] + (rest + rounds[|rounds| - 1]);
    }
  }

  lemma NewPair(done: seq<Pair>, pairs: seq<Pair>, rest: seq<Pair>, k: nat)
    requires NoRepeats(done + pairs + rest) && k < |pairs|
    ensures pairs[k] !in done && pairs[k] in done + pairs + rest
  {
    var log := done + pairs + rest;
    assert log[|done| + k] == pairs[k];
    forall j | 0 <= j < |done|
      ensures done[j] != pairs[k]
    {
      assert log[j] == done[j];
    }
  }

  lemma RoundIsServed(n: nat, limit: nat, rounds: seq<seq<Pair>>, r: nat)
    requires Complete(n, limit, rounds) && r < |rounds|
    ensures Served(n, limit, Flatten(rounds[..r]), rounds[r]) && |rounds[r]| > 0
  {
    var done, pairs, log := Flatten(rounds[..r]), rounds[r], Flatten(rounds);
    FlattenSplit(rounds, r);
    var rest :| log == done + pairs + rest;
    assert GoodRound(rounds, r, n, limit);
    forall k | 0 <= k < |pairs|
      ensures Proper(n, pairs[k]) && pairs[k] !in done
    {
      NewPair(done, pairs, rest, k);
    }
  }

  /** Complete rounds that agree with the first r of others leave nothing for a further one. */
  lemma NotLonger(n: nat, limit: nat, rounds: seq<seq<Pair>>, others: seq<seq<Pair>>, r: nat)
    requires Complete(n, limit, rounds) && Complete(n, limit, others)
    requires r < |rounds| && r <= |others| && rounds[..r] == others[..r]
    ensures r < |others|
  {
    assert r == |others| ==> others[..r] == others;
    RoundIsServed(n, limit, rounds, r);
    var p := rounds[r][0];
    assert Proper(n, p) && p in Flatten(others);
  }

  lemma {:induction false} SameRounds(n: nat, limit: nat, rounds: seq<seq<Pair>>, others: seq<seq<Pair>>, r: nat)
    requires Complete(n, limit, rounds) && Complete(n, limit, others) && r <= |rounds|
    ensures r <= |others| && rounds[..r] == others[..r]
  {
    if r > 0 {
      SameRounds(n, limit, rounds, others, r - 1);
      NotLonger(n, limit, rounds, others, r - 1);
      SameRound(n, limit, rounds, others, r - 1);
      assert rounds[..r] == rounds[..r - 1] + [rounds[r - 1]] && others[..r] == others[..r - 1] + [others[r - 1]];
    }
  }

  lemma SameRound(n: nat, limit: nat, rounds: seq<seq<Pair>>, others: seq<seq<Pair>>, r: nat)
    requires Complete(n, limit, rounds) && Complete(n, limit, others)
    requires r < |rounds| && r < |others| && rounds[..r] == others[..r]
    ensures rounds[r] == others[r]
  {
    RoundIsServed(n, limit, rounds, r);
    RoundIsServed(n, limit, others, r);
    SelectionIsDetermined(n, limit, Flatten(rounds[..r]), rounds[r], others[r]);
  }

  /** The number of processors and the parallelism factor determine all rounds of an offset. */
  lemma RoundsAreDetermined(n: nat, limit: nat, rounds: seq<seq<Pair>>, others: seq<seq<Pair>>)
    requires Complete(n, limit, rounds) && Complete(n, limit, others)
    ensures rounds == others
  {
    SameRounds(n, limit, rounds, others, |rounds|);
    SameRounds(n, limit, others, rounds, |others|);
  }
}
