/** The words that the parallel tests of a round bounce, over all cache line offsets: each pair has a page of
    its own, and exactly how many offsets the allocated block has room for. */
module TargetPages {
  import opened Common
  import opened PairMatrix
  import opened PairScheduler

  const WORDS_PER_PAGE := 512   // 64-bit words in 4096 bytes

  /** The block holds one page for each parallel test. */
  function BlockWords(limit: nat): nat { WORDS_PER_PAGE * limit }

  /** The targets of one round are on pages that are different from each other, whatever the offset: each
      offset of 64 lines moves all of them on by one page. */
  lemma TargetsAreOnSeparatePages(pairs: seq<Pair>, targets: seq<nat>, offset: nat)
    requires Targeted(pairs, targets, offset)
    ensures forall k :: 0 <= k < |targets| ==> targets[k] / WORDS_PER_PAGE == k + offset / 64
    ensures forall j, k :: 0 <= j < k < |targets| ==> targets[j] / WORDS_PER_PAGE != targets[k] / WORDS_PER_PAGE
  {
    forall k | 0 <= k < |targets|
      ensures targets[k] / WORDS_PER_PAGE == k + offset / 64
    {
      TargetPage(k, offset);
    }
  }

  lemma TargetPage(k: nat, offset: nat)
    ensures Target(k, offset) / WORDS_PER_PAGE == k + offset / 64
  {
    var page, line := offset / 64, offset % 64;
    assert Target(k, offset) == 512 * (k + page) + 8 * line;
  }

  /** Within its page the target is at the line of the offset: line 64 * k + offset of the block for pair k. */
  lemma TargetsAreOnLines(pairs: seq<Pair>, targets: seq<nat>, offset: nat)
    requires Targeted(pairs, targets, offset)
    ensures OnLines(targets, offset)
  {
  }

  /** Each target is the first word of a 64-byte line, and that line is the offset's. */
  ghost predicate OnLines(targets: seq<nat>, offset: nat) {
    forall k :: 0 <= k < |targets| ==> targets[k] % 8 == 0 && targets[k] / 8 == 64 * k + offset
  }

  /** So different offsets put the same place in a round on different lines. */
  lemma OffsetsDiffer(targets: seq<nat>, offset: nat, targets': seq<nat>, offset': nat, k: nat)
    requires OnLines(targets, offset) && OnLines(targets', offset') && k < |targets| && k < |targets'|
    ensures offset != offset' ==> targets[k] / 8 != targets'[k] / 8
  {
  }

  // ----- How many pairs a round can have -----

  ghost function Processors(pairs: seq<Pair>): set<nat> {
    if pairs == [] then {}
    else Processors(pairs[..|pairs| - 1]) + {pairs[|pairs| - 1].0, pairs[|pairs| - 1].1}
  }

  /** The processors 0, ..., n - 1. */
  ghost function Below(n: nat): (all: set<nat>)
    ensures |all| == n && forall i: nat :: i in all <==> i < n
  {
    if n == 0 then {} else Below(n - 1) + {n - 1}
  }

  lemma {:induction false} ProcessorOf(pairs: seq<Pair>, x: nat)
    ensures x in Processors(pairs) <==> exists k :: 0 <= k < |pairs| && (pairs[k].0 == x || pairs[k].1 == x)
  {
    if pairs != [] {
      var front, last := pairs[..|pairs| - 1], pairs[|pairs| - 1];
      ProcessorOf(front, x);
      if k :| 0 <= k < |front| && (front[k].0 == x || front[k].1 == x) {
        assert pairs[k] == front[k];
      }
      if k :| 0 <= k < |pairs| && (pairs[k].0 == x || pairs[k].1 == x) {
        assert k < |front| ==> front[k] == pairs[k];
      }
      if last.0 == x || last.1 == x {
        assert pairs[|pairs| - 1] == last;
      }
    }
  }

  ghost predicate AllProper(n: nat, pairs: seq<Pair>) {
    forall k :: 0 <= k < |pairs| ==> Proper(n, pairs[k])
  }

  /** Processor-disjoint pairs use two processors each. */
  lemma {:induction false} ProcessorsCounted(n: nat, pairs: seq<Pair>)
    requires AllProper(n, pairs) && Disjoint(pairs)
    ensures Processors(pairs) <= Below(n) && |Processors(pairs)| == 2 * |pairs|
  {
    if pairs != [] {
      var front, last := pairs[..|pairs| - 1], pairs[|pairs| - 1];
      ProcessorsCounted(n, front);
      ProcessorOf(front, last.0);
      ProcessorOf(front, last.1);
      assert forall k :: 0 <= k < |front| ==> !Shares(pairs[k], last);
      assert last.0 !in Processors(front) && last.1 !in Processors(front) && last.0 != last.1;
    }
  }

  lemma {:induction false} SubsetSize(a: set<nat>, b: set<nat>)
    requires a <= b
    ensures |a| <= |b|
  {
    if x :| x in a {
      SubsetSize(a - {x}, b - {x});
    }
  }

  lemma AtMostHalf(n: nat, pairs: seq<Pair>)
    requires AllProper(n, pairs) && Disjoint(pairs)
    ensures |pairs| <= n / 2
  {
    ProcessorsCounted(n, pairs);
    SubsetSize(Processors(pairs), Below(n));
  }

  /** A maximal matching of all processors leaves at most one of them out. */
  lemma AtLeastHalf(n: nat, pairs: seq<Pair>)
    requires AllProper(n, pairs) && Disjoint(pairs)
    requires forall p: Pair :: Proper(n, p) ==> Blocked(pairs, p)
    ensures |pairs| >= n / 2
  {
    ProcessorsCounted(n, pairs);
    var idle := Below(n) - Processors(pairs);
    assert |idle| == n - 2 * |pairs| by { assert Below(n) == idle + Processors(pairs); }
    if |idle| >= 2 {
      var x :| x in idle;
      assert |idle - {x}| >= 1;
      var y :| y in idle - {x};
      IdlePair(n, pairs, x, y);
    }
  }

  lemma IdlePair(n: nat, pairs: seq<Pair>, x: nat, y: nat)
    requires x < n && y < n && x != y && x !in Processors(pairs) && y !in Processors(pairs)
    ensures Proper(n, (x, y)) && !Blocked(pairs, (x, y))
  {
    ProcessorOf(pairs, x);
    ProcessorOf(pairs, y);
  }

  function Min(x: nat, y: nat): nat { if x < y then x else y }

  // ----- The rounds of one offset -----

  /** What RunOffset delivers. */
  ghost predicate OffsetTested(n: nat, limit: nat, offset: nat, rounds: seq<seq<Pair>>, targets: seq<seq<nat>>) {
    && (limit > 0 ==> AllPairsOnce(n, Flatten(rounds)))
    && (limit == 0 ==> rounds == [])
    && (forall r :: 0 <= r < |rounds| ==> GoodRound(rounds, r, n, limit))
    && |targets| == |rounds|
    && (forall r :: 0 <= r < |rounds| ==> Targeted(rounds[r], targets[r], offset))
  }

  lemma {:induction false} InFlatten(rounds: seq<seq<Pair>>, r: nat, k: nat)
    requires r < |rounds| && k < |rounds[r]|
    ensures rounds[r][k] in Flatten(rounds)
  {
    if r < |rounds| - 1 {
      InFlatten(rounds[..|rounds| - 1], r, k);
    }
  }

  lemma RoundIsProper(n: nat, limit: nat, offset: nat, rounds: seq<seq<Pair>>, targets: seq<seq<nat>>, r: nat)
    requires OffsetTested(n, limit, offset, rounds, targets) && r < |rounds|
    ensures AllProper(n, rounds[r])
  {
    forall k | 0 <= k < |rounds[r]|
      ensures Proper(n, rounds[r][k])
    {
      InFlatten(rounds, r, k);
    }
  }

  /** No round has more pairs than there are pages, nor than half the processors. */
  lemma RoundSize(n: nat, limit: nat, offset: nat, rounds: seq<seq<Pair>>, targets: seq<seq<nat>>, r: nat)
    requires OffsetTested(n, limit, offset, rounds, targets) && r < |rounds|
    ensures 1 <= |rounds[r]| <= Min(limit, n / 2)
  {
    RoundIsProper(n, limit, offset, rounds, targets, r);
    assert GoodRound(rounds, r, n, limit);
    AtMostHalf(n, rounds[r]);
  }

  /** The first round, in which everything is untested, is as large as a round can be. */
  lemma FirstRoundSize(n: nat, limit: nat, offset: nat, rounds: seq<seq<Pair>>, targets: seq<seq<nat>>)
    requires OffsetTested(n, limit, offset, rounds, targets) && n >= 2 && limit > 0
    ensures |rounds| > 0 && |rounds[0]| == Min(limit, n / 2)
  {
    assert Proper(n, (0, 1));
    assert (0, 1) in Flatten(rounds);
    RoundIsProper(n, limit, offset, rounds, targets, 0);
    RoundSize(n, limit, offset, rounds, targets, 0);
    assert GoodRound(rounds, 0, n, limit) && rounds[..0] == [];
    if |rounds[0]| < limit {
      forall p: Pair | Proper(n, p)
        ensures Blocked(rounds[0], p)
      {
        assert Reached(rounds[0], limit, p);
        ClaimedIsBlocked(rounds[0], p);
      }
      AtLeastHalf(n, rounds[0]);
    }
  }

  // ----- All offsets -----

  /** All targets of one offset are inside the block. */
  ghost predicate InBlock(limit: nat, targets: seq<seq<nat>>) {
    forall r, k :: 0 <= r < |targets| && 0 <= k < |targets[r]| ==> targets[r][k] < BlockWords(limit)
  }

  /** How many offsets the block has room for. */
  function RoomFor(n: nat, limit: nat): nat { 64 * (limit - Min(limit, n / 2) + 1) }

  lemma SlotInBlock(limit: nat, k: nat, offset: nat)
    requires k < limit
    ensures Target(k, offset) < BlockWords(limit) <==> offset < 64 * (limit - k)
  {
  }

  /** One offset: its targets are inside the block if and only if it is below the room that the largest
      round leaves. */
  lemma OffsetInBlock(n: nat, limit: nat, offset: nat, rounds: seq<seq<Pair>>, targets: seq<seq<nat>>)
    requires OffsetTested(n, limit, offset, rounds, targets)
    ensures InBlock(limit, targets) <==> n < 2 || limit == 0 || offset < RoomFor(n, limit)
  {
    var most := Min(limit, n / 2);
    forall r, k | 0 <= r < |targets| && 0 <= k < |targets[r]|
      ensures most > 0 && k < limit
      ensures offset < RoomFor(n, limit) ==> targets[r][k] < BlockWords(limit)
    {
      RoundSize(n, limit, offset, rounds, targets, r);
      assert Targeted(rounds[r], targets[r], offset);
      SlotInBlock(limit, k, offset);
    }
    if n >= 2 && limit > 0 {
      FirstRoundSize(n, limit, offset, rounds, targets);
      assert Targeted(rounds[0], targets[0], offset);
      SlotInBlock(limit, most - 1, offset);
      assert targets[0][most - 1] == Target(most - 1, offset);
    }
  }

  /** The loop over the offsets: every one is tested completely, and all targets of all rounds are inside the
      allocated block if and only if there are no more offsets than it has room for. Up to 64 always fit. */
  method RunOffsets(n: nat, limit: nat, offsets: nat, results: nat -> nat -> real)
    returns (rounds: seq<seq<seq<Pair>>>, targets: seq<seq<seq<nat>>>, latencies: seq<seq<real>>)
    ensures |rounds| == |targets| == |latencies| == offsets
    ensures forall o :: 0 <= o < offsets ==> OffsetTested(n, limit, o, rounds[o], targets[o])
    ensures limit > 0 ==>
      forall o :: 0 <= o < offsets ==> ResultsFilled(latencies[o], n, Flatten(rounds[o]), results(o))
    ensures (forall o :: 0 <= o < offsets ==> InBlock(limit, targets[o])) <==>
      n < 2 || limit == 0 || offsets <= RoomFor(n, limit)
    ensures forall o, r :: 0 <= o < offsets && 0 <= r < |targets[o]| ==> OnLines(targets[o][r], o)
    ensures offsets <= 64 ==> forall o :: 0 <= o < offsets ==> InBlock(limit, targets[o])
  {
    rounds, targets, latencies := [], [], [];
    for offset := 0 to offsets
      invariant |rounds| == |targets| == |latencies| == offset
      invariant forall o :: 0 <= o < offset ==> OffsetTested(n, limit, o, rounds[o], targets[o])
      invariant limit > 0 ==>
        forall o :: 0 <= o < offset ==> ResultsFilled(latencies[o], n, Flatten(rounds[o]), results(o))
    {
      var rs, ts, ls, failed := RunOffset(n, limit, offset, results(offset));
      rounds, targets, latencies := rounds + [rs], targets + [ts], latencies + [ls];
    }
    AllInBlock(n, limit, offsets, rounds, targets);
    forall o, r | 0 <= o < offsets && 0 <= r < |targets[o]|
      ensures OnLines(targets[o][r], o)
    {
      assert OffsetTested(n, limit, o, rounds[o], targets[o]);
      TargetsAreOnLines(rounds[o][r], targets[o][r], o);
    }
  }

  lemma AllInBlock(n: nat, limit: nat, offsets: nat, rounds: seq<seq<seq<Pair>>>, targets: seq<seq<seq<nat>>>)
    requires |rounds| == |targets| == offsets
    requires forall o :: 0 <= o < offsets ==> OffsetTested(n, limit, o, rounds[o], targets[o])
    ensures (forall o :: 0 <= o < offsets ==> InBlock(limit, targets[o])) <==>
      n < 2 || limit == 0 || offsets <= RoomFor(n, limit)
  {
    forall o | 0 <= o < offsets
      ensures InBlock(limit, targets[o]) <==> n < 2 || limit == 0 || o < RoomFor(n, limit)
    {
      OffsetInBlock(n, limit, o, rounds[o], targets[o]);
    }
    if n >= 2 && limit > 0 && offsets > RoomFor(n, limit) {
      assert !InBlock(limit, targets[offsets - 1]);
    }
  }
}
