/** Which cycles the shuffle can produce. Sattolo's algorithm produces every cycle; this shuffle draws
    from a range that is one smaller, and misses exactly those in which some position leads back to the
    one before it. */
module ReachableCycles {
  import opened Common
  import opened Cycles
  import opened Shuffle

  /** Some stream of draws makes the shuffle produce the table. */
  ghost predicate Produced(p: seq<nat>) {
    exists stream: nat -> nat, calls: nat :: Shuffled(|p|, stream, calls) == p
  }

  /** k steps lead from x to y, and all indices in between are above i. */
  ghost predicate LeadsAbove(p: seq<nat>, x: nat, y: nat, i: nat, k: nat)
    requires Closed(p) && x < |p|
    decreases k
  {
    k > 0 && if k == 1 then p[x] == y else p[x] > i && LeadsAbove(p, p[x], y, i, k - 1)
  }

  ghost predicate ReachesAbove(p: seq<nat>, x: nat, y: nat, i: nat)
    requires Closed(p) && x < |p|
  {
    exists k: nat :: LeadsAbove(p, x, y, i, k)
  }

  /** From i the cycle comes to i - 1 before it comes to any other index below i. */
  ghost predicate FallsBack(p: seq<nat>, i: nat)
    requires Closed(p) && 0 < i < |p|
  {
    ReachesAbove(p, i, i - 1, i)
  }

  // ----- The shuffle, one position at a time -----

  /** Puts a new last index into the cycle of s, in front of j. */
  function Insert(s: seq<nat>, j: nat): (p: seq<nat>)
    ensures |p| == |s| + 1
  {
    seq(|s|, x requires 0 <= x < |s| => if s[x] == j then |s| else s[x]) + [j]
  }

  /** Takes the last index out of its cycle. */
  function Shortcut(p: seq<nat>): (s: seq<nat>)
    requires |p| > 0
    ensures |s| == |p| - 1
  {
    seq(|p| - 1, x requires 0 <= x < |p| - 1 => if p[x] == |p| - 1 then p[|p| - 1] else p[x])
  }

  lemma InsertSwapped(s: seq<nat>, j: nat, a: nat, b: nat)
    requires a < |s| && b < |s|
    ensures Swap(Insert(s, j), a, b) == Insert(Swap(s, a, b), j)
  {
  }

  lemma {:induction false} InsertFirst(s: seq<nat>, j: nat, iter: nat, stream: nat -> nat, calls: nat)
    requires iter <= |s|
    ensures ShuffleFrom(Insert(s, j), iter, stream, calls) == Insert(ShuffleFrom(s, iter, stream, calls), j)
    decreases iter
  {
    if iter > 1 {
      var k := Partner(iter - 1, stream, calls);
      InsertSwapped(s, j, iter - 1, k);
      InsertFirst(Swap(s, iter - 1, k), j, iter - 1, stream, calls + Cost(iter - 1));
    }
  }

  /** A shuffle of n positions is a shuffle of n - 1 with the last one inserted before its partner. */
  lemma ShuffledIsInsert(n: nat, stream: nat -> nat, calls: nat)
    requires n >= 2
    ensures var j := Partner(n - 1, stream, calls);
      Shuffled(n, stream, calls) == Insert(Shuffled(n - 1, stream, calls + Cost(n - 1)), j)
  {
    var j := Partner(n - 1, stream, calls);
    assert Swap(Identity(n), n - 1, j) == Insert(Identity(n - 1), j);
    InsertFirst(Identity(n - 1), j, n - 1, stream, calls + Cost(n - 1));
  }

  /** In terms of the numbers drawn: each is reduced to the positions below the one before it. Two positions
      swap without a draw, and one stays where it is. */
  lemma ShuffledFromDraws(n: nat, stream: nat -> nat, calls: nat)
    requires n > 0
    ensures n >= 3 ==>
      Shuffled(n, stream, calls) == Insert(Shuffled(n - 1, stream, calls + 1), stream(calls) % (n - 2))
    ensures n == 2 ==> Shuffled(n, stream, calls) == [1, 0]
    ensures n == 1 ==> Shuffled(n, stream, calls) == [0]
  {
    if n == 1 {
      assert Shuffled(1, stream, calls) == Identity(1);
    } else {
      ShuffledIsInsert(n, stream, calls);
      if n == 2 {
        assert Shuffled(1, stream, calls + 0) == Identity(1);
      }
    }
  }

  lemma ShortcutOfInsert(s: seq<nat>, j: nat)
    requires Closed(s) && j < |s|
    ensures Shortcut(Insert(s, j)) == s && Closed(Insert(s, j))
  {
  }

  // ----- Paths when the last index is taken out -----

  ghost predicate Shortens(p: seq<nat>) {
    |p| >= 2 && Closed(p) && p[|p| - 1] < |p| - 1
  }

  lemma {:induction false} PathWithout(p: seq<nat>, x: nat, y: nat, i: nat, k: nat) returns (k': nat)
    requires Shortens(p) && x < |p| - 1 && y < |p| - 1 && LeadsAbove(p, x, y, i, k)
    ensures Closed(Shortcut(p)) && LeadsAbove(Shortcut(p), x, y, i, k')
    decreases k
  {
    var last := |p| - 1;
    if p[x] != last {
      if k == 1 {
        k' := 1;
      } else {
        k' := PathWithout(p, p[x], y, i, k - 1);
        k' := k' + 1;
      }
    } else if k == 2 {
      k' := 1;
    } else {
      assert LeadsAbove(p, last, y, i, k - 1);
      k' := PathWithout(p, p[last], y, i, k - 2);
      k' := k' + 1;
    }
  }

  lemma {:induction false} PathWith(p: seq<nat>, x: nat, y: nat, i: nat, k': nat) returns (k: nat)
    requires Shortens(p) && x < |p| - 1 && i < |p| - 1
    requires Closed(Shortcut(p)) && LeadsAbove(Shortcut(p), x, y, i, k')
    ensures LeadsAbove(p, x, y, i, k)
    decreases k'
  {
    var last, s := |p| - 1, Shortcut(p);
    var rest := 1;
    if k' > 1 {
      rest := PathWith(p, s[x], y, i, k' - 1);
      rest := rest + 1;
    }
    if p[x] == last {
      assert LeadsAbove(p, last, y, i, rest);
      k := rest + 1;
    } else {
      k := rest;
    }
  }

  /** Taking the last index out leaves the other positions' falls as they were. */
  lemma FallsKept(p: seq<nat>, i: nat)
    requires Shortens(p) && 0 < i < |p| - 1
    ensures Closed(Shortcut(p)) && (FallsBack(p, i) <==> FallsBack(Shortcut(p), i))
  {
    assert Closed(Shortcut(p));
    if FallsBack(p, i) {
      var k: nat :| LeadsAbove(p, i, i - 1, i, k);
      var k' := PathWithout(p, i, i - 1, i, k);
    }
    if FallsBack(Shortcut(p), i) {
      var k': nat :| LeadsAbove(Shortcut(p), i, i - 1, i, k');
      var k := PathWith(p, i, i - 1, i, k');
    }
  }

  /** The last position falls back exactly if its entry is the position before it. */
  lemma LastFalls(p: seq<nat>)
    requires |p| >= 2 && Closed(p)
    ensures FallsBack(p, |p| - 1) <==> p[|p| - 1] == |p| - 2
  {
    if p[|p| - 1] == |p| - 2 {
      assert LeadsAbove(p, |p| - 1, |p| - 2, |p| - 1, 1);
    }
  }

  // ----- Every table produced is free of falls -----

  lemma {:induction false} ProducedNeverFallsBack(n: nat, stream: nat -> nat, calls: nat, i: nat)
    requires 2 <= i < n
    ensures SingleCycle(Shuffled(n, stream, calls)) && !FallsBack(Shuffled(n, stream, calls), i)
    decreases n
  {
    var p, j := Shuffled(n, stream, calls), Partner(n - 1, stream, calls);
    var s := Shuffled(n - 1, stream, calls + Cost(n - 1));
    ShuffledIsSingleCycle(n, stream, calls);
    ShuffledIsSingleCycle(n - 1, stream, calls + Cost(n - 1));
    ShuffledIsInsert(n, stream, calls);
    ShortcutOfInsert(s, j);
    if i == n - 1 {
      LastFalls(p);
    } else {
      FallsKept(p, i);
      ProducedNeverFallsBack(n - 1, stream, calls + Cost(n - 1), i);
    }
  }

  // ----- Every cycle free of falls is produced -----

  ghost predicate Injective(p: seq<nat>) {
    forall x, y :: 0 <= x < y < |p| ==> p[x] != p[y]
  }

  /** From every index the table leads to 0. */
  ghost predicate LeadsToZero(p: seq<nat>)
    requires Closed(p)
  {
    forall x :: 0 <= x < |p| ==> ReachesAbove(p, x, 0, 0)
  }

  lemma {:induction false} CycleFindsZero(p: seq<nat>, r: nat)
    requires SingleCycle(p) && r < |p|
    ensures LeadsAbove(p, Iter(p, r, 0), 0, 0, |p| - r)
    decreases |p| - r
  {
    var x := Iter(p, r, 0);
    assert Iter(p, r + 1, 0) == p[x];
    if r + 1 < |p| {
      assert Iter(p, 0, 0) != Iter(p, r + 1, 0);
      CycleFindsZero(p, r + 1);
    }
  }

  lemma CycleProperties(p: seq<nat>)
    requires SingleCycle(p)
    ensures Injective(p) && LeadsToZero(p)
  {
    forall x, y | 0 <= x < y < |p|
      ensures p[x] != p[y]
    {
      EntriesDiffer(p, x, y);
    }
    forall x | 0 <= x < |p|
      ensures ReachesAbove(p, x, 0, 0)
    {
      CycleFindsZero(p, Rank(p, x));
    }
  }

  lemma {:induction false} LoopNeverLeads(p: seq<nat>, x: nat, k: nat)
    requires Closed(p) && 0 < x < |p| && p[x] == x
    ensures !LeadsAbove(p, x, 0, 0, k)
    decreases k
  {
    if k > 1 {
      LoopNeverLeads(p, x, k - 1);
    }
  }

  lemma Shortenable(p: seq<nat>)
    requires |p| >= 2 && Closed(p) && LeadsToZero(p)
    ensures Shortens(p)
  {
    var last := |p| - 1;
    assert ReachesAbove(p, last, 0, 0);
    var k: nat :| LeadsAbove(p, last, 0, 0, k);
    if p[last] == last {
      LoopNeverLeads(p, last, k);
      assert false;
    }
  }

  lemma ShortcutKeeps(p: seq<nat>)
    requires Shortens(p) && Injective(p) && LeadsToZero(p)
    ensures Closed(Shortcut(p)) && Injective(Shortcut(p)) && LeadsToZero(Shortcut(p))
    ensures Insert(Shortcut(p), p[|p| - 1]) == p
  {
    var s, last := Shortcut(p), |p| - 1;
    assert Closed(s);
    forall x, y | 0 <= x < y < |s|
      ensures s[x] != s[y]
    {
      assert p[x] != p[y] && p[x] != p[last] && p[y] != p[last];
    }
    forall x | 0 <= x < |s|
      ensures ReachesAbove(s, x, 0, 0)
    {
      assert ReachesAbove(p, x, 0, 0);
      var k: nat :| LeadsAbove(p, x, 0, 0, k);
      var k' := PathWithout(p, x, 0, 0, k);
    }
    forall x | 0 <= x < last
      ensures Insert(s, p[last])[x] == p[x]
    {
      assert p[x] != p[last];
    }
  }

  /** The stream with j drawn in front of draw number `at`. */
  ghost function Prepend(at: nat, j: nat, stream: nat -> nat): nat -> nat {
    (k: nat) => if k == at then j else if k < at then stream(k) else stream(k - 1)
  }

  /** Equal draws give equal partners. */
  lemma SameDraw(i: nat, stream: nat -> nat, calls: nat, stream': nat -> nat, calls': nat)
    requires i >= 1 && stream(calls) == stream'(calls')
    ensures Partner(i, stream, calls) == Partner(i, stream', calls')
  {
  }

  lemma DrawBehind(at: nat, j: nat, stream: nat -> nat, calls: nat)
    requires at <= calls
    ensures Prepend(at, j, stream)(calls + 1) == stream(calls)
  {
    assert calls + 1 - 1 == calls;
  }

  lemma {:induction false} ShiftedDraws(p: seq<nat>, iter: nat, at: nat, j: nat, stream: nat -> nat, calls: nat)
    requires iter <= |p| && at <= calls
    ensures ShuffleFrom(p, iter, Prepend(at, j, stream), calls + 1) == ShuffleFrom(p, iter, stream, calls)
    decreases iter
  {
    if iter > 1 {
      var k := Partner(iter - 1, stream, calls);
      DrawBehind(at, j, stream, calls);
      SameDraw(iter - 1, Prepend(at, j, stream), calls + 1, stream, calls);
      ShiftedDraws(Swap(p, iter - 1, k), iter - 1, at, j, stream, calls + Cost(iter - 1));
      assert calls + 1 + Cost(iter - 1) == calls + Cost(iter - 1) + 1;
    }
  }

  /** The partners that the code can draw for the last of n positions. */
  function Choices(n: nat): nat
    requires n >= 2
  {
    if n == 2 then 1 else n - 2
  }

  /** Any of them can be put in front of the draws for the other positions. */
  lemma InsertIsProduced(n: nat, j: nat, stream: nat -> nat, calls: nat) returns (longer: nat -> nat)
    requires n >= 2 && j < Choices(n)
    ensures Shuffled(n, longer, calls) == Insert(Shuffled(n - 1, stream, calls), j)
  {
    longer := if n == 2 then stream else Prepend(calls, j, stream);
    FirstDraw(n, j, stream, calls, longer);
    ShuffledIsInsert(n, longer, calls);
  }

  lemma FirstDraw(n: nat, j: nat, stream: nat -> nat, calls: nat, longer: nat -> nat)
    requires n >= 2 && j < Choices(n)
    requires longer == if n == 2 then stream else Prepend(calls, j, stream)
    ensures Partner(n - 1, longer, calls) == j
    ensures Shuffled(n - 1, longer, calls + Cost(n - 1)) == Shuffled(n - 1, stream, calls)
  {
    if n > 2 {
      ShiftedDraws(Identity(n - 1), n - 1, calls, j, stream, calls);
      SmallRemainder(j, n - 2);
    }
  }

  lemma SmallRemainder(j: nat, d: nat)
    requires j < d
    ensures j % d == j
  {
  }

  /** Draws that produce a given table without falls. */
  lemma {:induction false} DrawsFor(p: seq<nat>) returns (stream: nat -> nat)
    requires |p| > 0 && Closed(p) && Injective(p) && LeadsToZero(p)
    requires forall i :: 2 <= i < |p| ==> !FallsBack(p, i)
    ensures Shuffled(|p|, stream, 0) == p
    decreases |p|
  {
    var n := |p|;
    if n == 1 {
      stream := (k: nat) => 0;
      assert p == [0];
    } else {
      var s, j := Shortcut(p), p[n - 1];
      Shortenable(p);
      ShortcutKeeps(p);
      forall i | 2 <= i < n - 1
        ensures !FallsBack(s, i)
      {
        FallsKept(p, i);
      }
      var rest := DrawsFor(s);
      LastFalls(p);
      stream := InsertIsProduced(n, j, rest, 0);
    }
  }

  /** A table is produced by some stream of draws if and only if it is one cycle in which no position from
      2 on falls back to the one before it. */
  lemma ProducedExactly(p: seq<nat>)
    requires |p| > 0
    ensures Produced(p) <==> SingleCycle(p) && forall i :: 2 <= i < |p| ==> !FallsBack(p, i)
  {
    if Produced(p) {
      var stream: nat -> nat, calls: nat :| Shuffled(|p|, stream, calls) == p;
      ShuffledIsSingleCycle(|p|, stream, calls);
      forall i | 2 <= i < |p|
        ensures !FallsBack(p, i)
      {
        ProducedNeverFallsBack(|p|, stream, calls, i);
      }
    }
    if SingleCycle(p) && forall i :: 2 <= i < |p| ==> !FallsBack(p, i) {
      CycleProperties(p);
      var stream := DrawsFor(p);
    }
  }

  // ----- Sizes for which every cycle is produced -----

  /** Every position leads to the one before it. */
  function Rotation(n: nat): (p: seq<nat>)
    requires n > 0
    ensures |p| == n && forall x :: 0 <= x < n ==> p[x] == if x == 0 then n - 1 else x - 1
  {
    seq(n, (x: nat) => if x == 0 then n - 1 else x - 1)
  }

  lemma {:induction false} RotationStep(n: nat, k: nat)
    requires 0 < k <= n
    ensures Iter(Rotation(n), k, 0) == n - k
  {
    var p := Rotation(n);
    if k == 1 {
      assert Iter(p, 0, 0) == 0;
    } else {
      RotationStep(n, k - 1);
    }
  }

  lemma RotationIsSingleCycle(n: nat)
    requires n > 0
    ensures SingleCycle(Rotation(n))
  {
    var p := Rotation(n);
    RotationStep(n, n);
    forall j, k | 0 <= j < k < n
      ensures Iter(p, j, 0) != Iter(p, k, 0)
    {
      RotationStep(n, k);
      if j > 0 { RotationStep(n, j); }
    }
    forall x | 0 <= x < n
      ensures Visits(p, x)
    {
      if x == 0 {
        assert Iter(p, 0, 0) == 0;
      } else {
        RotationStep(n, n - x);
      }
    }
  }

  /** From three positions on there are cycles that no stream of draws produces. */
  lemma UnreachableCycle(n: nat)
    requires n >= 3
    ensures SingleCycle(Rotation(n)) && !Produced(Rotation(n))
  {
    RotationIsSingleCycle(n);
    LastFalls(Rotation(n));
    ProducedExactly(Rotation(n));
  }

  /** Every cycle of a size can be produced, as Sattolo's algorithm promises, only for one or two positions. */
  lemma EveryCycleIsProduced(n: nat)
    requires n > 0
    ensures (forall p: seq<nat> :: |p| == n && SingleCycle(p) ==> Produced(p)) <==> n <= 2
  {
    if n <= 2 {
      forall p: seq<nat> | |p| == n && SingleCycle(p)
        ensures Produced(p)
      {
        ProducedExactly(p);
      }
    } else {
      UnreachableCycle(n);
    }
  }

  // ----- How many there are, and how each is drawn -----

  /** The partner of position i in a shuffle of n positions: each position above it has taken one draw. */
  function PartnerAt(n: nat, i: nat, stream: nat -> nat, calls: nat): nat
    requires 1 <= i < n
  {
    Partner(i, stream, calls + (n - 1 - i))
  }

  lemma InsertIsInjective(s: seq<nat>, j: nat, t: seq<nat>, k: nat)
    requires Closed(s) && Closed(t) && j < |s| == |t| && k < |t|
    ensures Insert(s, j) == Insert(t, k) <==> s == t && j == k
  {
    ShortcutOfInsert(s, j);
    ShortcutOfInsert(t, k);
    assert Insert(s, j)[|s|] == j && Insert(t, k)[|t|] == k;
  }

  /** The first positions, up to `upTo`, have the same partners in both shuffles of n positions. */
  ghost predicate SamePartners(n: nat, upTo: nat, stream: nat -> nat, calls: nat, stream': nat -> nat, calls': nat)
    requires upTo <= n
  {
    forall i :: 1 <= i < upTo ==> SameAt(n, i, stream, calls, stream', calls')
  }

  ghost predicate SameAt(n: nat, i: nat, stream: nat -> nat, calls: nat, stream': nat -> nat, calls': nat)
    requires 1 <= i < n
  {
    PartnerAt(n, i, stream, calls) == PartnerAt(n, i, stream', calls')
  }

  /** Two shuffles give the same table if and only if every position has the same partner in both. So every
      table that can result does so from exactly one sequence of partners. */
  lemma {:induction false} DrawsAreDetermined(n: nat, stream: nat -> nat, calls: nat, stream': nat -> nat, calls': nat)
    requires n > 0
    ensures Shuffled(n, stream, calls) == Shuffled(n, stream', calls') <==>
      SamePartners(n, n, stream, calls, stream', calls')
    decreases n
  {
    if n == 1 {
      assert Shuffled(1, stream, calls) == Identity(1) == Shuffled(1, stream', calls');
    } else {
      DrawsAreDetermined(n - 1, stream, calls + Cost(n - 1), stream', calls' + Cost(n - 1));
      LastPartnerApart(n, stream, calls, stream', calls');
      PartnersSplit(n, stream, calls, stream', calls');
    }
  }

  lemma LastPartnerApart(n: nat, stream: nat -> nat, calls: nat, stream': nat -> nat, calls': nat)
    requires n >= 2
    ensures Shuffled(n, stream, calls) == Shuffled(n, stream', calls') <==>
      && Shuffled(n - 1, stream, calls + Cost(n - 1)) == Shuffled(n - 1, stream', calls' + Cost(n - 1))
      && SameAt(n, n - 1, stream, calls, stream', calls')
  {
    var c, c' := calls + Cost(n - 1), calls' + Cost(n - 1);
    ShuffledIsSingleCycle(n - 1, stream, c);
    ShuffledIsSingleCycle(n - 1, stream', c');
    ShuffledIsInsert(n, stream, calls);
    ShuffledIsInsert(n, stream', calls');
    InsertIsInjective(Shuffled(n - 1, stream, c), Partner(n - 1, stream, calls),
      Shuffled(n - 1, stream', c'), Partner(n - 1, stream', calls'));
  }

  lemma PartnersSplit(n: nat, stream: nat -> nat, calls: nat, stream': nat -> nat, calls': nat)
    requires n >= 2
    ensures SamePartners(n, n, stream, calls, stream', calls') <==>
      && SamePartners(n - 1, n - 1, stream, calls + Cost(n - 1), stream', calls' + Cost(n - 1))
      && SameAt(n, n - 1, stream, calls, stream', calls')
  {
    var c, c' := calls + Cost(n - 1), calls' + Cost(n - 1);
    forall i | 1 <= i < n - 1
      ensures SameAt(n, i, stream, calls, stream', calls') <==> SameAt(n - 1, i, stream, c, stream', c')
    {
      ShorterPartner(n, i, stream, calls);
      ShorterPartner(n, i, stream', calls');
    }
    if SamePartners(n, n, stream, calls, stream', calls') {
      var m := n - 1;
      forall i | 1 <= i < m
        ensures SameAt(m, i, stream, c, stream', c')
      {
        assert SameAt(n, i, stream, calls, stream', calls');
      }
    }
  }

  lemma ShorterPartner(n: nat, i: nat, stream: nat -> nat, calls: nat)
    requires 1 <= i < n - 1
    ensures PartnerAt(n, i, stream, calls) == PartnerAt(n - 1, i, stream, calls + Cost(n - 1))
  {
    assert calls + (n - 1 - i) == calls + Cost(n - 1) + (n - 1 - 1 - i);
  }

  /** The tables of `all`, each with a new last index inserted before every j below `choices`. */
  ghost function Extended(all: set<seq<nat>>, choices: nat): set<seq<nat>> {
    if choices == 0 then {}
    else Extended(all, choices - 1) + set s | s in all :: Insert(s, choices - 1)
  }

  ghost predicate ClosedTables(all: set<seq<nat>>, n: nat) {
    forall s :: s in all ==> |s| == n && Closed(s)
  }

  lemma {:induction false} InExtended(all: set<seq<nat>>, choices: nat, p: seq<nat>)
    ensures p in Extended(all, choices) <==> exists s, j: nat :: s in all && j < choices && p == Insert(s, j)
  {
    if choices > 0 {
      InExtended(all, choices - 1, p);
    }
  }

  lemma {:induction false} LayerSize(all: set<seq<nat>>, n: nat, j: nat)
    requires ClosedTables(all, n) && j < n
    ensures |set s | s in all :: Insert(s, j)| == |all|
  {
    var layer := set s | s in all :: Insert(s, j);
    if all != {} {
      var t :| t in all;
      var rest := set s | s in all - {t} :: Insert(s, j);
      LayerSize(all - {t}, n, j);
      assert Insert(t, j) !in rest by {
        forall s | s in all - {t}
          ensures Insert(s, j) != Insert(t, j)
        {
          InsertIsInjective(s, j, t, j);
        }
      }
      assert layer == rest + {Insert(t, j)};
    }
  }

  lemma {:induction false} ExtendedSize(all: set<seq<nat>>, n: nat, choices: nat, size: nat)
    requires ClosedTables(all, n) && choices <= n && size == |all|
    ensures |Extended(all, choices)| == choices * size
  {
    if choices == 0 {
      assert Extended(all, 0) == {};
    } else {
      var k := choices - 1;
      ExtendedSize(all, n, k, size);
      LayerAdded(all, n, k);
      OneMore(|Extended(all, choices)|, |Extended(all, k)|, k, size);
    }
  }

  lemma OneMore(total: nat, before: nat, count: nat, size: nat)
    requires before == count * size && total == before + size
    ensures total == (count + 1) * size
  {
    NextMultiple(count, size);
  }

  lemma LayerAdded(all: set<seq<nat>>, n: nat, j: nat)
    requires ClosedTables(all, n) && j < n
    ensures |Extended(all, j + 1)| == |Extended(all, j)| + |all|
  {
    var layer := set s | s in all :: Insert(s, j);
    LayerSize(all, n, j);
    forall p | p in layer
      ensures p !in Extended(all, j)
    {
      NewLayer(all, n, j, p);
    }
    assert layer !! Extended(all, j);
    assert Extended(all, j + 1) == Extended(all, j) + layer;
  }

  lemma NewLayer(all: set<seq<nat>>, n: nat, j: nat, p: seq<nat>)
    requires ClosedTables(all, n) && j < n && exists s :: s in all && p == Insert(s, j)
    ensures p !in Extended(all, j)
  {
    var s :| s in all && p == Insert(s, j);
    InExtended(all, j, p);
    if p in Extended(all, j) {
      var t, k: nat :| t in all && k < j && p == Insert(t, k);
      InsertIsInjective(s, j, t, k);
    }
  }

  /** All tables of n positions that can result. */
  ghost function AllTables(n: nat): set<seq<nat>>
    requires n > 0
  {
    if n == 1 then {[0]} else Extended(AllTables(n - 1), Choices(n))
  }

  lemma {:induction false} AllTablesAreProduced(n: nat, p: seq<nat>)
    requires n > 0
    ensures p in AllTables(n) <==> |p| == n && Produced(p)
    decreases n
  {
    if n == 1 {
      OnePosition(p);
    } else {
      if p in AllTables(n) {
        InExtended(AllTables(n - 1), Choices(n), p);
        var s, j: nat :| s in AllTables(n - 1) && j < Choices(n) && p == Insert(s, j);
        AllTablesAreProduced(n - 1, s);
        ProducedInsert(n, s, j);
      }
      if |p| == n && Produced(p) {
        var s, j := WithoutLast(p);
        AllTablesAreProduced(n - 1, s);
        InExtended(AllTables(n - 1), Choices(n), p);
      }
    }
  }

  lemma ProducedInsert(n: nat, s: seq<nat>, j: nat)
    requires n >= 2 && |s| == n - 1 && Produced(s) && j < Choices(n)
    ensures Produced(Insert(s, j))
  {
    var stream: nat -> nat, calls: nat :| Shuffled(|s|, stream, calls) == s;
    var longer := InsertIsProduced(n, j, stream, calls);
    assert Shuffled(|Insert(s, j)|, longer, calls) == Insert(s, j);
  }

  lemma WithoutLast(p: seq<nat>) returns (s: seq<nat>, j: nat)
    requires |p| >= 2 && Produced(p)
    ensures |s| == |p| - 1 && Produced(s) && j < Choices(|p|) && p == Insert(s, j)
  {
    var n := |p|;
    var stream: nat -> nat, calls: nat :| Shuffled(|p|, stream, calls) == p;
    s, j := Shuffled(n - 1, stream, calls + Cost(n - 1)), Partner(n - 1, stream, calls);
    ShuffledIsInsert(n, stream, calls);
    assert Shuffled(|s|, stream, calls + Cost(n - 1)) == s;
    PartnerBelow(n, stream, calls);
  }

  lemma PartnerBelow(n: nat, stream: nat -> nat, calls: nat)
    requires n >= 2
    ensures Partner(n - 1, stream, calls) < Choices(n)
  {
  }

  lemma OnePosition(p: seq<nat>)
    ensures p == [0] <==> |p| == 1 && Produced(p)
  {
    var zero: nat -> nat := (k: nat) => 0;
    assert Shuffled(1, zero, 0) == Identity(1) == [0];
  }

  lemma AllTablesAreClosed(n: nat)
    requires n > 0
    ensures ClosedTables(AllTables(n), n)
  {
    forall s | s in AllTables(n)
      ensures |s| == n && Closed(s)
    {
      AllTablesAreProduced(n, s);
      var stream: nat -> nat, calls: nat :| Shuffled(|s|, stream, calls) == s;
      ShuffledIsSingleCycle(n, stream, calls);
    }
  }

  function Factorial(n: nat): nat { if n == 0 then 1 else n * Factorial(n - 1) }

  /** From two positions on, exactly (n - 2)! tables can result. */
  lemma {:induction false} TablesCounted(n: nat)
    requires n >= 2
    ensures |AllTables(n)| == Factorial(n - 2)
    decreases n
  {
    NextCount(n);
    if n > 2 {
      TablesCounted(n - 1);
      assert Factorial(n - 2) == (n - 2) * Factorial(n - 3);
    }
  }

  lemma NextCount(n: nat)
    requires n >= 2
    ensures |AllTables(n)| == if n == 2 then 1 else (n - 2) * |AllTables(n - 1)|
  {
    AllTablesAreClosed(n - 1);
    ExtendedSize(AllTables(n - 1), n - 1, Choices(n), |AllTables(n - 1)|);
    if n == 2 {
      assert AllTables(1) == {[0]};
    }
  }
}
