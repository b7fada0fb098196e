/** Pointer chases: repeated application of a table to an index, and what it means for
    the table to be one single cycle. */
module Cycles {
  import opened Common

  /** Every entry of the table is an index into the table. */
  ghost predicate Closed(p: seq<nat>) {
    forall i :: 0 <= i < |p| ==> p[i] < |p|
  }

  /** The index reached from x after k steps through a closed table. */
  ghost function Iter(p: seq<nat>, k: nat, x: nat): (r: nat)
    requires Closed(p) && x < |p|
    ensures r < |p|
  {
    if k == 0 then x else p[Iter(p, k - 1, x)]
  }

  /** One cycle through every index: |p| steps from 0 visit every index, none of them
      twice, and come back to 0. */
  ghost predicate SingleCycle(p: seq<nat>) {
    && |p| > 0
    && Closed(p)
    && Iter(p, |p|, 0) == 0
    && (forall j, k :: 0 <= j < k < |p| ==> Iter(p, j, 0) != Iter(p, k, 0))
    && (forall x :: 0 <= x < |p| ==> Visits(p, x))
  }

  ghost predicate Visits(p: seq<nat>, x: nat)
    requires Closed(p) && |p| > 0
  {
    exists k :: 0 <= k < |p| && Iter(p, k, 0) == x
  }

  /** The step at which the cycle from 0 visits x. */
  ghost function Rank(p: seq<nat>, x: nat): (k: nat)
    requires SingleCycle(p) && x < |p|
    ensures k < |p| && Iter(p, k, 0) == x
  {
    assert Visits(p, x);
    var k: nat :| k < |p| && Iter(p, k, 0) == x;
    k
  }

  lemma {:induction false} IterAdd(p: seq<nat>, j: nat, k: nat, x: nat)
    requires Closed(p) && x < |p|
    ensures Iter(p, j + k, x) == Iter(p, j, Iter(p, k, x))
  {
    if j > 0 {
      IterAdd(p, j - 1, k, x);
    }
  }

  /** A lap of a single cycle ends where it began, whatever the start. */
  lemma LapFromAnywhere(p: seq<nat>, x: nat)
    requires SingleCycle(p) && x < |p|
    ensures Iter(p, |p|, x) == x
  {
    var k := Rank(p, x);
    IterAdd(p, |p|, k, 0);
    IterAdd(p, k, |p|, 0);
  }

  /** Any number of whole laps changes nothing. */
  lemma {:induction false} WholeLaps(p: seq<nat>, q: nat, r: nat, x: nat)
    requires SingleCycle(p) && x < |p|
    ensures Iter(p, q * |p| + r, x) == Iter(p, r, x)
  {
    if q == 0 {
    } else {
      WholeLaps(p, q - 1, r, x);
      IterAdd(p, r + (q - 1) * |p|, |p|, x);
      LapFromAnywhere(p, x);
      assert q * |p| + r == r + (q - 1) * |p| + |p|;
    }
  }

  /** Chases started at different indices are never at the same index after the same
      number of steps. */
  lemma {:induction false} IterInjective(p: seq<nat>, k: nat, x: nat, y: nat)
    requires SingleCycle(p) && x < |p| && y < |p| && x != y
    ensures Iter(p, k, x) != Iter(p, k, y)
  {
    // |p| * k steps in all are whole laps, so k steps cannot have merged x and y
    LapsFrom(p, k, x);
    LapsFrom(p, k, y);
  }

  /** From where k steps lead, some number of steps that depends on k only completes whole laps. */
  lemma LapsFrom(p: seq<nat>, k: nat, x: nat)
    requires SingleCycle(p) && x < |p|
    ensures Iter(p, StepsLeft(k, |p|), Iter(p, k, x)) == x
  {
    IterAdd(p, StepsLeft(k, |p|), k, x);
    WholeLaps(p, k, 0, x);
  }

  function StepsLeft(k: nat, n: nat): (rest: nat)
    requires n > 0
    ensures rest + k == k * n
  {
    MulMono(1, n, k);
    k * n - k
  }

  /** No index has two predecessors. */
  lemma EntriesDiffer(p: seq<nat>, i: nat, j: nat)
    requires SingleCycle(p) && i < |p| && j < |p| && i != j
    ensures p[i] != p[j]
  {
    IterInjective(p, 1, i, j);
    assert Iter(p, 0, i) == i && Iter(p, 0, j) == j;
  }

  // ----- Chases through real memory, where most cells are not part of the pattern -----

  /** The cell reached from x after k loads, or None if a load was outside the array. */
  ghost function Chase(a: seq<nat>, k: nat, x: nat): Option<nat> {
    if k == 0 then Some(x)
    else
      match Chase(a, k - 1, x)
      case None => None
      case Some(c) => if c < |a| then Some(a[c]) else None
  }

  /** The array holds the table p with index i kept in cell addr(i). */
  ghost predicate Holds(a: seq<nat>, p: seq<nat>, addr: nat -> nat) {
    forall i :: 0 <= i < |p| ==> EntryHeld(a, p, addr, i)
  }

  ghost predicate EntryHeld(a: seq<nat>, p: seq<nat>, addr: nat -> nat, i: nat)
    requires i < |p|
  {
    addr(i) < |a| && a[addr(i)] == addr(p[i])
  }

  /** n loads from `start` visit each of the cells addr(0), ..., addr(n-1) exactly once,
      visit no other cell, and come back to `start`. */
  ghost predicate OneLap(a: seq<nat>, start: nat, n: nat, addr: nat -> nat) {
    && Chase(a, n, start) == Some(start)
    && (forall i {:trigger ChaseVisits(a, start, n, addr(i))} :: 0 <= i < n ==> ChaseVisits(a, start, n, addr(i)))
    && (forall k {:trigger OnPattern(Chase(a, k, start), n, addr)} :: 0 <= k < n ==>
      OnPattern(Chase(a, k, start), n, addr))
    && (forall j, k :: 0 <= j < k < n ==> Chase(a, j, start) != Chase(a, k, start))
  }

  ghost predicate ChaseVisits(a: seq<nat>, start: nat, n: nat, c: nat) {
    exists k :: 0 <= k < n && Chase(a, k, start) == Some(c)
  }

  ghost predicate OnPattern(c: Option<nat>, n: nat, addr: nat -> nat) {
    exists i :: 0 <= i < n && c == Some(addr(i))
  }

  /** A chase through memory is the chase through the table, seen through addr. */
  lemma {:induction false} ChaseIsConjugate(a: seq<nat>, p: seq<nat>, addr: nat -> nat, k: nat, x: nat)
    requires Closed(p) && Holds(a, p, addr) && x < |p|
    ensures Chase(a, k, addr(x)) == Some(addr(Iter(p, k, x)))
  {
    if k > 0 {
      ChaseIsConjugate(a, p, addr, k - 1, x);
      assert EntryHeld(a, p, addr, Iter(p, k - 1, x));
    }
  }

  /** A table that is one cycle makes the memory that holds it one cycle. */
  lemma CycleInMemory(a: seq<nat>, p: seq<nat>, addr: nat -> nat)
    requires SingleCycle(p) && Holds(a, p, addr)
    requires forall i, j :: 0 <= i < j < |p| ==> addr(i) != addr(j)
    ensures OneLap(a, addr(0), |p|, addr)
  {
    ChaseIsConjugate(a, p, addr, |p|, 0);
    forall i | 0 <= i < |p|
      ensures ChaseVisits(a, addr(0), |p|, addr(i))
    {
      ChaseIsConjugate(a, p, addr, Rank(p, i), 0);
    }
    forall k | 0 <= k < |p|
      ensures OnPattern(Chase(a, k, addr(0)), |p|, addr)
    {
      ChaseIsConjugate(a, p, addr, k, 0);
      var i := Iter(p, k, 0);
      assert Chase(a, k, addr(0)) == Some(addr(i));
    }
    forall j, k | 0 <= j < k < |p|
      ensures Chase(a, j, addr(0)) != Chase(a, k, addr(0))
    {
      ChaseIsConjugate(a, p, addr, j, 0);
      ChaseIsConjugate(a, p, addr, k, 0);
      assert Iter(p, j, 0) != Iter(p, k, 0);
    }
  }

  /** Within a lap, loads of one cell are one load. */
  lemma SameLoad(a: seq<nat>, start: nat, n: nat, addr: nat -> nat, j: nat, k: nat)
    requires OneLap(a, start, n, addr) && j < n && k < n && Chase(a, j, start) == Chase(a, k, start)
    ensures j == k
  {
  }

  // ----- How often a run loads each cell -----

  lemma {:induction false} ChaseAdd(a: seq<nat>, j: nat, k: nat, x: nat, y: nat)
    requires Chase(a, k, x) == Some(y)
    ensures Chase(a, k + j, x) == Chase(a, j, y)
  {
    if j > 0 {
      ChaseAdd(a, j - 1, k, x, y);
      assert k + j - 1 == k + (j - 1);
    }
  }

  /** A lap repeats itself: no load ever leaves the pattern. */
  lemma {:induction false} LapRepeats(a: seq<nat>, start: nat, n: nat, addr: nat -> nat, k: nat)
    requires OneLap(a, start, n, addr) && n > 0
    ensures OnPattern(Chase(a, k, start), n, addr)
    ensures Chase(a, n + k, start) == Chase(a, k, start)
  {
    ChaseAdd(a, k, n, start, start);
    if k >= n {
      LapRepeats(a, start, n, addr, k - n);
    }
  }

  /** How many of the loads lo, lo + 1, ..., lo + len - 1 of a chase are of cell c. */
  ghost function CountLoads(a: seq<nat>, start: nat, lo: nat, len: nat, c: nat): nat {
    if len == 0 then 0
    else CountLoads(a, start, lo, len - 1, c) + (if Chase(a, lo + len - 1, start) == Some(c) then 1 else 0)
  }

  lemma {:induction false} CountSplit(a: seq<nat>, start: nat, lo: nat, m: nat, len: nat, c: nat)
    ensures CountLoads(a, start, lo, m + len, c) ==
      CountLoads(a, start, lo, m, c) + CountLoads(a, start, lo + m, len, c)
  {
    if len > 0 {
      CountSplit(a, start, lo, m, len - 1, c);
      assert m + len - 1 == m + (len - 1);
      assert lo + (m + len) - 1 == lo + m + len - 1;
    }
  }

  /** Within the first lap, c is loaded at one step k and at no other. */
  lemma {:induction false} CountPrefix(a: seq<nat>, start: nat, n: nat, addr: nat -> nat, k: nat, len: nat, c: nat)
    requires OneLap(a, start, n, addr) && k < n && Chase(a, k, start) == Some(c) && len <= n
    ensures CountLoads(a, start, 0, len, c) == if k < len then 1 else 0
  {
    if len > 0 {
      CountPrefix(a, start, n, addr, k, len - 1, c);
      if k < len - 1 {
        assert Chase(a, k, start) != Chase(a, len - 1, start);
      } else if len - 1 < k {
        assert Chase(a, len - 1, start) != Chase(a, k, start);
      }
    }
  }

  /** Any n consecutive loads, wherever they begin, load each pattern cell exactly once. */
  lemma {:induction false} AnyWindowLoadsOnce(a: seq<nat>, start: nat, n: nat, addr: nat -> nat, lo: nat, i: nat)
    requires OneLap(a, start, n, addr) && i < n
    ensures CountLoads(a, start, lo, n, addr(i)) == 1
  {
    var c := addr(i);
    if lo == 0 {
      assert ChaseVisits(a, start, n, c);
      var k: nat :| k < n && Chase(a, k, start) == Some(c);
      CountPrefix(a, start, n, addr, k, n, c);
    } else {
      AnyWindowLoadsOnce(a, start, n, addr, lo - 1, i);
      CountSplit(a, start, lo - 1, 1, n, c);
      CountSplit(a, start, lo - 1, n, 1, c);
      LapRepeats(a, start, n, addr, lo - 1);
      assert CountLoads(a, start, lo - 1, 0, c) == CountLoads(a, start, lo - 1 + n, 0, c) == 0;
      assert lo - 1 + 1 == lo && 1 + n == n + 1 && n + (lo - 1) == lo - 1 + n + 1 - 1;
    }
  }

  /** q whole laps load each pattern cell exactly q times. */
  lemma {:induction false} LapsLoadEvenly(a: seq<nat>, start: nat, n: nat, addr: nat -> nat, lo: nat, q: nat, len: nat,
        i: nat)
    requires OneLap(a, start, n, addr) && i < n && len == q * n
    ensures CountLoads(a, start, lo, len, addr(i)) == q
    decreases q
  {
    if q > 0 {
      var rest := len - n;
      assert rest == (q - 1) * n;
      LapsLoadEvenly(a, start, n, addr, lo + n, q - 1, rest, i);
      AnyWindowLoadsOnce(a, start, n, addr, lo, i);
      CountSplit(a, start, lo, n, rest, addr(i));
    }
  }

  lemma PartLapLoadsAtMostOnce(a: seq<nat>, start: nat, n: nat, addr: nat -> nat, lo: nat, r: nat, i: nat)
    requires OneLap(a, start, n, addr) && i < n && r < n
    ensures CountLoads(a, start, lo, r, addr(i)) <= 1
  {
    AnyWindowLoadsOnce(a, start, n, addr, lo, i);
    CountSplit(a, start, lo, r, n - r, addr(i));
    assert r + (n - r) == n;
  }

  /** A run of q whole laps and r further loads loads each pattern cell q or q + 1 times, and
      exactly q times if r is 0. */
  lemma EvenCoverage(a: seq<nat>, start: nat, n: nat, addr: nat -> nat, lo: nat, q: nat, laps: nat, r: nat, i: nat)
    requires OneLap(a, start, n, addr) && i < n && r < n && laps == q * n
    ensures q <= CountLoads(a, start, lo, laps + r, addr(i)) <= q + 1
    ensures r == 0 ==> CountLoads(a, start, lo, laps + r, addr(i)) == q
  {
    LapsLoadEvenly(a, start, n, addr, lo, q, laps, i);
    CountSplit(a, start, lo, laps, r, addr(i));
    PartLapLoadsAtMostOnce(a, start, n, addr, lo + laps, r, i);
  }
}
