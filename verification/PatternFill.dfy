/** The builders that write a pointer chase into an array, in place: FillPatternArr and
    FillPatternArr64. Values stay below 2^32, so cells are modelled as naturals. */
module PatternFill {
  import opened Common
  import opened Cycles
  import opened Shuffle

  /** The C library's rand(): a stream of arbitrary non-negative numbers. */
  class Rand {
    const stream: nat -> nat
    var calls: nat

    constructor (stream: nat -> nat)
      ensures this.stream == stream && calls == 0
    {
      this.stream := stream;
      calls := 0;
    }

    method Next() returns (r: nat)
      modifies this
      ensures r == stream(old(calls)) && calls == old(calls) + 1
    {
      r := stream(calls);
      calls := calls + 1;
    }
  }

  /** Cell number i of a pattern that starts at `base` with `inc` cells from one to the next. */
  function Cell(base: nat, inc: nat, i: nat): nat {
    base + i * inc
  }

  /** c is one of the n pattern cells. */
  ghost predicate OnStride(c: nat, base: nat, inc: nat, n: nat) {
    exists i :: 0 <= i < n && c == Cell(base, inc, i)
  }

  lemma FactorBelow(i: nat, n: nat, inc: nat)
    requires i * inc < n * inc
    ensures i < n
  {
    if n <= i { MulMono(n, i, inc); }
  }

  lemma CellInjective(base: nat, inc: nat, i: nat, j: nat)
    requires inc > 0 && i != j
    ensures Cell(base, inc, i) != Cell(base, inc, j)
  {
    if i < j { MulStep(i, j, inc); } else { MulStep(j, i, inc); }
  }

  lemma CellBelow(base: nat, inc: nat, n: nat, size: nat, i: nat)
    requires inc > 0 && i < n && n <= size / inc
    ensures base <= Cell(base, inc, i) < base + size
    ensures Cell(base, inc, i) + inc <= base + size
  {
    assert (i + 1) * inc <= n * inc <= (size / inc) * inc <= size;
  }

  /** a holds the table p, entry i in the pattern cell i, written as the cell number counted
      from valueBase rather than base. */
  ghost predicate HoldsAt(a: seq<nat>, p: seq<nat>, base: nat, valueBase: nat, inc: nat) {
    forall i :: 0 <= i < |p| ==> EntryAt(a, p, base, valueBase, inc, i)
  }

  ghost predicate EntryAt(a: seq<nat>, p: seq<nat>, base: nat, valueBase: nat, inc: nat, i: nat)
    requires i < |p|
  {
    Cell(base, inc, i) < |a| && a[Cell(base, inc, i)] == Cell(valueBase, inc, p[i])
  }

  /** `iter - 1 == 0 ? 0 : rand() % (iter - 1)`. */
  method DrawPartner(iter: nat, rng: Rand) returns (j: nat)
    requires iter >= 1
    modifies rng
    ensures j == Partner(iter, rng.stream, old(rng.calls))
    ensures iter > 1 ==> j == rng.stream(old(rng.calls)) % (iter - 1)
    ensures iter == 1 ==> j == 0 && rng.calls == old(rng.calls)
    ensures rng.calls == old(rng.calls) + Cost(iter)
  {
    j := 0;
    if iter - 1 != 0 {
      j := rng.Next();
      j := j % (iter - 1);
    }
  }

  /** The three assignments that exchange two pattern cells. */
  method SwapCells(a: array<nat>, ghost p: seq<nat>, base: nat, valueBase: nat, inc: nat, i: nat, j: nat)
    requires inc > 0 && j < i < |p| && HoldsAt(a[..], p, base, valueBase, inc)
    modifies a
    ensures HoldsAt(a[..], Swap(p, i, j), base, valueBase, inc)
    ensures forall c :: 0 <= c < a.Length && !OnStride(c, base, inc, |p|) ==> a[c] == old(a[c])
  {
    ghost var before := a[..];
    assert EntryAt(before, p, base, valueBase, inc, i) && EntryAt(before, p, base, valueBase, inc, j);
    var tmp := a[Cell(base, inc, i)];
    a[Cell(base, inc, i)] := a[Cell(base, inc, j)];
    a[Cell(base, inc, j)] := tmp;
    forall k | 0 <= k < |p|
      ensures EntryAt(a[..], Swap(p, i, j), base, valueBase, inc, k)
    {
      assert EntryAt(before, p, base, valueBase, inc, k);
      CellInjective(base, inc, i, j);
      if k != i { CellInjective(base, inc, k, i); }
      if k != j { CellInjective(base, inc, k, j); }
    }
  }

  /** The fill loop: element i leads to itself. */
  method FillIdentity(a: array<nat>, base: nat, valueBase: nat, inc: nat, n: nat)
    requires inc > 0 && n < TWO_TO_31
    requires forall i :: 0 <= i < n ==> Cell(base, inc, i) < a.Length
    modifies a
    ensures HoldsAt(a[..], Identity(n), base, valueBase, inc)
    ensures forall c :: 0 <= c < a.Length && !OnStride(c, base, inc, n) ==> a[c] == old(a[c])
  {
    for i := 0 to n
      invariant forall k :: 0 <= k < i ==> a[Cell(base, inc, k)] == Cell(valueBase, inc, k)
      invariant forall c :: 0 <= c < a.Length && !OnStride(c, base, inc, n) ==> a[c] == old(a[c])
    {
      a[Cell(base, inc, i)] := Cell(valueBase, inc, i);
      forall k | 0 <= k < i
        ensures Cell(base, inc, k) != Cell(base, inc, i)
      {
        CellInjective(base, inc, k, i);
      }
    }
  }

  /** The fill-and-shuffle loop pair that every builder contains: the identity, then one
      swap for each position from the last down to 1. */
  method FillAndShuffle(a: array<nat>, base: nat, valueBase: nat, inc: nat, n: nat, rng: Rand)
    requires inc > 0 && n < TWO_TO_31
    requires forall i :: 0 <= i < n ==> Cell(base, inc, i) < a.Length
    modifies a, rng
    ensures HoldsAt(a[..], Shuffled(n, rng.stream, old(rng.calls)), base, valueBase, inc)
    ensures forall c :: 0 <= c < a.Length && !OnStride(c, base, inc, n) ==> a[c] == old(a[c])
    ensures rng.calls == old(rng.calls) + Draws(n)
  {
    FillIdentity(a, base, valueBase, inc, n);
    SwapDown(a, base, valueBase, inc, n, rng);
  }

  method SwapDown(a: array<nat>, base: nat, valueBase: nat, inc: nat, n: nat, rng: Rand)
    requires inc > 0 && HoldsAt(a[..], Identity(n), base, valueBase, inc)
    modifies a, rng
    ensures HoldsAt(a[..], Shuffled(n, rng.stream, old(rng.calls)), base, valueBase, inc)
    ensures forall c :: 0 <= c < a.Length && !OnStride(c, base, inc, n) ==> a[c] == old(a[c])
    ensures rng.calls == old(rng.calls) + Draws(n)
  {
    ghost var p := Identity(n);
    var iter: nat := n;
    while iter > 1
      invariant |p| == n && (n >= 1 ==> 1 <= iter) && iter <= n
      invariant HoldsAt(a[..], p, base, valueBase, inc)
      invariant ShuffleFrom(p, iter, rng.stream, rng.calls) == Shuffled(n, rng.stream, old(rng.calls))
      invariant rng.calls + Draws(iter) == old(rng.calls) + Draws(n)
      invariant forall c :: 0 <= c < a.Length && !OnStride(c, base, inc, n) ==> a[c] == old(a[c])
    {
      iter := iter - 1;
      var j := DrawPartner(iter, rng);
      SwapCells(a, p, base, valueBase, inc, iter, j);
      p := Swap(p, iter, j);
    }
  }

  /** A table of its own, shuffled. */
  method DrawPattern(pattern: array<nat>, rng: Rand)
    requires pattern.Length < TWO_TO_31
    modifies pattern, rng
    ensures pattern[..] == Shuffled(pattern.Length, rng.stream, old(rng.calls))
    ensures rng.calls == old(rng.calls) + Draws(pattern.Length)
  {
    ghost var p := Shuffled(pattern.Length, rng.stream, rng.calls);
    FillAndShuffle(pattern, 0, 0, 1, pattern.Length, rng);
    forall i | 0 <= i < pattern.Length
      ensures pattern[i] == p[i]
    {
      assert EntryAt(pattern[..], p, 0, 0, 1, i);
    }
  }

  // ----- FillPatternArr -----

  /** What FillPatternArr leaves behind: the shuffle of all elements in the pattern cells,
      counted from the start of the list, and every other cell as it was. */
  ghost predicate Filled(before: seq<nat>, after: seq<nat>, base: nat, valueBase: nat, inc: nat, n: nat,
                         stream: nat -> nat, calls: nat) {
    && |after| == |before|
    && HoldsAt(after, Shuffled(n, stream, calls), base, valueBase, inc)
    && forall c :: 0 <= c < |before| && !OnStride(c, base, inc, n) ==> after[c] == before[c]
  }

  /** `base` is where the caller's pointer lies within the array. The list must fit the array and
      32-bit sizes; the C code divides by byte_increment / 4 and counts elements in an int. */
  method FillPatternArr(a: array<nat>, base: nat, listSize: nat, byteIncrement: nat, rng: Rand)
    requires byteIncrement >= 4 && base + listSize <= a.Length && listSize < TWO_TO_32
    requires listSize / (byteIncrement / 4) < TWO_TO_31
    modifies a, rng
    ensures var inc := byteIncrement / 4;
      Filled(old(a[..]), a[..], base, 0, inc, listSize / inc, rng.stream, old(rng.calls))
    ensures rng.calls == old(rng.calls) + Draws(listSize / (byteIncrement / 4))
  {
    var increment := byteIncrement / 4;
    var elementCount := listSize / increment;
    forall i | 0 <= i < elementCount
      ensures Cell(base, increment, i) < a.Length
    {
      CellBelow(base, increment, elementCount, listSize, i);
    }
    FillAndShuffle(a, base, 0, increment, elementCount, rng);
  }

  /** Chased from its first cell, a filled list is one cycle through every pattern cell, for
      every element count and every stream of draws; all values are below the list size. */
  lemma FilledListIsOneCycle(before: seq<nat>, a: seq<nat>, inc: nat, n: nat, listSize: nat, stream: nat -> nat,
        calls: nat)
    requires inc > 0 && 0 < n <= listSize / inc
    requires Filled(before, a, 0, 0, inc, n, stream, calls)
    ensures OneLap(a, 0, n, Strided(0, inc))
    ensures forall i :: 0 <= i < n ==> Cell(0, inc, i) < |a| && a[Cell(0, inc, i)] < listSize
    ensures forall c :: 0 <= c < n * inc ==> (OnStride(c, 0, inc, n) <==> c % inc == 0)
  {
    forall c | 0 <= c < n * inc
      ensures OnStride(c, 0, inc, n) <==> c % inc == 0
    {
      MultipleOnStride(c, inc, n);
    }
    ClassIsOneCycle(a, 0, inc, n, stream, calls);
    var p := Shuffled(n, stream, calls);
    assert Closed(p) by { ShuffledIsSingleCycle(n, stream, calls); }
    forall i | 0 <= i < n
      ensures Cell(0, inc, i) < |a| && a[Cell(0, inc, i)] < listSize
    {
      assert EntryAt(a, p, 0, 0, inc, i);
      CellBelow(0, inc, n, listSize, p[i]);
    }
  }

  /** The pattern cells are the multiples of the stride. */
  lemma MultipleOnStride(c: nat, inc: nat, n: nat)
    requires inc > 0 && c < n * inc
    ensures OnStride(c, 0, inc, n) <==> c % inc == 0
  {
    if c % inc == 0 {
      var q := c / inc;
      QuotientBelow(c, inc, n);
      assert c == Cell(0, inc, q);
    }
    if OnStride(c, 0, inc, n) {
      var i: nat :| i < n && c == Cell(0, inc, i);
      Quotient(c, inc, i, 0);
    }
  }

  /** The address map of a strided pattern. */
  ghost function Strided(base: nat, inc: nat): nat -> nat {
    (i: nat) => Cell(base, inc, i)
  }

  lemma HeldThroughStride(a: seq<nat>, p: seq<nat>, base: nat, inc: nat)
    requires HoldsAt(a, p, base, base, inc)
    ensures Holds(a, p, Strided(base, inc))
  {
    forall i | 0 <= i < |p|
      ensures EntryHeld(a, p, Strided(base, inc), i)
    {
      assert EntryAt(a, p, base, base, inc, i);
    }
  }

  lemma ClassIsOneCycle(a: seq<nat>, base: nat, inc: nat, n: nat, stream: nat -> nat, calls: nat)
    requires inc > 0 && n > 0
    requires HoldsAt(a, Shuffled(n, stream, calls), base, base, inc)
    ensures OneLap(a, base, n, Strided(base, inc))
  {
    var p, addr := Shuffled(n, stream, calls), Strided(base, inc);
    ShuffledIsSingleCycle(n, stream, calls);
    HeldThroughStride(a, p, base, inc);
    forall i, j | 0 <= i < j < n
      ensures addr(i) != addr(j)
    {
      CellInjective(base, inc, i, j);
    }
    CycleInMemory(a, p, addr);
  }

  // ----- FillPatternArr64 -----

  /** The first draw that the shuffle for offset c reads. */
  function ClassStart(calls: nat, c: nat, n: nat): nat {
    calls + c * Draws(n)
  }

  /** What the 64-bit builder leaves behind for offset c: the shuffle of that residue class. */
  ghost predicate ClassFilled(a: seq<nat>, c: nat, inc: nat, n: nat, stream: nat -> nat, calls: nat) {
    HoldsAt(a, Shuffled(n, stream, ClassStart(calls, c, n)), c, c, inc)
  }

  /** The 64-bit builder runs the same loops once for every offset within the increment. It
      computes cell numbers in 32 bits, so the list must stay below that. */
  method FillPatternArr64(a: array<nat>, listSize: nat, byteIncrement: nat, rng: Rand)
    requires byteIncrement >= 8 && listSize <= a.Length
    requires listSize < TWO_TO_32 && listSize / (byteIncrement / 8) < TWO_TO_31
    modifies a, rng
    ensures var inc := byteIncrement / 8; var n := listSize / inc;
      && (forall c :: 0 <= c < inc ==> ClassFilled(a[..], c, inc, n, rng.stream, old(rng.calls)))
      && (forall c :: inc * n <= c < a.Length ==> a[c] == old(a[c]))
      && rng.calls == ClassStart(old(rng.calls), inc, n)
  {
    var increment := byteIncrement / 8;
    var elementCount := listSize / increment;
    assert increment * elementCount <= listSize;
    for offset := 0 to increment
      invariant rng.calls == ClassStart(old(rng.calls), offset, elementCount)
      invariant forall c :: 0 <= c < offset ==>
        ClassFilled(a[..], c, increment, elementCount, rng.stream, old(rng.calls))
      invariant forall c :: increment * elementCount <= c < a.Length ==> a[c] == old(a[c])
    {
      FillClass(a, offset, increment, elementCount, rng, old(rng.calls));
    }
  }

  /** One pass of the 64-bit builder's outer loop leaves the classes already filled alone. */
  method FillClass(a: array<nat>, offset: nat, inc: nat, n: nat, rng: Rand, ghost start: nat)
    requires offset < inc && n < TWO_TO_31 && inc * n <= a.Length
    requires rng.calls == ClassStart(start, offset, n)
    requires forall c :: 0 <= c < offset ==> ClassFilled(a[..], c, inc, n, rng.stream, start)
    modifies a, rng
    ensures rng.calls == ClassStart(start, offset + 1, n)
    ensures forall c :: 0 <= c <= offset ==> ClassFilled(a[..], c, inc, n, rng.stream, start)
    ensures forall c :: inc * n <= c < a.Length ==> a[c] == old(a[c])
  {
    forall i | 0 <= i < n
      ensures Cell(offset, inc, i) < inc * n
    {
      ClassCellBelow(offset, inc, n, i);
    }
    ghost var before := a[..];
    FillAndShuffle(a, offset, offset, inc, n, rng);
    assert ClassFilled(a[..], offset, inc, n, rng.stream, start);
    forall c | 0 <= c < offset
      ensures ClassFilled(a[..], c, inc, n, rng.stream, start)
    {
      assert ClassFilled(before, c, inc, n, rng.stream, start);
      OtherClassKept(before, a[..], c, offset, inc, n, Shuffled(n, rng.stream, ClassStart(start, c, n)));
    }
  }

  lemma ClassCellBelow(c: nat, inc: nat, n: nat, i: nat)
    requires c < inc && i < n
    ensures Cell(c, inc, i) < inc * n
  {
    assert (i + 1) * inc <= n * inc;
  }

  /** Cells of different residue classes are different cells. */
  lemma ClassesDisjoint(inc: nat, c: nat, i: nat, d: nat, j: nat)
    requires c < inc && d < inc && c != d
    ensures Cell(c, inc, i) != Cell(d, inc, j)
  {
    if i < j { MulStep(i, j, inc); } else if j < i { MulStep(j, i, inc); }
  }

  /** Filling one residue class leaves the pattern in another one as it was. */
  lemma OtherClassKept(before: seq<nat>, after: seq<nat>, c: nat, d: nat, inc: nat, n: nat, p: seq<nat>)
    requires c < inc && d < inc && c != d && |p| == n && |after| == |before|
    requires HoldsAt(before, p, c, c, inc)
    requires forall x :: 0 <= x < |before| && !OnStride(x, d, inc, n) ==> after[x] == before[x]
    ensures HoldsAt(after, p, c, c, inc)
  {
    forall i | 0 <= i < n
      ensures EntryAt(after, p, c, c, inc, i)
    {
      assert EntryAt(before, p, c, c, inc, i);
      if OnStride(Cell(c, inc, i), d, inc, n) {
        var j: nat :| j < n && Cell(c, inc, i) == Cell(d, inc, j);
        ClassesDisjoint(inc, c, i, d, j);
      }
    }
  }

  /** A list filled by the 64-bit builder falls into exactly `inc` disjoint cycles, one per
      residue class, each covering its whole class; together they cover inc * n cells. */
  lemma OneCyclePerResidueClass(a: seq<nat>, inc: nat, n: nat, stream: nat -> nat, calls: nat)
    requires inc > 0 && n > 0
    requires forall c :: 0 <= c < inc ==> ClassFilled(a, c, inc, n, stream, calls)
    ensures forall c :: 0 <= c < inc ==> OneLap(a, c, n, Strided(c, inc))
    ensures forall c, d, i, j :: 0 <= c < d < inc && 0 <= i < n && 0 <= j < n ==> Cell(c, inc, i) != Cell(d, inc, j)
    ensures forall x :: 0 <= x < inc * n ==> OnStride(x, x % inc, inc, n)
  {
    forall c | 0 <= c < inc
      ensures OneLap(a, c, n, Strided(c, inc))
    {
      assert ClassFilled(a, c, inc, n, stream, calls);
      ClassIsOneCycle(a, c, inc, n, stream, ClassStart(calls, c, n));
    }
    forall c, d, i, j | 0 <= c < d < inc && 0 <= i < n && 0 <= j < n
      ensures Cell(c, inc, i) != Cell(d, inc, j)
    {
      ClassesDisjoint(inc, c, i, d, j);
    }
    forall x | 0 <= x < inc * n
      ensures OnStride(x, x % inc, inc, n)
    {
      QuotientBelow(x, inc, n);
      assert x == Cell(x % inc, inc, x / inc);
    }
  }

  lemma QuotientBelow(x: nat, inc: nat, n: nat)
    requires inc > 0 && x < inc * n
    ensures x / inc < n
  {
    var q := x / inc;
    assert q * inc <= x;
    if q >= n { MulMono(n, q, inc); }
  }
}
