/** RunMlpTest and RunAopTest: many chains at once, and an array of independent pointers. */
module ParallelRuns {
  import opened Common
  import opened Cycles
  import opened Shuffle
  import opened PatternFill
  import opened LatencyRuns

  // ----- RunMlpTest -----

  /** Starting offsets, one per chain. */
  method StartChains(parallelism: nat) returns (offsets: array<nat>)
    ensures fresh(offsets) && offsets.Length == parallelism
    ensures forall j :: 0 <= j < parallelism ==> offsets[j] == Cell(0, LINE, j)
  {
    offsets := new nat[parallelism];
    for i := 0 to parallelism
      invariant forall j :: 0 <= j < i ==> offsets[j] == Cell(0, LINE, j)
    {
      offsets[i] := i * (64 / 4);
    }
  }

  /** One dependent load for every chain. */
  method AdvanceChains(A: array<nat>, offsets: array<nat>, ghost p: seq<nat>, ghost k: nat)
    requires A != offsets && Closed(p) && Holds(A[..], p, Strided(0, LINE)) && offsets.Length <= |p|
    requires forall j :: 0 <= j < offsets.Length ==> offsets[j] == Cell(0, LINE, Iter(p, k, j))
    modifies offsets
    ensures forall j :: 0 <= j < offsets.Length ==> offsets[j] == Cell(0, LINE, Iter(p, k + 1, j))
  {
    for j := 0 to offsets.Length
      invariant forall i :: 0 <= i < j ==> offsets[i] == Cell(0, LINE, Iter(p, k + 1, i))
      invariant forall i :: j <= i < offsets.Length ==> offsets[i] == Cell(0, LINE, Iter(p, k, i))
    {
      ChainStep(A[..], p, Iter(p, k, j));
      offsets[j] := A[offsets[j]];
    }
  }

  lemma ChainStep(a: seq<nat>, p: seq<nat>, x: nat)
    requires Closed(p) && Holds(a, p, Strided(0, LINE)) && x < |p|
    ensures Cell(0, LINE, x) < |a| && a[Cell(0, LINE, x)] == Cell(0, LINE, p[x])
  {
    assert EntryHeld(a, p, Strided(0, LINE), x);
  }

  /** All chains take the same number of loads. Each must start within the pattern. */
  method ChaseChains(A: array<nat>, offsets: array<nat>, rounds: nat, ghost p: seq<nat>)
    requires A != offsets && Closed(p) && Holds(A[..], p, Strided(0, LINE)) && offsets.Length <= |p|
    requires forall j :: 0 <= j < offsets.Length ==> offsets[j] == Cell(0, LINE, j)
    modifies offsets
    ensures forall j :: 0 <= j < offsets.Length ==> offsets[j] == Cell(0, LINE, Iter(p, rounds, j))
  {
    for i := 0 to rounds
      invariant A[..] == old(A[..])
      invariant forall j :: 0 <= j < offsets.Length ==> offsets[j] == Cell(0, LINE, Iter(p, i, j))
    {
      AdvanceChains(A, offsets, p, i);
    }
  }

  /** RunMlpTest with at most as many chains as cache lines. More would start outside the array. */
  method RunMlpTest(sizeKb: nat, rounds: nat, parallelism: nat, rng: Rand) returns (offsets: array<nat>)
    requires 0 < sizeKb < 0x40_0000 && parallelism <= LineCount(sizeKb)
    modifies rng
    ensures fresh(offsets) && offsets.Length == parallelism
    ensures var p := Shuffled(LineCount(sizeKb), rng.stream, old(rng.calls));
      SingleCycle(p) && forall j :: 0 <= j < parallelism ==> offsets[j] == Cell(0, LINE, Iter(p, rounds, j))
  {
    var listSize := sizeKb * 1024 / 4;
    var A := new nat[listSize];
    ghost var p := Shuffled(LineCount(sizeKb), rng.stream, rng.calls);
    assert listSize / LINE == LineCount(sizeKb);
    ShuffledIsSingleCycle(LineCount(sizeKb), rng.stream, rng.calls);
    FillPatternArr(A, 0, listSize, 64, rng);
    HeldThroughStride(A[..], p, 0, LINE);
    offsets := StartChains(parallelism);
    ChaseChains(A, offsets, rounds, p);
  }

  /** However many rounds the chains have run, their offsets are inside the list and no two chains
      are at the same line. */
  lemma ChainsNeverMeet(sizeKb: nat, stream: nat -> nat, calls: nat, rounds: nat, i: nat, j: nat)
    requires 0 < sizeKb && i < LineCount(sizeKb) && j < LineCount(sizeKb) && i != j
    ensures var p := Shuffled(LineCount(sizeKb), stream, calls);
      && SingleCycle(p)
      && Cell(0, LINE, Iter(p, rounds, i)) < sizeKb * 256
      && Cell(0, LINE, Iter(p, rounds, i)) != Cell(0, LINE, Iter(p, rounds, j))
  {
    var p := Shuffled(LineCount(sizeKb), stream, calls);
    ShuffledIsSingleCycle(LineCount(sizeKb), stream, calls);
    IterInjective(p, rounds, i, j);
  }

  /** Every chain starts inside the list if and only if there are no more chains than lines. */
  lemma ChainsStartInBounds(sizeKb: nat, parallelism: nat)
    ensures (forall j :: 0 <= j < parallelism ==> Cell(0, LINE, j) < sizeKb * 256) <==> parallelism <= LineCount(sizeKb)
  {
    if parallelism > LineCount(sizeKb) {
      assert Cell(0, LINE, LineCount(sizeKb)) >= sizeKb * 256;
    }
  }

  // ----- RunAopTest -----

  ghost function Triangle(n: nat): nat { n * (n + 1) / 2 }

  /** Scatters 1..n over the lines in shuffled order: pointer i leads to a cell holding i + 1. */
  method ScatterPointers(A: array<nat>, pattern: array<nat>) returns (pointers: array<nat>)
    requires A != pattern && SingleCycle(pattern[..])
    requires forall i :: 0 <= i < pattern.Length ==> Cell(0, LINE, i) < A.Length
    modifies A
    ensures fresh(pointers) && pointers.Length == pattern.Length
    ensures forall i :: 0 <= i < pointers.Length ==> pointers[i] < A.Length && A[pointers[i]] == i + 1
    ensures forall i :: 0 <= i < pointers.Length ==> pointers[i] == Cell(0, LINE, old(pattern[i]))
  {
    ghost var p := pattern[..];
    pointers := new nat[pattern.Length];
    for i := 0 to pattern.Length
      invariant pattern[..] == p
      invariant forall k :: 0 <= k < i ==>
        pointers[k] == Cell(0, LINE, p[k]) && pointers[k] < A.Length && A[pointers[k]] == k + 1
    {
      assert pattern[i] == p[i] && Cell(0, LINE, p[i]) < A.Length;
      pointers[i] := pattern[i] * (64 / 4);
      A[pointers[i]] := i + 1;
      forall k | 0 <= k < i
        ensures pointers[k] != pointers[i]
      {
        EntriesDiffer(p, k, i);
      }
    }
  }

  /** What the first i reads through n pointers add up to. */
  ghost function ReadSum(n: nat, i: nat): nat
    requires n > 0
  {
    if i == 0 then 0 else ReadSum(n, i - 1) + (i - 1) % n + 1
  }

  /** The measured loop: reads through the pointers in order, again and again. */
  method SumThroughPointers(A: array<nat>, pointers: array<nat>, iterations: nat) returns (sum: nat)
    requires pointers.Length > 0
    requires forall i :: 0 <= i < pointers.Length ==> pointers[i] < A.Length && A[pointers[i]] == i + 1
    ensures sum == ReadSum(pointers.Length, iterations) % TWO_TO_32
  {
    sum := 0;
    var i := 0;
    ghost var q: nat := 0;
    while i < iterations
      invariant i <= iterations && (i == q * pointers.Length || i == iterations)
      invariant sum == ReadSum(pointers.Length, i) % TWO_TO_32
      decreases iterations - i
    {
      NextMultiple(q, pointers.Length);
      i, sum := ReadRound(A, pointers, i, iterations, sum, q);
      q := q + 1;
    }
  }

  /** The inner loop: one round, cut short if the iterations run out. */
  method ReadRound(A: array<nat>, pointers: array<nat>, from: nat, iterations: nat, sum0: nat, ghost q: nat)
    returns (i: nat, sum: nat)
    requires pointers.Length > 0 && from == q * pointers.Length && from < iterations
    requires forall k :: 0 <= k < pointers.Length ==> pointers[k] < A.Length && A[pointers[k]] == k + 1
    requires sum0 == ReadSum(pointers.Length, from) % TWO_TO_32
    ensures from < i <= iterations && (i == from + pointers.Length || i == iterations)
    ensures sum == ReadSum(pointers.Length, i) % TWO_TO_32
  {
    i, sum := from, sum0;
    var pointerIdx := 0;
    while pointerIdx < pointers.Length && i < iterations
      invariant pointerIdx <= pointers.Length && i == from + pointerIdx <= iterations
      invariant sum == ReadSum(pointers.Length, i) % TWO_TO_32
      decreases pointers.Length - pointerIdx
    {
      Quotient(i, pointers.Length, q, pointerIdx);
      AddMod(ReadSum(pointers.Length, i), pointerIdx + 1);
      sum := (sum + A[pointers[pointerIdx]]) % TWO_TO_32;
      pointerIdx := pointerIdx + 1;
      i := i + 1;
    }
  }

  lemma {:induction false} ReadSumClosed(n: nat, q: nat, r: nat, i: nat)
    requires n > 0 && r <= n && i == q * n + r
    ensures ReadSum(n, i) == q * Triangle(n) + Triangle(r)
    decreases q, r
  {
    if r > 0 {
      ReadSumClosed(n, q, r - 1, i - 1);
      Quotient(i - 1, n, q, r - 1);
      TriangleStep(r - 1);
    } else if q > 0 {
      NextMultiple(q - 1, n);
      ReadSumClosed(n, q - 1, n, i);
      NextMultiple(q - 1, Triangle(n));
      assert Triangle(0) == 0;
    }
  }

  lemma TriangleStep(k: nat)
    ensures Triangle(k + 1) == Triangle(k) + (k + 1)
  {
    assert (k + 1) * (k + 2) == k * (k + 1) + 2 * (k + 1);
  }

  /** RunAopTest: no pointer overwrites another's cell, so the checksum is the sum of 1..n once per
      whole round plus the sum of what the last, partial round read; the pointers lead to the lines in the order
      of the shuffle. Without a line the source's loop would not end. */
  method RunAopTest(sizeKb: nat, iterations: nat, preallocated: array?<nat>, garbage: nat -> nat, rng: Rand)
    returns (sum: nat, ghost cells: seq<nat>)
    requires 0 < sizeKb < 0x40_0000 && iterations < TWO_TO_31
    requires preallocated != null ==> sizeKb * 256 <= preallocated.Length
    modifies rng, preallocated
    ensures var n := LineCount(sizeKb);
      && sum == ((iterations / n) * Triangle(n) + Triangle(iterations % n)) % TWO_TO_32
      && LinesInOrder(cells, Shuffled(n, rng.stream, old(rng.calls)))
  {
    var elementCount := sizeKb * 1024 / 64;
    assert elementCount == LineCount(sizeKb);
    var A := ArrayFor(sizeKb, preallocated, garbage);
    sum, cells := RunAop(A, elementCount, iterations, rng);
    WholeRounds(elementCount, iterations);
  }

  /** The cells that the pointers lead to: the first cell of each line, in the order of the table. */
  ghost predicate LinesInOrder(cells: seq<nat>, p: seq<nat>) {
    && SingleCycle(p) && |cells| == |p|
    && forall i :: 0 <= i < |p| ==> cells[i] == 16 * p[i]
  }

  lemma WholeRounds(n: nat, iterations: nat)
    requires n > 0
    ensures ReadSum(n, iterations) == (iterations / n) * Triangle(n) + Triangle(iterations % n)
  {
    var q, r := iterations / n, iterations % n;
    assert iterations == q * n + r;
    ReadSumClosed(n, q, r, iterations);
  }

  method RunAop(A: array<nat>, elementCount: nat, iterations: nat, rng: Rand)
    returns (sum: nat, ghost cells: seq<nat>)
    requires 0 < elementCount < TWO_TO_31 && elementCount * LINE <= A.Length
    modifies A, rng
    ensures sum == ReadSum(elementCount, iterations) % TWO_TO_32
    ensures LinesInOrder(cells, Shuffled(elementCount, rng.stream, old(rng.calls)))
  {
    var pattern := new nat[elementCount];
    ShuffledIsSingleCycle(elementCount, rng.stream, rng.calls);
    DrawPattern(pattern, rng);
    var pointers := ScatterPointers(A, pattern);
    cells := pointers[..];
    sum := SumThroughPointers(A, pointers, iterations);
  }
}
