/** RunTest of MemoryLatency.c: fill a list, chase it, return the checksum. Clocks and printing are
    not modelled; the iteration count that the source scales with pow() is a parameter, and so is what
    the allocator leaves in a new array. */
module LatencyRuns {
  import opened Common
  import opened Cycles
  import opened PatternFill
  import opened Shuffle
  import opened PageByPage
  import opened PageOrder
  import opened LoadSums

  const LINE := 16              // 64-byte cache line, in 32-bit cells

  // ----- The chase loop -----

  /** `current = A[0]`, then one dependent load and one addition per iteration. */
  method ChaseLoop(a: array<nat>, iterations: nat, ghost n: nat, ghost addr: nat -> nat)
    returns (current: nat, sum: nat)
    requires n > 0 && OneLap(a[..], 0, n, addr)
    ensures Chase(a[..], iterations + 1, 0) == Some(current)
    ensures sum == LoadSum(a[..], 0, 2, iterations) % TWO_TO_32
  {
    NextLoad(a[..], n, addr, 0, 0);
    current := a[0];
    sum := 0;
    for i := 0 to iterations
      invariant Chase(a[..], i + 1, 0) == Some(current)
      invariant sum == LoadSum(a[..], 0, 2, i) % TWO_TO_32
    {
      NextLoad(a[..], n, addr, i + 1, current);
      current := a[current];
      NextSum(a[..], i, current);
      sum := (sum + current) % TWO_TO_32;
    }
  }

  /** On a lap, the next load is in bounds. */
  lemma NextLoad(a: seq<nat>, n: nat, addr: nat -> nat, k: nat, current: nat)
    requires OneLap(a, 0, n, addr) && n > 0 && Chase(a, k, 0) == Some(current)
    ensures current < |a| && Chase(a, k + 1, 0) == Some(a[current])
  {
    LapRepeats(a, 0, n, addr, k + 1);
  }

  lemma NextSum(a: seq<nat>, i: nat, current: nat)
    requires Chase(a, i + 2, 0) == Some(current)
    ensures LoadSum(a, 0, 2, i + 1) == LoadSum(a, 0, 2, i) + current
    ensures LoadSum(a, 0, 2, i + 1) % TWO_TO_32 == (LoadSum(a, 0, 2, i) % TWO_TO_32 + current) % TWO_TO_32
  {
    assert 2 + (i + 1) - 1 == i + 2;
    AddMod(LoadSum(a, 0, 2, i), current);
  }

  lemma AddMod(a: nat, b: nat)
    ensures (a % TWO_TO_32 + b) % TWO_TO_32 == (a + b) % TWO_TO_32
  {
  }

  /** The cells a latency test of sizeKb kilobytes chases. */
  function LineCount(sizeKb: nat): (lines: nat)
    ensures lines * 64 == sizeKb * 1024
  {
    sizeKb * 16
  }

  /** The sizes for which the builder's chase stays on cells it filled. */
  predicate SizeIsSafe(sizeKb: nat, pageByPage: bool) {
    !pageByPage || sizeKb < 12 || sizeKb % 4 == 0
  }

  lemma PlainLap(before: seq<nat>, a: seq<nat>, sizeKb: nat, stream: nat -> nat, calls: nat)
    requires 0 < sizeKb && Filled(before, a, 0, 0, LINE, sizeKb * 256 / LINE, stream, calls)
    ensures OneLap(a, 0, LineCount(sizeKb), Strided(0, LINE))
  {
    FilledListIsOneCycle(before, a, LINE, LineCount(sizeKb), sizeKb * 256, stream, calls);
  }

  lemma PageByPageLap(before: seq<nat>, a: seq<nat>, sizeKb: nat, listSize: nat, stream: nat -> nat, calls: nat)
    requires 0 < sizeKb && SizeIsSafe(sizeKb, true) && listSize == sizeKb * 256
    requires BuiltPageByPage(before, a, listSize, LINE, stream, calls)
    ensures OneLap(a, 0, LineCount(sizeKb), Strided(0, LINE))
  {
    assert listSize / LINE == LineCount(sizeKb);
    if PageCount(listSize) <= 2 {
      FilledListIsOneCycle(before, a, LINE, LineCount(sizeKb), listSize, stream, calls);
    } else {
      WholePagesAreOneCycle(a, listSize, LINE, stream, calls);
    }
  }

  /** Beyond these sizes the claim fails: a size of three or more pages with a part page left over,
      such as the default size of 24567 KB, sends the chase into a cell that nothing filled. */
  lemma UnsafeSizesLeaveTheFilledCells(a: seq<nat>, sizeKb: nat, stream: nat -> nat, calls: nat)
    requires sizeKb >= 12
    requires var listSize := sizeKb * 256;
      PagesLinked(a, PageCount(listSize), TablePages(listSize), LINE, stream, calls)
    ensures StaysOnPages(a, PageCount(sizeKb * 256), LINE) <==> SizeIsSafe(sizeKb, true)
    ensures !SizeIsSafe(24567, true)
  {
    SafeExactlyForWholePages(a, sizeKb * 256, LINE, stream, calls);
  }

  /** The array a test works on: the caller's if there is one, else a new one. */
  method ArrayFor(sizeKb: nat, preallocated: array?<nat>, garbage: nat -> nat) returns (A: array<nat>)
    requires preallocated != null ==> sizeKb * 256 <= preallocated.Length
    ensures sizeKb * 256 <= A.Length
    ensures preallocated != null ==> A == preallocated
    ensures preallocated == null ==> fresh(A) && A.Length == sizeKb * 256
    ensures preallocated == null ==> forall c :: 0 <= c < A.Length ==> A[c] == garbage(c) % TWO_TO_32
  {
    if preallocated == null {
      A := new nat[sizeKb * 1024 / 4](i requires 0 <= i => garbage(i) % TWO_TO_32);
    } else {
      A := preallocated;
    }
  }

  /** RunTest: fill the list in the chosen order, chase it, return the checksum. In q * n + r iterations each
      of the n cache lines is loaded q or q + 1 times. Of a preallocated array only the list is written. */
  method RunTest(sizeKb: nat, iterations: nat, pageByPage: bool, preallocated: array?<nat>, garbage: nat -> nat,
        rng: Rand)
    returns (sum: nat, ghost a: seq<nat>)
    requires 0 < sizeKb < 0x40_0000 && iterations < TWO_TO_31
    requires preallocated != null ==> sizeKb * 256 <= preallocated.Length
    requires SizeIsSafe(sizeKb, pageByPage)
    modifies rng, preallocated
    ensures var n := LineCount(sizeKb);
      && OneLap(a, 0, n, Strided(0, LINE))
      && sum == LoadSum(a, 0, 2, iterations) % TWO_TO_32
      && LoadedEvenly(a, n, Strided(0, LINE), iterations)
      && (iterations % n == 0 ==> sum == ((iterations / n) * AddrSum(Strided(0, LINE), n)) % TWO_TO_32)
    ensures OrderChosen(a, sizeKb, pageByPage, rng.stream, old(rng.calls))
    ensures preallocated != null ==> a == preallocated[..] && Behind(old(preallocated[..]), a, sizeKb * 256)
  {
    var A := ArrayFor(sizeKb, preallocated, garbage);
    ghost var before, calls := A[..], rng.calls;
    FillForTest(A, sizeKb, pageByPage, rng);
    a := A[..];
    OrderIsChosen(before, a, sizeKb, pageByPage, rng.stream, calls);
    var current;
    current, sum := ChaseLoop(A, iterations, LineCount(sizeKb), Strided(0, LINE));
    StridedInjective(LineCount(sizeKb));
    CellsLoadedEvenly(a, LineCount(sizeKb), Strided(0, LINE), iterations);
  }

  /** Load k is of a cell of page g. */
  ghost predicate LoadInPage(a: seq<nat>, k: nat, g: nat) {
    Chase(a, k, 0).Some? && Chase(a, k, 0).value / 1024 == g
  }

  /** The 64 loads from number k on are of page g, the first of them of its first cell. */
  ghost predicate PageLoaded(a: seq<nat>, k: nat, g: nat) {
    Chase(a, k, 0) == Some(1024 * g) && forall m :: k <= m < k + 64 ==> LoadInPage(a, m, g)
  }

  /** The pages are loaded one after the other as the table over all pages says. */
  ghost predicate PagesInOrder(a: seq<nat>, pages: seq<nat>) {
    SingleCycle(pages) && forall i: nat :: PageLoaded(a, 64 * i, Iter(pages, i, 0))
  }

  /** Page by page, from three pages on, the chase is in one page for 64 loads at a time, and the pages follow
      each other as in the shuffle of all pages; otherwise the list is the shuffle of all its lines. */
  ghost predicate OrderChosen(a: seq<nat>, sizeKb: nat, pageByPage: bool, stream: nat -> nat, calls: nat) {
    if pageByPage && sizeKb >= 12 then PagesInOrder(a, Shuffled(sizeKb / 4, stream, calls))
    else HoldsAt(a, Shuffled(sizeKb * 1024 / 64, stream, calls), 0, 0, 16)
  }

  /** What the chosen builder leaves behind. */
  ghost predicate FilledAsChosen(before: seq<nat>, after: seq<nat>, sizeKb: nat, pageByPage: bool, stream: nat -> nat,
        calls: nat) {
    if pageByPage then BuiltPageByPage(before, after, sizeKb * 256, LINE, stream, calls)
    else Filled(before, after, 0, 0, LINE, sizeKb * 256 / LINE, stream, calls)
  }

  lemma OrderIsChosen(before: seq<nat>, a: seq<nat>, sizeKb: nat, pageByPage: bool, stream: nat -> nat, calls: nat)
    requires FilledAsChosen(before, a, sizeKb, pageByPage, stream, calls) && SizeIsSafe(sizeKb, pageByPage)
    ensures OrderChosen(a, sizeKb, pageByPage, stream, calls)
  {
    assert sizeKb * 256 / LINE == sizeKb * 1024 / 64;
    if pageByPage && sizeKb >= 12 {
      var pages := sizeKb / 4;
      assert pages == PageCount(sizeKb * 256) == TablePages(sizeKb * 256);
      ShuffledIsSingleCycle(pages, stream, calls);
      forall i: nat
        ensures PageLoaded(a, 64 * i, Iter(Shuffled(pages, stream, calls), i, 0))
      {
        PageVisited(a, pages, stream, calls, i);
      }
    }
  }

  lemma PageVisited(a: seq<nat>, pages: nat, stream: nat -> nat, calls: nat, i: nat)
    requires pages > 0 && PagesLinked(a, pages, pages, LINE, stream, calls)
    ensures PageLoaded(a, 64 * i, PageAfter(pages, stream, calls, i))
  {
    var g, k := PageAfter(pages, stream, calls, i), 64 * i;
    forall m | k <= m < k + 64
      ensures LoadInPage(a, m, g) && (m == k ==> Chase(a, m, 0) == Some(1024 * g))
    {
      LoadVisited(a, pages, stream, calls, i, m - k, m);
    }
    assert LoadInPage(a, k, g);
  }

  lemma LoadVisited(a: seq<nat>, pages: nat, stream: nat -> nat, calls: nat, i: nat, l: nat, m: nat)
    requires pages > 0 && PagesLinked(a, pages, pages, LINE, stream, calls) && l < 64 && m == 64 * i + l
    ensures LoadInPage(a, m, PageAfter(pages, stream, calls, i))
    ensures l == 0 ==> Chase(a, m, 0) == Some(1024 * PageAfter(pages, stream, calls, i))
  {
    LinesOfPage();
    StepInPage(a, pages, LINE, stream, calls, i, l, 64, m);
    CellsOfPage(Chase(a, m, 0).value, PageAfter(pages, stream, calls, i));
  }

  lemma LinesOfPage()
    ensures Lines(LINE) == 64 && PAGE % LINE == 0
  {
  }

  lemma CellsOfPage(c: nat, g: nat)
    requires Base(g) <= c < Base(g + 1)
    ensures c / 1024 == g && Base(g) == 1024 * g
  {
  }

  /** Cells from listSize on are the same in both. */
  ghost predicate Behind(before: seq<nat>, after: seq<nat>, listSize: nat) {
    |after| == |before| && forall c :: listSize <= c < |before| ==> after[c] == before[c]
  }

  /** The measured loads touch each of the n pattern cells equally often, up to one. */
  ghost predicate LoadedEvenly(a: seq<nat>, n: nat, addr: nat -> nat, iterations: nat)
    requires n > 0
  {
    forall i :: 0 <= i < n ==> iterations / n <= CountLoads(a, 0, 1, iterations, addr(i)) <= iterations / n + 1
  }

  /** The list is filled in the chosen order. */
  method FillForTest(A: array<nat>, sizeKb: nat, pageByPage: bool, rng: Rand)
    requires 0 < sizeKb < 0x40_0000 && SizeIsSafe(sizeKb, pageByPage) && sizeKb * 256 <= A.Length
    modifies A, rng
    ensures FilledAsChosen(old(A[..]), A[..], sizeKb, pageByPage, rng.stream, old(rng.calls))
    ensures OneLap(A[..], 0, LineCount(sizeKb), Strided(0, LINE))
    ensures Behind(old(A[..]), A[..], sizeKb * 256)
  {
    if !pageByPage {
      FillPlain(A, sizeKb, rng);
    } else {
      FillByPage(A, sizeKb, rng);
    }
  }

  method FillPlain(A: array<nat>, sizeKb: nat, rng: Rand)
    requires 0 < sizeKb < 0x40_0000 && sizeKb * 256 <= A.Length
    modifies A, rng
    ensures FilledAsChosen(old(A[..]), A[..], sizeKb, false, rng.stream, old(rng.calls))
    ensures OneLap(A[..], 0, LineCount(sizeKb), Strided(0, LINE))
    ensures Behind(old(A[..]), A[..], sizeKb * 256)
  {
    ghost var calls, before := rng.calls, A[..];
    FillPatternArr(A, 0, sizeKb * 1024 / 4, 64, rng);
    PlainLap(before, A[..], sizeKb, rng.stream, calls);
    FilledBehind(before, A[..], LINE, sizeKb * 256, rng.stream, calls);
  }

  method FillByPage(A: array<nat>, sizeKb: nat, rng: Rand)
    requires 0 < sizeKb < 0x40_0000 && SizeIsSafe(sizeKb, true) && sizeKb * 256 <= A.Length
    modifies A, rng
    ensures FilledAsChosen(old(A[..]), A[..], sizeKb, true, rng.stream, old(rng.calls))
    ensures OneLap(A[..], 0, LineCount(sizeKb), Strided(0, LINE))
    ensures Behind(old(A[..]), A[..], sizeKb * 256)
  {
    ghost var calls, before := rng.calls, A[..];
    var listSize := sizeKb * 1024 / 4;
    FillPageByPage(A, listSize, 64, rng);
    PageByPageLap(before, A[..], sizeKb, listSize, rng.stream, calls);
    BuiltBehind(before, A[..], listSize, LINE, rng.stream, calls);
  }

  /** Neither builder writes behind the list. */
  lemma FilledBehind(before: seq<nat>, after: seq<nat>, inc: nat, listSize: nat, stream: nat -> nat, calls: nat)
    requires inc > 0 && Filled(before, after, 0, 0, inc, listSize / inc, stream, calls)
    ensures Behind(before, after, listSize)
  {
    forall c | listSize <= c < |before|
      ensures after[c] == before[c]
    {
      if OnStride(c, 0, inc, listSize / inc) {
        var i: nat :| i < listSize / inc && c == Cell(0, inc, i);
        CellBelow(0, inc, listSize / inc, listSize, i);
      }
    }
  }

  lemma BuiltBehind(before: seq<nat>, after: seq<nat>, listSize: nat, inc: nat, stream: nat -> nat, calls: nat)
    requires inc > 0 && BuiltPageByPage(before, after, listSize, inc, stream, calls)
    ensures Behind(before, after, listSize)
  {
    if PageCount(listSize) <= 2 {
      FilledBehind(before, after, inc, listSize, stream, calls);
    } else {
      forall c | listSize <= c < |before|
        ensures after[c] == before[c]
      {
        BehindPages(c, PageCount(listSize), inc);
      }
    }
  }

  /** q * n + r chased loads touch each of the n cells q or q + 1 times, and q whole laps add up to q times
      the sum of all cells. */
  lemma CellsLoadedEvenly(a: seq<nat>, n: nat, addr: nat -> nat, iterations: nat)
    requires n > 0 && OneLap(a, 0, n, addr) && InjectiveBelow(addr, n)
    ensures LoadedEvenly(a, n, addr, iterations)
    ensures iterations % n == 0 ==> LoadSum(a, 0, 2, iterations) == (iterations / n) * AddrSum(addr, n)
  {
    var q, r := iterations / n, iterations % n;
    var laps := q * n;
    assert iterations == laps + r;
    forall i | 0 <= i < n
      ensures q <= CountLoads(a, 0, 1, iterations, addr(i)) <= q + 1
    {
      EvenCoverage(a, 0, n, addr, 1, q, laps, r, i);
    }
    if r == 0 {
      LapsSum(a, 0, n, addr, 2, q, iterations);
    }
  }

  lemma StridedInjective(n: nat)
    ensures InjectiveBelow(Strided(0, LINE), n)
  {
    forall i, j | 0 <= i < j < n
      ensures Strided(0, LINE)(i) != Strided(0, LINE)(j)
    {
      CellInjective(0, LINE, i, j);
    }
  }
}
