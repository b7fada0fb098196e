/** RunTlbTest: one chased cell per page. */
module TlbRun {
  import opened ByteFill
  import opened Common
  import opened Cycles
  import opened Shuffle
  import opened PatternFill
  import opened PageByPage
  import opened LatencyRuns
  import opened LoadSums

  /** Where entry i of the page pattern goes: page i, shifted by i cache lines within the page. */
  function TlbAddr(i: nat): nat {
    i * PAGE + (i * 16) % PAGE
  }

  ghost function TlbMap(): nat -> nat {
    (i: nat) => TlbAddr(i)
  }

  function TlbEntries(sizeKb: nat): (pages: nat)
    ensures sizeKb >= 4 ==> 4 * pages <= sizeKb < 4 * pages + 4
    ensures sizeKb < 4 ==> pages == 1
  {
    if sizeKb / 4 == 0 then 1 else sizeKb / 4
  }

  const INT_MAX := 0x7FFF_FFFF

  /** All four bytes 0xFF, the low byte of INT_MAX. */
  const POISON := 0xFFFF_FFFF

  /** memset is given the number of cells as a number of bytes, so it reaches a quarter of them. */
  method Poison(A: array<nat>, listSize: nat)
    requires listSize <= A.Length && forall c :: 0 <= c < A.Length ==> A[c] < TWO_TO_32
    modifies A
    ensures forall c :: 0 <= c < A.Length && 4 * c + 4 <= listSize ==> A[c] == POISON
    ensures forall c :: 0 <= c < A.Length && listSize <= 4 * c ==> A[c] == old(A[c])
  {
    Memset(A, INT_MAX, listSize);
    forall c | 0 <= c < A.Length
      ensures 4 * c + 4 <= listSize ==> A[c] == POISON
      ensures listSize <= 4 * c ==> A[c] == old(A[c])
    {
      assert A[c] == CellAfter(old(A[c]), c, 0xFF, listSize);
      AllOnesExactly(c, listSize);
      if listSize <= 4 * c { CellKept(old(A[c]), c, 0xFF, listSize); }
    }
  }

  /** Of the list's cells, exactly the first quarter is poisoned whatever they held. */
  lemma QuarterIsPoisoned(sizeKb: nat, c: nat)
    requires c < sizeKb * 256
    ensures Becomes(c, INT_MAX % 0x100, sizeKb * 256, POISON) <==> c < sizeKb * 64
  {
    assert INT_MAX % 0x100 == 0xFF;
    AllOnesExactly(c, sizeKb * 256);
  }

  /** Cells that the pattern does not use are poisoned below a quarter of the list, and as the
      allocator left them above. */
  ghost predicate RestPoisoned(before: seq<nat>, after: seq<nat>, sizeKb: nat)
    requires |after| == |before|
  {
    forall c :: 0 <= c < |after| && !OnPattern(Some(c), TlbEntries(sizeKb), TlbMap()) ==>
      after[c] == if c < sizeKb * 64 then POISON else before[c]
  }

  /** The layout step of RunTlbTest, on the given test array. */
  method BuildTlbPattern(A: array<nat>, sizeKb: nat, rng: Rand)
    requires 0 < sizeKb < 0x40_0000 && sizeKb * 256 <= A.Length
    requires forall c :: 0 <= c < A.Length ==> A[c] < TWO_TO_32
    modifies A, rng
    ensures Holds(A[..], Shuffled(TlbEntries(sizeKb), rng.stream, old(rng.calls)), TlbMap())
    ensures RestPoisoned(old(A[..]), A[..], sizeKb)
    ensures rng.calls == old(rng.calls) + Draws(TlbEntries(sizeKb))
  {
    var entries := sizeKb / 4;
    var listSize := sizeKb * 1024 / 4;
    if entries == 0 {
      entries := 1;
    }
    var pattern := new nat[entries];
    ShuffledIsSingleCycle(entries, rng.stream, rng.calls);
    DrawPattern(pattern, rng);
    Poison(A, listSize);
    ScatterTlb(A, pattern, sizeKb);
  }

  /** Writes entry i of the pattern, translated, to the translated cell i. */
  method ScatterTlb(A: array<nat>, pattern: array<nat>, sizeKb: nat)
    requires A != pattern && 0 < sizeKb && sizeKb * 256 <= A.Length
    requires pattern.Length == TlbEntries(sizeKb) && Closed(pattern[..])
    modifies A
    ensures Holds(A[..], pattern[..], TlbMap())
    ensures forall c :: 0 <= c < A.Length && !OnPattern(Some(c), TlbEntries(sizeKb), TlbMap()) ==> A[c] == old(A[c])
  {
    for i := 0 to pattern.Length
      invariant pattern[..] == old(pattern[..])
      invariant forall k :: 0 <= k < i ==> TlbAddr(k) < A.Length && A[TlbAddr(k)] == TlbAddr(pattern[k])
      invariant forall c :: 0 <= c < A.Length && !OnPattern(Some(c), TlbEntries(sizeKb), TlbMap()) ==> A[c] == old(A[c])
    {
      TlbInBounds(sizeKb, i);
      assert OnPattern(Some(TlbAddr(i)), TlbEntries(sizeKb), TlbMap()) by { assert TlbMap()(i) == TlbAddr(i); }
      A[TlbAddr(i)] := TlbAddr(pattern[i]);
      forall k | 0 <= k < i
        ensures TlbAddr(k) != TlbAddr(i)
      {
        TlbOnePerPage(k);
        TlbOnePerPage(i);
      }
    }
    forall i | 0 <= i < pattern.Length
      ensures EntryHeld(A[..], pattern[..], TlbMap(), i)
    {
      assert A[TlbAddr(i)] == TlbAddr(pattern[i]);
    }
  }

  lemma TlbOnePerPage(i: nat)
    ensures TlbAddr(i) / 1024 == i && TlbAddr(i) % 1024 == (i * 16) % 1024
  {
  }

  lemma TlbInBounds(sizeKb: nat, i: nat)
    requires 0 < sizeKb && i < TlbEntries(sizeKb)
    ensures TlbAddr(i) < sizeKb * 256
  {
  }

  lemma TlbMapInjective(n: nat)
    ensures InjectiveBelow(TlbMap(), n)
  {
    forall i, j | 0 <= i < j < n
      ensures TlbMap()(i) != TlbMap()(j)
    {
      TlbOnePerPage(i);
      TlbOnePerPage(j);
    }
  }

  /** Of the first n loads, number k and no other is of page g. */
  ghost predicate OnlyLoadInPage(a: seq<nat>, n: nat, k: nat, g: nat) {
    LoadInPage(a, k, g) && forall j :: 0 <= j < n && LoadInPage(a, j, g) ==> j == k
  }

  ghost predicate OneLoadInPage(a: seq<nat>, n: nat, g: nat) {
    exists k: nat :: k < n && OnlyLoadInPage(a, n, k, g)
  }

  /** Every page that is completely inside the list is loaded exactly once in a lap of one load for each 4 KB. */
  ghost predicate EveryPageOnce(a: seq<nat>, sizeKb: nat) {
    forall g: nat :: (g + 1) * 4 <= sizeKb ==> OneLoadInPage(a, sizeKb / 4, g)
  }

  /** The TLB layout is one cycle over one cell in each page, all of them inside the list. Below 4 KB it is a
      single cell. */
  lemma TlbIsOneCellPerPage(A: seq<nat>, sizeKb: nat, stream: nat -> nat, calls: nat)
    requires 0 < sizeKb && sizeKb * 256 <= |A|
    requires Holds(A, Shuffled(TlbEntries(sizeKb), stream, calls), TlbMap())
    ensures OneLap(A, 0, if sizeKb < 4 then 1 else sizeKb / 4, TlbMap())
    ensures EveryPageOnce(A, sizeKb)
    ensures forall i :: 0 <= i < TlbEntries(sizeKb) ==> TlbMap()(i) / 1024 == i && TlbMap()(i) < sizeKb * 256
  {
    var n := TlbEntries(sizeKb);
    forall i | 0 <= i < n
      ensures TlbMap()(i) / 1024 == i && TlbMap()(i) < sizeKb * 256
    {
      TlbOnePerPage(i);
      TlbInBounds(sizeKb, i);
    }
    TlbLap(A, n, stream, calls);
    PagesOnce(A, sizeKb);
  }

  lemma PagesOnce(a: seq<nat>, sizeKb: nat)
    requires OneLap(a, 0, TlbEntries(sizeKb), TlbMap())
    ensures EveryPageOnce(a, sizeKb)
  {
    forall g: nat | (g + 1) * 4 <= sizeKb
      ensures OneLoadInPage(a, sizeKb / 4, g)
    {
      PageOnce(a, sizeKb / 4, g);
    }
  }

  lemma PageOnce(a: seq<nat>, n: nat, g: nat)
    requires OneLap(a, 0, n, TlbMap()) && g < n
    ensures OneLoadInPage(a, n, g)
  {
    assert ChaseVisits(a, 0, n, TlbMap()(g));
    var k: nat :| k < n && Chase(a, k, 0) == Some(TlbMap()(g));
    TlbOnePerPage(g);
    forall j | 0 <= j < n && LoadInPage(a, j, g)
      ensures j == k
    {
      assert OnPattern(Chase(a, j, 0), n, TlbMap());
      var i: nat :| i < n && Chase(a, j, 0) == Some(TlbMap()(i));
      TlbOnePerPage(i);
      assert i == g;
      SameLoad(a, 0, n, TlbMap(), j, k);
    }
    assert OnlyLoadInPage(a, n, k, g);
  }

  /** Page i is chased at the start of its line i modulo 64, so 64 neighbouring pages at 64 different lines. */
  lemma TlbLines(i: nat, j: nat)
    ensures TlbAddr(i) % 1024 == 16 * (i % 64)
    ensures i < j < i + 64 ==> TlbAddr(i) % 1024 != TlbAddr(j) % 1024
  {
    TlbLine(i);
    TlbLine(j);
    if i < j < i + 64 { Neighbours(i, j); }
  }

  lemma TlbLine(i: nat)
    ensures TlbAddr(i) % 1024 == 16 * (i % 64)
  {
    TlbOnePerPage(i);
  }

  lemma Neighbours(i: nat, j: nat)
    requires i < j < i + 64
    ensures i % 64 != j % 64
  {
  }

  lemma TlbLap(A: seq<nat>, n: nat, stream: nat -> nat, calls: nat)
    requires n > 0 && Holds(A, Shuffled(n, stream, calls), TlbMap())
    ensures OneLap(A, 0, n, TlbMap())
  {
    ShuffledIsSingleCycle(n, stream, calls);
    TlbMapInjective(n);
    CycleInMemory(A, Shuffled(n, stream, calls), TlbMap());
    assert TlbMap()(0) == 0;
  }

  /** Its k-th cell is the image of the k-th entry of the shuffle. */
  lemma TlbIsConjugate(A: seq<nat>, n: nat, stream: nat -> nat, calls: nat, k: nat)
    requires n > 0 && Holds(A, Shuffled(n, stream, calls), TlbMap())
    ensures SingleCycle(Shuffled(n, stream, calls))
    ensures Chase(A, k, 0) == Some(TlbAddr(Iter(Shuffled(n, stream, calls), k, 0)))
  {
    ShuffledIsSingleCycle(n, stream, calls);
    ChaseIsConjugate(A, Shuffled(n, stream, calls), TlbMap(), k, 0);
    assert TlbMap()(0) == 0;
  }

  // ----- The reference run -----

  /** Kilobytes handed to the reference RunTest. */
  function ReferenceKb(entries: nat): (kb: nat)
    ensures entries >= 16 ==> LineCount(kb) <= entries < LineCount(kb) + 16
    ensures entries < 16 ==> kb == 1
  {
    if entries * 64 / 1024 == 0 then 1 else entries * 64 / 1024
  }

  /** The reference chases as many lines as the TLB run chases cells exactly if that number is a
      multiple of 16. */
  lemma ReferenceMatches(entries: nat)
    requires entries > 0
    ensures LineCount(ReferenceKb(entries)) == entries <==> entries % 16 == 0
  {
  }

  /** The reference list is no larger than the list, so it fits wherever that does. */
  lemma ReferenceFits(sizeKb: nat)
    requires sizeKb > 0
    ensures 0 < ReferenceKb(TlbEntries(sizeKb)) <= sizeKb
  {
  }

  /** The measured part: each page is loaded as often as every other, up to one. */
  method ChasePages(A: array<nat>, sizeKb: nat, iterations: nat, rng: Rand) returns (sum: nat, ghost a: seq<nat>)
    requires 0 < sizeKb < 0x40_0000 && iterations < TWO_TO_31 && sizeKb * 256 <= A.Length
    requires forall c :: 0 <= c < A.Length ==> A[c] < TWO_TO_32
    modifies A, rng
    ensures PagesChased(a, sizeKb, iterations, sum)
    ensures rng.calls == old(rng.calls) + Draws(TlbEntries(sizeKb))
    ensures a == A[..] && RestPoisoned(old(A[..]), a, sizeKb)
  {
    ghost var calls := rng.calls;
    BuildTlbPattern(A, sizeKb, rng);
    a := A[..];
    TlbLap(a, TlbEntries(sizeKb), rng.stream, calls);
    var current;
    current, sum := ChaseLoop(A, iterations, TlbEntries(sizeKb), TlbMap());
    TlbMapInjective(TlbEntries(sizeKb));
    CellsLoadedEvenly(a, TlbEntries(sizeKb), TlbMap(), iterations);
    PagesOnce(a, sizeKb);
  }

  /** What the measured loop did on the array a. */
  ghost predicate PagesChased(a: seq<nat>, sizeKb: nat, iterations: nat, sum: nat) {
    var n := if sizeKb < 4 then 1 else sizeKb / 4;
    && OneLap(a, 0, n, TlbMap())
    && EveryPageOnce(a, sizeKb)
    && sum == LoadSum(a, 0, 2, iterations) % TWO_TO_32
    && LoadedEvenly(a, n, TlbMap(), iterations)
    && (iterations % n == 0 ==> sum == ((iterations / n) * AddrSum(TlbMap(), n)) % TWO_TO_32)
  }

  /** The measured part on the caller's array or on a new one. */
  method ChaseOwnPages(sizeKb: nat, iterations: nat, preallocated: array?<nat>, garbage: nat -> nat, rng: Rand)
    returns (sum: nat, ghost a: seq<nat>)
    requires 0 < sizeKb < 0x40_0000 && iterations < TWO_TO_31
    requires preallocated != null ==> sizeKb * 256 <= preallocated.Length
    requires preallocated != null ==> forall c :: 0 <= c < preallocated.Length ==> preallocated[c] < TWO_TO_32
    modifies rng, preallocated
    ensures PagesChased(a, sizeKb, iterations, sum)
    ensures rng.calls == old(rng.calls) + Draws(TlbEntries(sizeKb))
    ensures preallocated != null ==> a == preallocated[..] && RestPoisoned(old(preallocated[..]), a, sizeKb)
  {
    var A := ArrayFor(sizeKb, preallocated, garbage);
    sum, a := ChasePages(A, sizeKb, iterations, rng);
  }

  /** What the reference run did on the array r: a lap over its own list in the chosen order. */
  ghost predicate ReferenceChased(r: seq<nat>, kb: nat, iterations: nat, pageByPage: bool, stream: nat -> nat,
        calls: nat,
        sum: nat) {
    && OneLap(r, 0, LineCount(kb), Strided(0, LINE))
    && sum == LoadSum(r, 0, 2, iterations) % TWO_TO_32
    && (kb > 0 ==> LoadedEvenly(r, LineCount(kb), Strided(0, LINE), iterations))
    && OrderChosen(r, kb, pageByPage, stream, calls)
  }

  method RunReference(sizeKb: nat, iterations: nat, pageByPage: bool, preallocated: array?<nat>, garbage: nat -> nat,
        rng: Rand)
    returns (sum: nat, ghost r: seq<nat>)
    requires 0 < sizeKb < 0x40_0000 && iterations < TWO_TO_31
    requires preallocated != null ==> sizeKb * 256 <= preallocated.Length
    requires SizeIsSafe(ReferenceKb(TlbEntries(sizeKb)), pageByPage)
    modifies rng, preallocated
    ensures ReferenceChased(r, ReferenceKb(TlbEntries(sizeKb)), iterations, pageByPage, rng.stream, old(rng.calls), sum)
    ensures preallocated != null ==>
      r == preallocated[..] && Behind(old(preallocated[..]), r, ReferenceKb(TlbEntries(sizeKb)) * 256)
  {
    ReferenceFits(sizeKb);
    sum, r := RunTest(ReferenceKb(TlbEntries(sizeKb)), iterations, pageByPage, preallocated, garbage, rng);
  }

  /** RunTlbTest with its reference run, which fills the same array anew if it is a preallocated one and
      obeys the page-by-page option. */
  method RunTlbTest(sizeKb: nat, iterations: nat, referenceIterations: nat, pageByPage: bool, preallocated: array?<nat>,
                    garbage: nat -> nat, rng: Rand)
    returns (sum: nat, reference: nat, ghost a: seq<nat>, ghost r: seq<nat>)
    requires 0 < sizeKb < 0x40_0000 && iterations < TWO_TO_31 && referenceIterations < TWO_TO_31
    requires preallocated != null ==> sizeKb * 256 <= preallocated.Length
    requires preallocated != null ==> forall c :: 0 <= c < preallocated.Length ==> preallocated[c] < TWO_TO_32
    requires SizeIsSafe(ReferenceKb(TlbEntries(sizeKb)), pageByPage)
    modifies rng, preallocated
    ensures PagesChased(a, sizeKb, iterations, sum)
    ensures var calls := old(rng.calls) + Draws(TlbEntries(sizeKb));
      ReferenceChased(r, ReferenceKb(TlbEntries(sizeKb)), referenceIterations, pageByPage, rng.stream, calls, reference)
    ensures preallocated != null ==>
      r == preallocated[..] && Behind(a, r, ReferenceKb(TlbEntries(sizeKb)) * 256)
    ensures preallocated != null ==> |a| == preallocated.Length && RestPoisoned(old(preallocated[..]), a, sizeKb)
  {
    sum, a := ChaseOwnPages(sizeKb, iterations, preallocated, garbage, rng);
    reference, r := RunReference(sizeKb, referenceIterations, pageByPage, preallocated, garbage, rng);
  }
}
