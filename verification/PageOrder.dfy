/** The order in which a page-by-page chase visits memory. */
module PageOrder {
  import opened Common
  import opened Cycles
  import opened Shuffle
  import opened PatternFill
  import opened PageByPage

  /** Within a page the chase follows the page's own table from its first line on. */
  lemma {:induction false} WithinPage(a: seq<nat>, g: nat, next: nat, inner: seq<nat>, inc: nat, l: nat)
    requires SingleCycle(inner) && PageLinked(a, g, next, inner, inc) && l < |inner|
    ensures Chase(a, l, Base(g)) == Some(Cell(Base(g), inc, Iter(inner, l, 0)))
  {
    if l > 0 {
      WithinPage(a, g, next, inner, inc, l - 1);
      assert LineLinked(a, g, next, inner, inc, Iter(inner, l - 1, 0));
      assert Iter(inner, 0, 0) != Iter(inner, l, 0);
    }
  }

  /** After exactly as many steps as the page has lines, the chase is at the first line of the
      next page. */
  lemma LeavesPage(a: seq<nat>, g: nat, next: nat, inner: seq<nat>, inc: nat)
    requires SingleCycle(inner) && PageLinked(a, g, next, inner, inc)
    ensures Chase(a, |inner|, Base(g)) == Some(Base(next))
  {
    WithinPage(a, g, next, inner, inc, |inner| - 1);
    assert LineLinked(a, g, next, inner, inc, Iter(inner, |inner| - 1, 0));
  }

  lemma LinesPositive(inc: nat)
    requires inc > 0 && PAGE % inc == 0
    ensures Lines(inc) > 0 && Lines(inc) * inc == PAGE
  {
  }

  lemma TablesAreCycles(pages: nat, inc: nat, stream: nat -> nat, calls: nat, g: nat)
    requires inc > 0 && PAGE % inc == 0 && pages > 0
    ensures SingleCycle(Shuffled(pages, stream, calls))
    ensures SingleCycle(LineTable(stream, calls, pages, inc, g))
    ensures |LineTable(stream, calls, pages, inc, g)| == Lines(inc)
  {
    LinesPositive(inc);
    ShuffledIsSingleCycle(pages, stream, calls);
    ShuffledIsSingleCycle(Lines(inc), stream, PageStart(calls, pages, inc, g));
  }

  /** The page that the chase is in after i pages. */
  ghost function PageAfter(pages: nat, stream: nat -> nat, calls: nat, i: nat): (g: nat)
    requires pages > 0
    ensures g < pages
  {
    ShuffledIsSingleCycle(pages, stream, calls);
    Iter(Shuffled(pages, stream, calls), i, 0)
  }

  /** As long as it meets only linked pages, the chase from 0 is at the first line of page
      PageAfter(i) after i pages' worth of steps. */
  lemma {:induction false} EntersPageAtFirstLine(a: seq<nat>, count: nat, pages: nat, inc: nat, stream: nat -> nat,
        calls: nat, i: nat)
    requires inc > 0 && PAGE % inc == 0 && 0 < count <= pages
    requires PagesLinked(a, count, pages, inc, stream, calls)
    requires forall h :: 0 <= h < i ==> PageAfter(pages, stream, calls, h) < count
    ensures Chase(a, i * Lines(inc), 0) == Some(Base(PageAfter(pages, stream, calls, i)))
  {
    if i == 0 {
      assert i * Lines(inc) == 0;
    } else {
      EntersPageAtFirstLine(a, count, pages, inc, stream, calls, i - 1);
      var g := PageAfter(pages, stream, calls, i - 1);
      var inner := LineTable(stream, calls, pages, inc, g);
      TablesAreCycles(pages, inc, stream, calls, g);
      LeavesPage(a, g, Shuffled(pages, stream, calls)[g], inner, inc);
      ChaseAdd(a, Lines(inc), (i - 1) * Lines(inc), 0, Base(g));
      assert (i - 1) * Lines(inc) + Lines(inc) == i * Lines(inc);
    }
  }

  /** The line of page g that step l within the page is at. */
  ghost function LineAfter(pages: nat, inc: nat, stream: nat -> nat, calls: nat, g: nat, l: nat): (line: nat)
    requires inc > 0 && PAGE % inc == 0 && pages > 0
    ensures line < Lines(inc)
  {
    TablesAreCycles(pages, inc, stream, calls, g);
    Iter(LineTable(stream, calls, pages, inc, g), l, 0)
  }

  /** Step l within the i-th page visited. */
  lemma StepWithinPage(a: seq<nat>, count: nat, pages: nat, inc: nat, stream: nat -> nat, calls: nat, i: nat, l: nat)
    requires inc > 0 && PAGE % inc == 0 && 0 < count <= pages && l < Lines(inc)
    requires PagesLinked(a, count, pages, inc, stream, calls)
    requires forall h :: 0 <= h <= i ==> PageAfter(pages, stream, calls, h) < count
    ensures var g := PageAfter(pages, stream, calls, i);
      Chase(a, i * Lines(inc) + l, 0) == Some(Cell(Base(g), inc, LineAfter(pages, inc, stream, calls, g, l)))
  {
    var g := PageAfter(pages, stream, calls, i);
    EntersPageAtFirstLine(a, count, pages, inc, stream, calls, i);
    StepFromFirstLine(a, count, pages, inc, stream, calls, g, l);
    ChaseAdd(a, l, i * Lines(inc), 0, Base(g));
  }

  /** Step l within the i-th page is of that page. */
  lemma StepInPage(a: seq<nat>, pages: nat, inc: nat, stream: nat -> nat, calls: nat, i: nat, l: nat, n: nat, k: nat)
    requires inc > 0 && PAGE % inc == 0 && pages > 0 && n == Lines(inc) && l < n && k == i * n + l
    requires PagesLinked(a, pages, pages, inc, stream, calls)
    ensures var g := PageAfter(pages, stream, calls, i);
      Chase(a, k, 0).Some? && Base(g) <= Chase(a, k, 0).value < Base(g + 1)
      && (l == 0 ==> Chase(a, k, 0) == Some(Base(g)))
  {
    var g := PageAfter(pages, stream, calls, i);
    StepWithinPage(a, pages, pages, inc, stream, calls, i, l);
    LineInPage(g, inc, LineAfter(pages, inc, stream, calls, g, l));
    if l == 0 {
      EntersPageAtFirstLine(a, pages, pages, inc, stream, calls, i);
    }
  }

  lemma StepFromFirstLine(a: seq<nat>, count: nat, pages: nat, inc: nat, stream: nat -> nat, calls: nat, g: nat, l: nat)
    requires inc > 0 && PAGE % inc == 0 && g < count <= pages && l < Lines(inc)
    requires PagesLinked(a, count, pages, inc, stream, calls)
    ensures Chase(a, l, Base(g)) == Some(Cell(Base(g), inc, LineAfter(pages, inc, stream, calls, g, l)))
  {
    TablesAreCycles(pages, inc, stream, calls, g);
    WithinPage(a, g, Shuffled(pages, stream, calls)[g], LineTable(stream, calls, pages, inc, g), inc, l);
  }

  // ----- Whole pages: one cycle, one page at a time -----

  /** The i-th page is entered at its first line and left only after each of its lines has been
      visited, in the Lines(inc) steps from step i * Lines(inc) on. */
  lemma PageIsCompletedBeforeTheNext(a: seq<nat>, pages: nat, inc: nat, stream: nat -> nat, calls: nat, i: nat,
        line: nat)
    returns (l: nat)
    requires inc > 0 && PAGE % inc == 0 && pages > 0 && line < Lines(inc)
    requires PagesLinked(a, pages, pages, inc, stream, calls)
    ensures var g := PageAfter(pages, stream, calls, i);
      && Chase(a, i * Lines(inc), 0) == Some(Base(g))
      && l < Lines(inc) && Chase(a, i * Lines(inc) + l, 0) == Some(Cell(Base(g), inc, line))
      && Chase(a, i * Lines(inc) + Lines(inc), 0) == Some(Base(PageAfter(pages, stream, calls, i + 1)))
  {
    var g := PageAfter(pages, stream, calls, i);
    var inner := LineTable(stream, calls, pages, inc, g);
    TablesAreCycles(pages, inc, stream, calls, g);
    l := Rank(inner, line);
    assert LineAfter(pages, inc, stream, calls, g, l) == line;
    StepWithinPage(a, pages, pages, inc, stream, calls, i, l);
    EntersPageAtFirstLine(a, pages, pages, inc, stream, calls, i);
    EntersPageAtFirstLine(a, pages, pages, inc, stream, calls, i + 1);
    assert (i + 1) * Lines(inc) == i * Lines(inc) + Lines(inc);
  }

  /** Line l of page g is pattern cell g * Lines(inc) + l of the whole list. */
  lemma LineCell(g: nat, inc: nat, l: nat)
    requires inc > 0 && PAGE % inc == 0
    ensures Cell(Base(g), inc, l) == Cell(0, inc, g * Lines(inc) + l)
  {
    LinesPositive(inc);
    assert (g * Lines(inc) + l) * inc == g * (Lines(inc) * inc) + l * inc;
  }

  lemma SplitStep(k: nat, n: nat, m: nat)
    requires m > 0 && k < n * m
    ensures k / m < n && k % m < m && k == (k / m) * m + k % m
  {
    QuotientBelow(k, m, n);
  }

  /** The line of the whole list that step l within the i-th page is at. */
  ghost function LineOf(pages: nat, inc: nat, stream: nat -> nat, calls: nat, i: nat, l: nat): nat
    requires inc > 0 && PAGE % inc == 0 && pages > 0
  {
    var g := PageAfter(pages, stream, calls, i);
    g * Lines(inc) + LineAfter(pages, inc, stream, calls, g, l)
  }

  lemma StepIsAt(a: seq<nat>, pages: nat, inc: nat, stream: nat -> nat, calls: nat, i: nat, l: nat)
    requires inc > 0 && PAGE % inc == 0 && pages > 0 && l < Lines(inc)
    requires PagesLinked(a, pages, pages, inc, stream, calls)
    ensures LineOf(pages, inc, stream, calls, i, l) < pages * Lines(inc)
    ensures Chase(a, i * Lines(inc) + l, 0) == Some(Cell(0, inc, LineOf(pages, inc, stream, calls, i, l)))
  {
    var g := PageAfter(pages, stream, calls, i);
    var line := LineAfter(pages, inc, stream, calls, g, l);
    StepWithinPage(a, pages, pages, inc, stream, calls, i, l);
    LineCell(g, inc, line);
    MulStep(g, pages, Lines(inc));
  }

  lemma LineIsVisited(pages: nat, inc: nat, stream: nat -> nat, calls: nat, x: nat) returns (i: nat, l: nat)
    requires inc > 0 && PAGE % inc == 0 && pages > 0 && x < pages * Lines(inc)
    ensures i < pages && l < Lines(inc) && LineOf(pages, inc, stream, calls, i, l) == x
  {
    LinesPositive(inc);
    SplitStep(x, pages, Lines(inc));
    var g, line := x / Lines(inc), x % Lines(inc);
    TablesAreCycles(pages, inc, stream, calls, g);
    i, l := Rank(Shuffled(pages, stream, calls), g), Rank(LineTable(stream, calls, pages, inc, g), line);
    assert PageAfter(pages, stream, calls, i) == g;
    assert LineAfter(pages, inc, stream, calls, g, l) == line;
  }

  lemma SameQuotient(g: nat, h: nat, n: nat, l: nat, m: nat)
    requires l < n && m < n && g * n + l == h * n + m
    ensures g == h && l == m
  {
    if g < h { MulStep(g, h, n); } else if h < g { MulStep(h, g, n); }
  }

  lemma StepsDiffer(pages: nat, inc: nat, stream: nat -> nat, calls: nat, i: nat, l: nat, j: nat, m: nat)
    requires inc > 0 && PAGE % inc == 0 && pages > 0
    requires i < pages && j < pages && l < Lines(inc) && m < Lines(inc) && (i != j || l != m)
    ensures LineOf(pages, inc, stream, calls, i, l) != LineOf(pages, inc, stream, calls, j, m)
  {
    var g, h := PageAfter(pages, stream, calls, i), PageAfter(pages, stream, calls, j);
    var x, y := LineAfter(pages, inc, stream, calls, g, l), LineAfter(pages, inc, stream, calls, h, m);
    TablesAreCycles(pages, inc, stream, calls, g);
    if i != j {
      StepsAreDistinct(Shuffled(pages, stream, calls), i, j);
    } else {
      StepsAreDistinct(LineTable(stream, calls, pages, inc, g), l, m);
    }
    if g * Lines(inc) + x == h * Lines(inc) + y {
      SameQuotient(g, h, Lines(inc), x, y);
    }
  }

  lemma StepsAreDistinct(p: seq<nat>, j: nat, k: nat)
    requires SingleCycle(p) && j < |p| && k < |p| && j != k
    ensures Iter(p, j, 0) != Iter(p, k, 0)
  {
    if j < k {
      assert Iter(p, j, 0) != Iter(p, k, 0);
    } else {
      assert Iter(p, k, 0) != Iter(p, j, 0);
    }
  }

  /** Built from whole pages, more than two and below 4 GiB, the chase from cell 0 is one cycle
      through every line of the list, for every stream of draws. */
  lemma WholePagesAreOneCycle(a: seq<nat>, listSize: nat, inc: nat, stream: nat -> nat, calls: nat)
    requires inc > 0 && PAGE % inc == 0 && PageCount(listSize) > 2 && listSize % PAGE == 0
    requires PagesLinked(a, PageCount(listSize), TablePages(listSize), inc, stream, calls)
    ensures OneLap(a, 0, listSize / inc, Strided(0, inc))
  {
    var pages, n := PageCount(listSize), Lines(inc);
    LinesPositive(inc);
    assert TablePages(listSize) == pages;
    assert listSize == (pages * n) * inc by { assert pages * (n * inc) == (pages * n) * inc; }
    SameQuotient(listSize / inc, pages * n, inc, listSize % inc, 0);
    assert forall h :: 0 <= h < pages ==> PageAfter(pages, stream, calls, h) < pages;
    EntersPageAtFirstLine(a, pages, pages, inc, stream, calls, pages);
    ShuffledIsSingleCycle(pages, stream, calls);
    WholeListLap(a, pages, inc, stream, calls, pages * n);
  }

  lemma WholeListLap(a: seq<nat>, pages: nat, inc: nat, stream: nat -> nat, calls: nat, lines: nat)
    requires inc > 0 && PAGE % inc == 0 && pages > 0 && lines == pages * Lines(inc)
    requires PagesLinked(a, pages, pages, inc, stream, calls)
    requires Chase(a, lines, 0) == Some(0)
    ensures OneLap(a, 0, lines, Strided(0, inc))
  {
    var addr := Strided(0, inc);
    forall x | 0 <= x < lines
      ensures ChaseVisits(a, 0, lines, addr(x))
    {
      var k := StepOfLine(a, pages, inc, stream, calls, x);
    }
    forall k | 0 <= k < lines
      ensures OnPattern(Chase(a, k, 0), lines, addr)
    {
      var x := LineOfStep(a, pages, inc, stream, calls, k);
      assert Chase(a, k, 0) == Some(addr(x));
    }
    forall j, k | 0 <= j < k < lines
      ensures Chase(a, j, 0) != Chase(a, k, 0)
    {
      ChaseStepsDiffer(a, pages, inc, stream, calls, j, k);
    }
  }

  lemma StepOfLine(a: seq<nat>, pages: nat, inc: nat, stream: nat -> nat, calls: nat, x: nat) returns (k: nat)
    requires inc > 0 && PAGE % inc == 0 && pages > 0 && x < pages * Lines(inc)
    requires PagesLinked(a, pages, pages, inc, stream, calls)
    ensures k < pages * Lines(inc) && Chase(a, k, 0) == Some(Cell(0, inc, x))
  {
    var n := Lines(inc);
    var i, l := LineIsVisited(pages, inc, stream, calls, x);
    StepBound(i, l, pages, n);
    k := i * n + l;
    StepIsAt(a, pages, inc, stream, calls, i, l);
  }

  lemma StepBound(i: nat, l: nat, pages: nat, n: nat)
    requires i < pages && l < n
    ensures i * n + l < pages * n
  {
    MulStep(i, pages, n);
  }

  lemma LineOfStep(a: seq<nat>, pages: nat, inc: nat, stream: nat -> nat, calls: nat, k: nat) returns (x: nat)
    requires inc > 0 && PAGE % inc == 0 && pages > 0 && k < pages * Lines(inc)
    requires PagesLinked(a, pages, pages, inc, stream, calls)
    ensures x < pages * Lines(inc) && Chase(a, k, 0) == Some(Cell(0, inc, x))
  {
    var n := Lines(inc);
    LinesPositive(inc);
    SplitStep(k, pages, n);
    StepIsAt(a, pages, inc, stream, calls, k / n, k % n);
    x := LineOf(pages, inc, stream, calls, k / n, k % n);
  }

  lemma ChaseStepsDiffer(a: seq<nat>, pages: nat, inc: nat, stream: nat -> nat, calls: nat, j: nat, k: nat)
    requires inc > 0 && PAGE % inc == 0 && pages > 0 && j < k < pages * Lines(inc)
    requires PagesLinked(a, pages, pages, inc, stream, calls)
    ensures Chase(a, j, 0) != Chase(a, k, 0)
  {
    var n := Lines(inc);
    LinesPositive(inc);
    SplitStep(j, pages, n);
    SplitStep(k, pages, n);
    StepIsAt(a, pages, inc, stream, calls, j / n, j % n);
    StepIsAt(a, pages, inc, stream, calls, k / n, k % n);
    StepsDiffer(pages, inc, stream, calls, j / n, j % n, k / n, k % n);
    CellInjective(0, inc, LineOf(pages, inc, stream, calls, j / n, j % n),
      LineOf(pages, inc, stream, calls, k / n, k % n));
  }

  // ----- A left-over part page -----

  /** If a part page is left over, the page table contains it but no loop fills it: after some
      whole number of pages the chase arrives at the first cell behind the linked pages. */
  lemma PartPageIsEnteredUnfilled(a: seq<nat>, listSize: nat, inc: nat, stream: nat -> nat, calls: nat)
    returns (steps: nat)
    requires inc > 0 && PAGE % inc == 0 && PageCount(listSize) > 2 && listSize % PAGE != 0
    requires PagesLinked(a, PageCount(listSize), TablePages(listSize), inc, stream, calls)
    ensures Chase(a, steps, 0) == Some(Base(PageCount(listSize)))
    ensures !OnPages(Base(PageCount(listSize)), PageCount(listSize), inc)
  {
    var count, pages := PageCount(listSize), TablePages(listSize);
    var outer := Shuffled(pages, stream, calls);
    ShuffledIsSingleCycle(pages, stream, calls);
    var t := Rank(outer, count);
    forall h | 0 <= h < t
      ensures PageAfter(pages, stream, calls, h) < count
    {
      assert Iter(outer, h, 0) != Iter(outer, t, 0);
    }
    EntersPageAtFirstLine(a, count, pages, inc, stream, calls, t);
    steps := t * Lines(inc);
    BehindPages(Base(count), count, inc);
  }

  /** The chase stays on the cells that the builder linked. */
  ghost predicate StaysOnPages(a: seq<nat>, count: nat, inc: nat)
    requires inc > 0
  {
    forall k: nat :: Chase(a, k, 0).Some? && OnPages(Chase(a, k, 0).value, count, inc)
  }

  /** Beyond two pages, the chase stays on linked cells if and only if the list is a whole
      number of pages. */
  lemma SafeExactlyForWholePages(a: seq<nat>, listSize: nat, inc: nat, stream: nat -> nat, calls: nat)
    requires inc > 0 && PAGE % inc == 0 && PageCount(listSize) > 2
    requires PagesLinked(a, PageCount(listSize), TablePages(listSize), inc, stream, calls)
    ensures StaysOnPages(a, PageCount(listSize), inc) <==> listSize % PAGE == 0
  {
    var pages := PageCount(listSize);
    if listSize % PAGE != 0 {
      var k := PartPageIsEnteredUnfilled(a, listSize, inc, stream, calls);
      assert !(Chase(a, k, 0).Some? && OnPages(Chase(a, k, 0).value, pages, inc));
    } else {
      LinesPositive(inc);
      forall k: nat
        ensures Chase(a, k, 0).Some? && OnPages(Chase(a, k, 0).value, pages, inc)
      {
        var i, l := k / Lines(inc), k % Lines(inc);
        StepWithinPage(a, pages, pages, inc, stream, calls, i, l);
        var g := PageAfter(pages, stream, calls, i);
        assert k == i * Lines(inc) + l;
        assert OnStride(Chase(a, k, 0).value, Base(g), inc, Lines(inc));
      }
    }
  }
}
