/** FillPageByPage: a chase that visits every line of one page before it enters the next. */
module PageByPage {
  import opened Common
  import opened Shuffle
  import opened PatternFill

  const PAGE := 1024            // 4096-byte page, in 32-bit cells
  const TWO_TO_30 := 0x4000_0000

  function Base(g: nat): nat { PAGE * g }

  /** Page g follows its inner table, except that the line leading back to the first line
      leads to the first line of page `next`. */
  ghost predicate PageLinked(a: seq<nat>, g: nat, next: nat, inner: seq<nat>, inc: nat) {
    forall l :: 0 <= l < |inner| ==> LineLinked(a, g, next, inner, inc, l)
  }

  ghost predicate LineLinked(a: seq<nat>, g: nat, next: nat, inner: seq<nat>, inc: nat, l: nat)
    requires l < |inner|
  {
    && Cell(Base(g), inc, l) < |a|
    && a[Cell(Base(g), inc, l)] == if inner[l] == 0 then Base(next) else Cell(Base(g), inc, inner[l])
  }

  /** Lines per page, and the page table and line tables that the builder draws. */
  function Lines(inc: nat): nat
    requires inc > 0
  {
    PAGE / inc
  }

  function PageStart(calls: nat, pages: nat, inc: nat, g: nat): nat
    requires inc > 0
  {
    calls + Draws(pages) + g * Draws(Lines(inc))
  }

  function LineTable(stream: nat -> nat, calls: nat, pages: nat, inc: nat, g: nat): seq<nat>
    requires inc > 0
  {
    Shuffled(Lines(inc), stream, PageStart(calls, pages, inc, g))
  }

  /** The first `count` pages are linked as the table over all `pages` pages says. */
  ghost predicate PagesLinked(a: seq<nat>, count: nat, pages: nat, inc: nat, stream: nat -> nat, calls: nat)
    requires inc > 0 && count <= pages
  {
    forall g :: 0 <= g < count ==>
      PageLinked(a, g, Shuffled(pages, stream, calls)[g], LineTable(stream, calls, pages, inc, g), inc)
  }

  ghost predicate OnPages(c: nat, count: nat, inc: nat)
    requires inc > 0
  {
    exists g :: 0 <= g < count && OnStride(c, Base(g), inc, Lines(inc))
  }

  /** Whole pages in the list, and the pages in the page table: one more if a part is left over. */
  function PageCount(listSize: nat): (pages: nat)
    ensures pages * 4096 <= listSize * 4 < pages * 4096 + 4096
  {
    listSize / PAGE
  }

  function TablePages(listSize: nat): (pages: nat)
    ensures listSize * 4 <= pages * 4096 < listSize * 4 + 4096
  {
    PageCount(listSize) + (if PageCount(listSize) * PAGE < listSize then 1 else 0)
  }

  lemma LineInPage(g: nat, inc: nat, l: nat)
    requires inc > 0 && l < Lines(inc)
    ensures Base(g) <= Cell(Base(g), inc, l) < Base(g + 1)
  {
    CellBelow(Base(g), inc, Lines(inc), PAGE, l);
  }

  /** Cells of another page are not on this page's pattern. */
  lemma OtherPage(g: nat, h: nat, inc: nat, l: nat)
    requires inc > 0 && g != h && l < Lines(inc)
    ensures !OnStride(Cell(Base(g), inc, l), Base(h), inc, Lines(inc))
  {
    LineInPage(g, inc, l);
    if OnStride(Cell(Base(g), inc, l), Base(h), inc, Lines(inc)) {
      var m: nat :| m < Lines(inc) && Cell(Base(g), inc, l) == Cell(Base(h), inc, m);
      LineInPage(h, inc, m);
    }
  }

  /** Cells behind the first `count` pages are on none of them. */
  lemma BehindPages(c: nat, count: nat, inc: nat)
    requires inc > 0 && Base(count) <= c
    ensures !OnPages(c, count, inc)
  {
    if OnPages(c, count, inc) {
      var g: nat :| g < count && OnStride(c, Base(g), inc, Lines(inc));
      var l: nat :| l < Lines(inc) && c == Cell(Base(g), inc, l);
      LineInPage(g, inc, l);
    }
  }

  /** Gives line l of page g its final value. */
  method LinkLine(a: array<nat>, g: nat, next: nat, inc: nat, ghost inner: seq<nat>, ghost l: nat, element: nat)
    requires inc > 0 && l < |inner| && element == l * inc && Cell(Base(g), inc, l) < a.Length
    requires a[Cell(Base(g), inc, l)] == Cell(0, inc, inner[l])
    modifies a
    ensures LineLinked(a[..], g, next, inner, inc, l)
    ensures forall c :: 0 <= c < a.Length && c != Cell(Base(g), inc, l) ==> a[c] == old(a[c])
  {
    var cell := Base(g) + element;
    assert inner[l] == 0 <==> inner[l] * inc == 0;
    if a[cell] == 0 {
      a[cell] := next * PAGE;
    } else {
      a[cell] := a[cell] + PAGE * g;
    }
  }

  /** The builder's loop over the lines of one page. */
  method LinkPage(a: array<nat>, g: nat, next: nat, inc: nat, ghost inner: seq<nat>)
    requires inc > 0 && |inner| * inc == PAGE
    requires HoldsAt(a[..], inner, Base(g), 0, inc)
    modifies a
    ensures PageLinked(a[..], g, next, inner, inc)
    ensures forall c :: 0 <= c < a.Length && !OnStride(c, Base(g), inc, |inner|) ==> a[c] == old(a[c])
  {
    assert forall m :: 0 <= m < |inner| ==> EntryAt(a[..], inner, Base(g), 0, inc, m);
    ghost var l: nat := 0;
    var element := 0;
    while element < PAGE
      invariant element == l * inc && l <= |inner|
      invariant forall m :: 0 <= m < l ==> LineLinked(a[..], g, next, inner, inc, m)
      invariant forall m :: l <= m < |inner| ==> EntryAt(a[..], inner, Base(g), 0, inc, m)
      invariant forall c :: 0 <= c < a.Length && !OnStride(c, Base(g), inc, |inner|) ==> a[c] == old(a[c])
      decreases PAGE - element
    {
      FactorBelow(l, |inner|, inc);
      ghost var before := a[..];
      assert EntryAt(before, inner, Base(g), 0, inc, l);
      LinkLine(a, g, next, inc, inner, l, element);
      forall m | 0 <= m < l
        ensures LineLinked(a[..], g, next, inner, inc, m)
      {
        assert LineLinked(before, g, next, inner, inc, m);
        CellInjective(Base(g), inc, m, l);
      }
      forall m | l < m < |inner|
        ensures EntryAt(a[..], inner, Base(g), 0, inc, m)
      {
        assert EntryAt(before, inner, Base(g), 0, inc, m);
        CellInjective(Base(g), inc, m, l);
      }
      l := l + 1;
      element := element + inc;
    }
    if l < |inner| { MulStep(l, |inner|, inc); }
  }

  /** One round of the builder's page loop. */
  method FillPage(a: array<nat>, g: nat, next: nat, byteIncrement: nat, rng: Rand)
    requires byteIncrement >= 4 && PAGE % (byteIncrement / 4) == 0 && Base(g + 1) <= a.Length
    modifies a, rng
    ensures var inc := byteIncrement / 4;
      && PageLinked(a[..], g, next, Shuffled(Lines(inc), rng.stream, old(rng.calls)), inc)
      && (forall c :: 0 <= c < a.Length && !OnStride(c, Base(g), inc, Lines(inc)) ==> a[c] == old(a[c]))
      && rng.calls == old(rng.calls) + Draws(Lines(inc))
  {
    var inc := byteIncrement / 4;
    assert Lines(inc) * inc == PAGE;
    FillPatternArr(a, Base(g), PAGE, byteIncrement, rng);
    LinkPage(a, g, next, inc, Shuffled(Lines(inc), rng.stream, old(rng.calls)));
  }

  /** A page already linked stays linked when another page is filled. */
  lemma OtherPageKept(before: seq<nat>, after: seq<nat>, g: nat, h: nat, next: nat, inner: seq<nat>, inc: nat)
    requires inc > 0 && g != h && |inner| == Lines(inc) && |after| == |before|
    requires PageLinked(before, g, next, inner, inc)
    requires forall c :: 0 <= c < |before| && !OnStride(c, Base(h), inc, Lines(inc)) ==> after[c] == before[c]
    ensures PageLinked(after, g, next, inner, inc)
  {
    forall l | 0 <= l < |inner|
      ensures LineLinked(after, g, next, inner, inc, l)
    {
      assert LineLinked(before, g, next, inner, inc, l);
      OtherPage(g, h, inc, l);
    }
  }

  /** The page loop's body, and what it keeps. */
  method NextPage(a: array<nat>, page: nat, next: nat, byteIncrement: nat, rng: Rand, ghost pages: nat,
        ghost start: nat)
    requires byteIncrement >= 4 && PAGE % (byteIncrement / 4) == 0 && Base(page + 1) <= a.Length && page < pages
    requires rng.calls == PageStart(start, pages, byteIncrement / 4, page)
    requires next == Shuffled(pages, rng.stream, start)[page]
    requires PagesLinked(a[..], page, pages, byteIncrement / 4, rng.stream, start)
    modifies a, rng
    ensures rng.calls == PageStart(start, pages, byteIncrement / 4, page + 1)
    ensures PagesLinked(a[..], page + 1, pages, byteIncrement / 4, rng.stream, start)
    ensures forall c :: 0 <= c < a.Length && !OnPages(c, page + 1, byteIncrement / 4) ==> a[c] == old(a[c])
  {
    ghost var before, inc := a[..], byteIncrement / 4;
    FillPage(a, page, next, byteIncrement, rng);
    forall g | 0 <= g < page
      ensures PageLinked(a[..], g, Shuffled(pages, rng.stream, start)[g],
        LineTable(rng.stream, start, pages, inc, g), inc)
    {
      OtherPageKept(before, a[..], g, page, Shuffled(pages, rng.stream, start)[g],
        LineTable(rng.stream, start, pages, inc, g), inc);
    }
    forall c | 0 <= c < a.Length && !OnPages(c, page + 1, inc)
      ensures a[c] == old(a[c])
    {
      assert 0 <= page < page + 1;
    }
  }

  /** Draws the table that says which page follows which. */
  method DrawPageTable(pages: nat, rng: Rand) returns (table: array<nat>)
    requires pages < TWO_TO_31
    modifies rng
    ensures fresh(table) && table[..] == Shuffled(pages, rng.stream, old(rng.calls))
    ensures rng.calls == old(rng.calls) + Draws(pages)
  {
    table := new nat[pages];
    FillPatternArr(table, 0, pages, 4, rng);
    ghost var p := Shuffled(pages, rng.stream, old(rng.calls));
    assert pages / 1 == pages;
    forall g | 0 <= g < pages
      ensures table[g] == p[g]
    {
      assert EntryAt(table[..], p, 0, 0, 1, g);
    }
  }

  /** What FillPageByPage leaves behind. */
  ghost predicate BuiltPageByPage(before: seq<nat>, after: seq<nat>, listSize: nat, inc: nat, stream: nat -> nat,
        calls: nat)
    requires inc > 0
  {
    && |after| == |before|
    && if PageCount(listSize) <= 2 then
         Filled(before, after, 0, 0, inc, listSize / inc, stream, calls)
       else
         && PagesLinked(after, PageCount(listSize), TablePages(listSize), inc, stream, calls)
         && forall c :: 0 <= c < |after| && !OnPages(c, PageCount(listSize), inc) ==> after[c] == before[c]
  }

  /** With at most two whole pages the list is filled without regard to pages. The list must be
      below 4 GiB, where pageCount * PAGE_SIZE fits 32 bits, and lines must not straddle pages:
      the line loop visits a cell that nothing filled otherwise. */
  method FillPageByPage(a: array<nat>, listSize: nat, byteIncrement: nat, rng: Rand)
    requires byteIncrement >= 4 && PAGE % (byteIncrement / 4) == 0
    requires listSize <= a.Length && listSize < TWO_TO_30
    modifies a, rng
    ensures BuiltPageByPage(old(a[..]), a[..], listSize, byteIncrement / 4, rng.stream, old(rng.calls))
  {
    var pageCount := listSize * 4 / 4096;
    if pageCount <= 2 {
      FillPatternArr(a, 0, listSize, byteIncrement, rng);
    } else {
      var extraPage := 0;
      if pageCount * 4096 / 4 < listSize {
        extraPage := 1;
      }
      FillPages(a, pageCount, pageCount + extraPage, byteIncrement, rng);
    }
  }

  method FillPages(a: array<nat>, pageCount: nat, pages: nat, byteIncrement: nat, rng: Rand)
    requires byteIncrement >= 4 && PAGE % (byteIncrement / 4) == 0
    requires pageCount * PAGE <= a.Length && pageCount <= pages < TWO_TO_31
    modifies a, rng
    ensures var inc := byteIncrement / 4;
      && PagesLinked(a[..], pageCount, pages, inc, rng.stream, old(rng.calls))
      && forall c :: 0 <= c < a.Length && !OnPages(c, pageCount, inc) ==> a[c] == old(a[c])
  {
    ghost var inc, start := byteIncrement / 4, rng.calls;
    var pagePattern := DrawPageTable(pages, rng);
    for page := 0 to pageCount
      invariant rng.calls == PageStart(start, pages, inc, page)
      invariant pagePattern[..] == Shuffled(pages, rng.stream, start)
      invariant PagesLinked(a[..], page, pages, inc, rng.stream, start)
      invariant forall c :: 0 <= c < a.Length && !OnPages(c, page, inc) ==> a[c] == old(a[c])
    {
      assert pagePattern[page] == pagePattern[..][page];
      NextPage(a, page, pagePattern[page], byteIncrement, rng, pages, start);
      assert forall c :: OnPages(c, page, inc) ==> OnPages(c, page + 1, inc);
    }
  }
}
