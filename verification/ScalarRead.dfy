/** scalar_read of MemoryBandwidth.c: eight accumulators over the array, pass after pass, and the bytes that
    MeasureBw counts for it. */
module ScalarRead {
  import opened Common

  /** The arithmetic of a number type, with whatever rounding, infinities and NaNs it has. */
  datatype Arithmetic<!F> = Arithmetic(zero: F, one: F, add: (F, F) -> F, mul: (F, F) -> F)

  /** One step of an accumulator: lanes 0, 2, 4 and 6 add, the others multiply. */
  function Accumulate<F>(f: Arithmetic<F>, lane: nat, x: F, y: F): F {
    if lane % 2 == 0 then f.add(x, y) else f.mul(x, y)
  }

  /** What the accumulator of a lane holds after `passes` whole passes and `blocks` further blocks of eight:
      the elements of its lane folded in, one after the other, in the order of the array and of the passes. */
  ghost function Lane<F>(f: Arithmetic<F>, a: seq<F>, lane: nat, passes: nat, blocks: nat): F
    requires lane < 8 && 8 * blocks <= |a|
    decreases passes, blocks
  {
    if blocks > 0 then Accumulate(f, lane, Lane(f, a, lane, passes, blocks - 1), a[8 * (blocks - 1) + lane])
    else if passes > 0 then Lane(f, a, lane, passes - 1, |a| / 8)
    else if lane % 2 == 0 then f.zero else f.one
  }

  /** What the eight accumulators hold. */
  ghost predicate Accumulated<F(!new)>(f: Arithmetic<F>, a: seq<F>, s: seq<F>, passes: nat, blocks: nat)
    requires 8 * blocks <= |a|
  {
    |s| == 8 && forall lane :: 0 <= lane < 8 ==> s[lane] == Lane(f, a, lane, passes, blocks)
  }

  /** The accumulators added up, from the first to the last. */
  function Total<F>(f: Arithmetic<F>, s: seq<F>): F
    requires |s| == 8
  {
    var pairs := f.add(f.add(f.add(s[0], s[1]), s[2]), s[3]);
    f.add(f.zero, f.add(f.add(f.add(f.add(pairs, s[4]), s[5]), s[6]), s[7]))
  }

  /** What scalar_read returns. */
  ghost function LanesTotal<F>(f: Arithmetic<F>, a: seq<F>, passes: nat): F {
    Total(f, [Lane(f, a, 0, passes, 0), Lane(f, a, 1, passes, 0), Lane(f, a, 2, passes, 0), Lane(f, a, 3, passes, 0),
              Lane(f, a, 4, passes, 0), Lane(f, a, 5, passes, 0), Lane(f, a, 6, passes, 0), Lane(f, a, 7, passes, 0)])
  }

  lemma TotalOf<F(!new)>(f: Arithmetic<F>, a: seq<F>, s: seq<F>, passes: nat)
    requires Accumulated(f, a, s, passes, 0)
    ensures Total(f, s) == LanesTotal(f, a, passes)
  {
  }

  /** One turn of the loop body on the accumulators s1, ..., s8. */
  method ReadBlock<F(!new)>(f: Arithmetic<F>, arr: array<F>, i: nat, s: seq<F>, ghost passes: nat, ghost block: nat)
    returns (t: seq<F>)
    requires i == 8 * block && i + 8 <= arr.Length && Accumulated(f, arr[..], s, passes, block)
    ensures Accumulated(f, arr[..], t, passes, block + 1)
    ensures |t| == 8 && forall lane :: 0 <= lane < 8 ==> t[lane] == Accumulate(f, lane, s[lane], arr[i + lane])
  {
    t := [f.add(s[0], arr[i]), f.mul(s[1], arr[i + 1]), f.add(s[2], arr[i + 2]), f.mul(s[3], arr[i + 3]),
          f.add(s[4], arr[i + 4]), f.mul(s[5], arr[i + 5]), f.add(s[6], arr[i + 6]), f.mul(s[7], arr[i + 7])];
    assert forall lane :: 0 <= lane < 8 ==> t[lane] == Accumulate(f, lane, s[lane], arr[8 * block + lane]);
  }

  /** The end of a pass is the beginning of the next. */
  lemma PassDone<F(!new)>(f: Arithmetic<F>, a: seq<F>, s: seq<F>, passes: nat, blocks: nat)
    requires 8 * blocks <= |a| && 8 * blocks + 7 >= |a| && Accumulated(f, a, s, passes, blocks)
    ensures Accumulated(f, a, s, passes + 1, 0)
    ensures (passes + 1) * (|a| / 8 * 8) == passes * (|a| / 8 * 8) + 8 * blocks
  {
    assert blocks == |a| / 8;
    NextMultiple(passes, 8 * blocks);
  }

  /** With start 0, as every caller passes it; elementsRead counts the loads. Each pass reads every whole
      block of eight once, so the elements read are those that the bandwidth figure counts exactly if the
      length is a multiple of eight, as it is for whole kilobytes. */
  method ScalarRead<F(!new)>(f: Arithmetic<F>, arr: array<F>, iterations: nat) returns (sum: F, elementsRead: nat)
    ensures arr.Length <= 16 ==> sum == f.zero && elementsRead == 0
    ensures arr.Length > 16 ==>
      && sum == LanesTotal(f, arr[..], iterations)
      && elementsRead == iterations * (arr.Length / 8 * 8)
      && (elementsRead == iterations * arr.Length <==> arr.Length % 8 == 0 || iterations == 0)
  {
    elementsRead := 0;
    if 16 >= arr.Length {
      return f.zero, 0;
    }
    var acc := [f.zero, f.one, f.zero, f.one, f.zero, f.one, f.zero, f.one];
    var iterIdx, i := 0, 0;
    ghost var block := 0;
    while iterIdx < iterations
      invariant iterIdx <= iterations && i == 8 * block && i + 8 <= arr.Length && (iterIdx == iterations ==> i == 0)
      invariant Accumulated(f, arr[..], acc, iterIdx, block)
      invariant elementsRead == iterIdx * (arr.Length / 8 * 8) + i
      decreases iterations - iterIdx, arr.Length - i
    {
      acc := ReadBlock(f, arr, i, acc, iterIdx, block);
      elementsRead := elementsRead + 8;
      i, block := i + 8, block + 1;
      if i + 7 >= arr.Length {
        PassDone(f, arr[..], acc, iterIdx, block);
        i, block := 0, 0;
      }
      if i == 0 {
        iterIdx := iterIdx + 1;
      }
    }
    sum := Total(f, acc);
    TotalOf(f, arr[..], acc, iterations);
    CountedExactly(iterations, arr.Length);
  }

  lemma CountedExactly(iterations: nat, length: nat)
    ensures iterations * (length / 8 * 8) == iterations * length <==> length % 8 == 0 || iterations == 0
  {
    assert length == length / 8 * 8 + length % 8;
    assert iterations * length == iterations * (length / 8 * 8) + iterations * (length % 8);
    if iterations > 0 && length % 8 > 0 {
      assert iterations * (length % 8) > 0;
    }
  }

  // ----- Without rounding -----

  function Exact(): Arithmetic<real> {
    Arithmetic(0.0, 1.0, (x: real, y: real) => x + y, (x: real, y: real) => x * y)
  }

  /** Sum and product of the elements 8 * k + lane of the first `blocks` blocks of eight. */
  ghost function LaneSum(a: seq<real>, lane: nat, blocks: nat): real
    requires lane < 8 && 8 * blocks <= |a|
  {
    if blocks == 0 then 0.0 else LaneSum(a, lane, blocks - 1) + a[8 * (blocks - 1) + lane]
  }

  ghost function LaneProduct(a: seq<real>, lane: nat, blocks: nat): real
    requires lane < 8 && 8 * blocks <= |a|
  {
    if blocks == 0 then 1.0 else LaneProduct(a, lane, blocks - 1) * a[8 * (blocks - 1) + lane]
  }

  ghost function Power(x: real, n: nat): real {
    if n == 0 then 1.0 else Power(x, n - 1) * x
  }

  /** In exact arithmetic an adding lane holds a multiple of the sum of its elements and a part of the pass
      under way. */
  lemma {:induction false} ExactSum(a: seq<real>, lane: nat, passes: nat, blocks: nat)
    requires lane < 8 && 8 * blocks <= |a| && lane % 2 == 0
    ensures Lane(Exact(), a, lane, passes, blocks) ==
      passes as real * LaneSum(a, lane, |a| / 8) + LaneSum(a, lane, blocks)
    decreases passes, blocks
  {
    if blocks > 0 {
      ExactSum(a, lane, passes, blocks - 1);
    } else if passes > 0 {
      ExactSum(a, lane, passes - 1, |a| / 8);
      OneMore((passes - 1) as real, LaneSum(a, lane, |a| / 8));
    }
  }

  /** A multiplying lane holds a power of the product of its elements, times a part of the pass. */
  lemma {:induction false} ExactProduct(a: seq<real>, lane: nat, passes: nat, blocks: nat)
    requires lane < 8 && 8 * blocks <= |a| && lane % 2 == 1
    ensures Lane(Exact(), a, lane, passes, blocks) ==
      Power(LaneProduct(a, lane, |a| / 8), passes) * LaneProduct(a, lane, blocks)
    decreases passes, blocks
  {
    if blocks > 0 {
      ExactProduct(a, lane, passes, blocks - 1);
      Associative(Power(LaneProduct(a, lane, |a| / 8), passes), LaneProduct(a, lane, blocks - 1),
        a[8 * (blocks - 1) + lane]);
    } else if passes > 0 {
      ExactProduct(a, lane, passes - 1, |a| / 8);
    }
  }

  /** In exact arithmetic scalar_read returns the sum of the four adding lanes over all passes, and the four
      products, each to the power of the passes. */
  lemma ExactTotal(a: seq<real>, passes: nat)
    ensures var n := |a| / 8;
      LanesTotal(Exact(), a, passes) ==
        passes as real * (LaneSum(a, 0, n) + LaneSum(a, 2, n) + LaneSum(a, 4, n) + LaneSum(a, 6, n))
        + Power(LaneProduct(a, 1, n), passes) + Power(LaneProduct(a, 3, n), passes)
        + Power(LaneProduct(a, 5, n), passes) + Power(LaneProduct(a, 7, n), passes)
  {
    LanesAddUp(a, passes);
    AddingLanes(a, passes);
    MultiplyingLane(a, 1, passes); MultiplyingLane(a, 3, passes);
    MultiplyingLane(a, 5, passes); MultiplyingLane(a, 7, passes);
  }

  lemma AddingLanes(a: seq<real>, passes: nat)
    ensures var n := |a| / 8;
      Lane(Exact(), a, 0, passes, 0) + Lane(Exact(), a, 2, passes, 0) + Lane(Exact(), a, 4, passes, 0)
      + Lane(Exact(), a, 6, passes, 0) ==
        passes as real * (LaneSum(a, 0, n) + LaneSum(a, 2, n) + LaneSum(a, 4, n) + LaneSum(a, 6, n))
  {
    var n := |a| / 8;
    AddingLane(a, 0, passes); AddingLane(a, 2, passes); AddingLane(a, 4, passes); AddingLane(a, 6, passes);
    FourTimes(passes as real, LaneSum(a, 0, n), LaneSum(a, 2, n), LaneSum(a, 4, n), LaneSum(a, 6, n));
  }

  lemma LanesAddUp(a: seq<real>, passes: nat)
    ensures LanesTotal(Exact(), a, passes) ==
      Lane(Exact(), a, 0, passes, 0) + Lane(Exact(), a, 1, passes, 0) + Lane(Exact(), a, 2, passes, 0)
      + Lane(Exact(), a, 3, passes, 0) + Lane(Exact(), a, 4, passes, 0) + Lane(Exact(), a, 5, passes, 0)
      + Lane(Exact(), a, 6, passes, 0) + Lane(Exact(), a, 7, passes, 0)
  {
    TotalOfExact([Lane(Exact(), a, 0, passes, 0), Lane(Exact(), a, 1, passes, 0), Lane(Exact(), a, 2, passes, 0),
                  Lane(Exact(), a, 3, passes, 0), Lane(Exact(), a, 4, passes, 0), Lane(Exact(), a, 5, passes, 0),
                  Lane(Exact(), a, 6, passes, 0), Lane(Exact(), a, 7, passes, 0)]);
  }

  lemma TotalOfExact(s: seq<real>)
    requires |s| == 8
    ensures Total(Exact(), s) == s[0] + s[1] + s[2] + s[3] + s[4] + s[5] + s[6] + s[7]
  {
  }

  lemma AddingLane(a: seq<real>, lane: nat, passes: nat)
    requires lane < 8 && lane % 2 == 0
    ensures Lane(Exact(), a, lane, passes, 0) == passes as real * LaneSum(a, lane, |a| / 8)
  {
    ExactSum(a, lane, passes, 0);
  }

  lemma MultiplyingLane(a: seq<real>, lane: nat, passes: nat)
    requires lane < 8 && lane % 2 == 1
    ensures Lane(Exact(), a, lane, passes, 0) == Power(LaneProduct(a, lane, |a| / 8), passes)
  {
    ExactProduct(a, lane, passes, 0);
  }

  lemma FourTimes(n: real, w: real, x: real, y: real, z: real)
    ensures n * (w + x + y + z) == n * w + n * x + n * y + n * z
  {
  }

  lemma Associative(x: real, y: real, z: real)
    ensures x * (y * z) == (x * y) * z
  {
  }

  lemma OneMore(n: real, x: real)
    ensures (n + 1.0) * x == n * x + x
  {
  }

  // ----- MeasureBw's accounting -----

  /** The elements each thread reads through: the whole list if it is shared, else its part, rounded up
      to whole kilobytes. */
  function ElementsPerThread(sizeKb: nat, threads: nat, shared: bool): (elements: nat)
    requires threads > 0
    ensures shared ==> elements * 4 == sizeKb * 1024
  {
    if shared then sizeKb * 1024 / 4 else (sizeKb + threads - 1) / threads * 256
  }

  /** How often each thread reads through them. */
  function Passes(iterations: nat, threads: nat, shared: bool): nat {
    if shared then iterations else iterations * threads
  }

  /** MeasureBw with scalar_read as the tested function, up to the division by the elapsed time: `figure` is the
      number of bytes that the result is computed from, `bytesRead` what the threads have read. The two agree,
      and too many private threads are refused. The 64-bit product of the source is that of all but the last
      factor, which it applies to the floating-point result. */
  method MeasureBw<F(!new)>(f: Arithmetic<F>, fill: (nat, nat) -> F, sizeKb: nat, iterations: nat, threads: nat,
        shared: bool)
    returns (figure: nat, ghost bytesRead: nat)
    requires threads > 0
    requires iterations * (4 * ElementsPerThread(sizeKb, threads, shared)) * threads < 0x1_0000_0000_0000_0000
    ensures figure == bytesRead
    ensures !shared && sizeKb < threads ==> figure == 0
    ensures shared || sizeKb >= threads ==>
      figure == threads * (4 * (Passes(iterations, threads, shared) * ElementsPerThread(sizeKb, threads, shared)))
    ensures shared || sizeKb >= threads ==>
      && figure >= threads * iterations * (sizeKb * 1024)
      && (figure == threads * iterations * (sizeKb * 1024) <==> shared || sizeKb % threads == 0 || iterations == 0)
  {
    bytesRead := 0;
    if !shared && sizeKb < threads {
      return 0, 0;
    }
    var elements := if shared then sizeKb * 1024 / 4 else (sizeKb + threads - 1) / threads * 256;
    WholeKilobytes(sizeKb, threads, shared);
    var testArr := new F[elements](i requires 0 <= i => fill(0, i));
    var passes := if shared then iterations else iterations * threads;
    for t := 0 to threads
      invariant bytesRead == t * (4 * (passes * elements))
    {
      var arr := testArr;
      if !shared {
        arr := new F[elements](i requires 0 <= i => fill(t, i));
      }
      var sum, read := ScalarRead(f, arr, passes);
      AllRead(passes, elements, read);
      NextMultiple(t, 4 * (passes * elements));
      bytesRead := bytesRead + 4 * read;
    }
    figure := iterations * 4 * elements * threads;
    if !shared {
      figure := figure * threads;
    }
    Figure(iterations, elements, threads, shared);
    FigureForSize(iterations, sizeKb, threads, shared);
  }

  /** Every thread's part is a whole number of kilobytes, so no element is left out of a pass. */
  lemma WholeKilobytes(sizeKb: nat, threads: nat, shared: bool)
    requires threads > 0
    ensures ElementsPerThread(sizeKb, threads, shared) % 256 == 0
  {
    Kilobytes(sizeKb);
    Kilobytes((sizeKb + threads - 1) / threads);
  }

  lemma Kilobytes(k: nat)
    ensures k * 256 % 256 == 0 && k * 1024 / 4 == k * 256
  {
  }

  lemma AllRead(passes: nat, elements: nat, read: nat)
    requires elements % 256 == 0
    requires if elements <= 16 then read == 0 else read == passes * (elements / 8 * 8)
    ensures read == passes * elements
  {
    if elements <= 16 {
      assert elements == 0;
    } else {
      assert elements / 8 * 8 == elements;
    }
  }

  lemma Figure(iterations: nat, elements: nat, threads: nat, shared: bool)
    ensures iterations * 4 * elements * threads * (if shared then 1 else threads) ==
      threads * (4 * (Passes(iterations, threads, shared) * elements))
  {
    if !shared {
      Product(iterations, elements, threads);
    } else {
      assert iterations * 4 * elements * threads == threads * (4 * (iterations * elements));
    }
  }

  lemma Product(i: nat, e: nat, t: nat)
    ensures i * 4 * e * t * t == t * (4 * ((i * t) * e))
  {
    var x := i * e;
    assert i * 4 * e == 4 * x;
    assert (i * t) * e == t * x;
    assert 4 * x * t * t == t * (4 * (t * x));
  }

  /** The private parts of all threads together cover the requested size, with less than a kilobyte more for
      each thread, and with nothing more exactly if it divides evenly. */
  lemma PrivateSizes(sizeKb: nat, threads: nat)
    requires threads > 0
    ensures var total := threads * ElementsPerThread(sizeKb, threads, false);
      && sizeKb * 256 <= total < (sizeKb + threads) * 256
      && (total == sizeKb * 256 <==> sizeKb % threads == 0)
  {
    var q, r := (sizeKb + threads - 1) / threads, (sizeKb + threads - 1) % threads;
    assert threads * (q * 256) == (q * threads) * 256;
    assert q * threads + r == sizeKb + threads - 1;
    if sizeKb % threads == 0 {
      var k := sizeKb / threads;
      assert sizeKb == k * threads;
      Quotient(sizeKb + threads - 1, threads, k, threads - 1);
    } else if q * threads == sizeKb {
      Quotient(sizeKb, threads, q, 0);
    }
  }

  /** The figure counts the requested size once for each iteration and thread, and more only if private parts
      were rounded up. */
  lemma FigureForSize(iterations: nat, sizeKb: nat, threads: nat, shared: bool)
    requires threads > 0
    ensures var figure := threads * (4 * (Passes(iterations, threads, shared) * ElementsPerThread(sizeKb, threads,
        shared)));
      && figure >= threads * iterations * (sizeKb * 1024)
      && (figure == threads * iterations * (sizeKb * 1024) <==> shared || sizeKb % threads == 0 || iterations == 0)
  {
    var e := ElementsPerThread(sizeKb, threads, shared);
    var once := if shared then e else threads * e;
    PassesTimes(iterations, threads, shared, e);
    if !shared { PrivateSizes(sizeKb, threads); }
    FourTimesMore(threads, iterations, once, sizeKb * 256);
  }

  lemma PassesTimes(iterations: nat, threads: nat, shared: bool, e: nat)
    ensures Passes(iterations, threads, shared) * e == iterations * (if shared then e else threads * e)
  {
  }

  lemma FourTimesMore(threads: nat, iterations: nat, x: nat, y: nat)
    requires threads > 0 && x >= y
    ensures threads * (4 * (iterations * x)) >= threads * iterations * (4 * y)
    ensures threads * (4 * (iterations * x)) == threads * iterations * (4 * y) <==> x == y || iterations == 0
  {
    var n := threads * iterations;
    assert threads * (4 * (iterations * x)) == n * (4 * x);
    MulMono(4 * y, 4 * x, n);
    if x > y && n > 0 { MulStep(4 * y, 4 * x, n); }
    assert iterations > 0 ==> n > 0;
  }
}
