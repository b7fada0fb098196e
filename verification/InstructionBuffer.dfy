/** FillInstructionArray of MemoryBandwidth.c for x86: the linear fills and the call/return layout,
    written byte by byte, and what one call of the finished buffer fetches. */
module InstructionBuffer {
  import opened Common
  import opened X86

  /** What the bandwidth figure counts per call: sizeof(float) for each of sizeKb * 1024 / 4 elements. */
  function BytesCounted(sizeKb: nat): nat { sizeKb * 1024 / 4 * 4 }

  /** `*(uint64_t *)(dst) = *nop8bptr` */
  method Put(a: array<byte>, o: nat, p: seq<byte>)
    requires o + |p| <= a.Length
    modifies a
    ensures Has(a[..], o, p)
    ensures forall c :: 0 <= c < a.Length && !(o <= c < o + |p|) ==> a[c] == old(a[c])
  {
    forall i | 0 <= i < |p| {
      a[o + i] := p[i];
    }
    assert a[..][o..o + |p|] == p;
  }

  // ----- Linear fills -----

  /** The sizes that the x86 build supports besides the call layout. */
  predicate Supported(nopSize: int) { nopSize == 8 || nopSize == 4 || nopSize == 2 || nopSize == 3 }

  function Pattern(nopSize: int): (p: seq<byte>)
    requires Supported(nopSize)
    ensures |p| == 8
  {
    if nopSize == 8 then NOP8 else if nopSize == 4 then NOP4 else if nopSize == 2 then XOR2 else K8NOP4
  }

  /** The contents of 8-byte slot idx. */
  function Slot(nopSize: int, branchInterval: int, idx: nat): (p: seq<byte>)
    requires Supported(nopSize)
    ensures |p| == 8
  {
    if branchInterval > 1 && idx % branchInterval == 0 then NOP4_BRANCH else Pattern(nopSize)
  }

  ghost predicate LinearFill(b: seq<byte>, sizeKb: nat, nopSize: int, branchInterval: int)
    requires Supported(nopSize) && sizeKb > 0
  {
    && (forall idx :: 0 <= idx < sizeKb * 128 - 1 ==> Has(b, 8 * idx, Slot(nopSize, branchInterval, idx)))
    && Has(b, sizeKb * 1024 - 8, [0xC3])
  }

  /** The loop over all slots but the last, then the return. */
  method FillLinear(nops: array<byte>, sizeKb: nat, nopSize: int, branchInterval: int)
    requires 0 < sizeKb && Supported(nopSize) && sizeKb * 1024 <= nops.Length
    modifies nops
    ensures LinearFill(nops[..], sizeKb, nopSize, branchInterval)
    ensures forall c :: sizeKb * 1024 - 7 <= c < nops.Length ==> nops[c] == old(nops[c])
  {
    var elements := sizeKb * 1024 / 8 - 1;
    assert elements == sizeKb * 128 - 1;
    FillSlots(nops, elements, nopSize, branchInterval);
    ghost var before := nops[..];
    Put(nops, 8 * elements, [0xC3]);
    SlotsKept(before, nops[..], elements, nopSize, branchInterval);
  }

  method FillSlots(nops: array<byte>, elements: nat, nopSize: int, branchInterval: int)
    requires Supported(nopSize) && 8 * elements <= nops.Length
    modifies nops
    ensures forall idx :: 0 <= idx < elements ==> Has(nops[..], 8 * idx, Slot(nopSize, branchInterval, idx))
    ensures forall c :: 8 * elements <= c < nops.Length ==> nops[c] == old(nops[c])
  {
    for nopIdx := 0 to elements
      invariant forall idx :: 0 <= idx < nopIdx ==> Has(nops[..], 8 * idx, Slot(nopSize, branchInterval, idx))
      invariant forall c :: 8 * nopIdx <= c < nops.Length ==> nops[c] == old(nops[c])
    {
      ghost var before := nops[..];
      var word := Pattern(nopSize);
      if branchInterval > 1 && nopIdx % branchInterval == 0 {
        word := NOP4_BRANCH;
      }
      assert word == Slot(nopSize, branchInterval, nopIdx);
      Put(nops, 8 * nopIdx, word);
      SlotsKept(before, nops[..], nopIdx, nopSize, branchInterval);
    }
  }

  lemma SlotsKept(before: seq<byte>, after: seq<byte>, count: nat, nopSize: int, branchInterval: int)
    requires Supported(nopSize) && |after| == |before|
    requires forall idx :: 0 <= idx < count ==> Has(before, 8 * idx, Slot(nopSize, branchInterval, idx))
    requires forall c :: 0 <= c < 8 * count && c < |before| ==> after[c] == before[c]
    ensures forall idx :: 0 <= idx < count ==> Has(after, 8 * idx, Slot(nopSize, branchInterval, idx))
  {
    forall idx | 0 <= idx < count
      ensures Has(after, 8 * idx, Slot(nopSize, branchInterval, idx))
    {
      HasKept(before, after, 8 * idx, Slot(nopSize, branchInterval, idx));
    }
  }

  /** How many instructions the slot executes. */
  function SlotInstructions(nopSize: int, branchInterval: int, idx: nat): nat
    requires Supported(nopSize)
  {
    if branchInterval > 1 && idx % branchInterval == 0 then 3
    else if nopSize == 8 then 1
    else if nopSize == 2 then 4
    else 2
  }

  lemma SlotIsStraight(b: seq<byte>, o: nat, nopSize: int, branchInterval: int, idx: nat)
    requires Supported(nopSize) && Has(b, o, Slot(nopSize, branchInterval, idx))
    ensures Straight(b, o, 8, SlotInstructions(nopSize, branchInterval, idx))
  {
    if branchInterval > 1 && idx % branchInterval == 0 {
      BranchPatternIsStraight(b, o);
    } else if nopSize == 8 {
      Nop8IsStraight(b, o);
    } else if nopSize == 4 {
      Nop4IsStraight(b, o);
    } else if nopSize == 2 {
      Xor2IsStraight(b, o);
    } else {
      K8NopIsStraight(b, o);
    }
  }

  /** How many instructions the first `count` slots execute. */
  function Instructions(nopSize: int, branchInterval: int, count: nat): nat
    requires Supported(nopSize)
  {
    if count == 0 then 0
    else Instructions(nopSize, branchInterval, count - 1) + SlotInstructions(nopSize, branchInterval, count - 1)
  }

  lemma {:induction false} SlotsAreStraight(b: seq<byte>, sizeKb: nat, nopSize: int, branchInterval: int, count: nat)
    requires Supported(nopSize) && sizeKb > 0 && count < sizeKb * 128 && LinearFill(b, sizeKb, nopSize, branchInterval)
    ensures Straight(b, 0, 8 * count, Instructions(nopSize, branchInterval, count))
  {
    if count == 0 {
      NothingIsStraight(b, 0);
    } else {
      var k := count - 1;
      SlotsAreStraight(b, sizeKb, nopSize, branchInterval, k);
      SlotIsStraight(b, 8 * k, nopSize, branchInterval, k);
      Appended(b, 0, 8 * k, Instructions(nopSize, branchInterval, k), 8, SlotInstructions(nopSize, branchInterval, k),
        8 * count, Instructions(nopSize, branchInterval, count));
    }
  }

  /** A call of the buffer comes back to its caller having fetched exactly these addresses, in order. */
  ghost predicate Fetches(b: seq<byte>, addresses: seq<nat>) {
    exists n: nat :: Executes(b, n, addresses)
  }

  /** The call executes n instructions. */
  predicate Executes(b: seq<byte>, n: nat, addresses: seq<nat>) {
    Run(b, Running(0, [], []), n) == Some(Returned(addresses))
  }

  lemma {:induction false} NothingAfterReturn(b: seq<byte>, m: Machine, n: nat, k: nat, s: seq<nat>, t: seq<nat>)
    requires n <= k && Run(b, m, n) == Some(Returned(s)) && Run(b, m, k) == Some(Returned(t))
    ensures s == t
  {
    RunAdd(b, m, n, Returned(s), k - n);
    assert Step(b, Returned(s)) == None;
  }

  /** A buffer fetches one sequence of addresses only. */
  lemma FetchesUnique(b: seq<byte>, s: seq<nat>, t: seq<nat>)
    requires Fetches(b, s) && Fetches(b, t)
    ensures s == t
  {
    var start := Running(0, [], []);
    var n: nat :| Executes(b, n, s);
    var k: nat :| Executes(b, k, t);
    if n <= k {
      NothingAfterReturn(b, start, n, k, s, t);
    } else {
      NothingAfterReturn(b, start, k, n, t, s);
    }
  }

  /** One call of the buffer fetches these addresses in this order and no others. */
  ghost predicate FetchesExactly(b: seq<byte>, s: seq<nat>) {
    forall t :: Fetches(b, t) <==> t == s
  }

  lemma FetchesOnly(b: seq<byte>, s: seq<nat>)
    requires Fetches(b, s)
    ensures FetchesExactly(b, s)
  {
    forall t | Fetches(b, t)
      ensures t == s
    {
      FetchesUnique(b, s, t);
    }
  }

  /** A return with no call outstanding ends the run. */
  lemma FinalReturn(b: seq<byte>, ip: nat, n: nat)
    requires Straight(b, 0, ip, n) && Has(b, ip, [0xC3])
    ensures Executes(b, n + 1, Range(0, ip + 1))
  {
    assert [] + Range(0, ip) == Range(0, ip);
    var mid := Running(ip, [], [] + Range(0, ip));
    assert Run(b, Running(0, [], []), n) == Some(mid);
    HasAt(b, ip, [0xC3], 0);
    RunAdd(b, Running(0, [], []), n, mid, 1);
    OneStep(b, mid);
    RangeAdd(0, ip, 1);
  }

  /** Called once, a linear fill runs from its first byte to its return, fetches every byte in between
      exactly once and in order, and nothing else. That is seven bytes less than the figure counts:
      the rest of the last slot is behind the return. */
  lemma LinearFillFetches(b: seq<byte>, sizeKb: nat, nopSize: int, branchInterval: int)
    requires 0 < sizeKb && Supported(nopSize) && LinearFill(b, sizeKb, nopSize, branchInterval)
    ensures FetchesExactly(b, Range(0, BytesCounted(sizeKb) - 7))
    ensures forall addresses :: Fetches(b, addresses) ==> |addresses| + 7 == BytesCounted(sizeKb)
  {
    CountedIsSize(sizeKb);
    var slots := sizeKb * 128 - 1;
    SlotsAreStraight(b, sizeKb, nopSize, branchInterval, slots);
    var n := Instructions(nopSize, branchInterval, slots);
    FinalReturn(b, 8 * slots, n);
    assert Executes(b, n + 1, Range(0, BytesCounted(sizeKb) - 7));
    FetchesOnly(b, Range(0, BytesCounted(sizeKb) - 7));
  }

  lemma CountedIsSize(sizeKb: nat)
    ensures BytesCounted(sizeKb) == sizeKb * 1024
  {
  }

  // ----- The call/return layout -----

  function Repeat(p: seq<byte>, k: nat): (r: seq<byte>)
    ensures |r| == k * |p|
  {
    if k == 0 then [] else Repeat(p, k - 1) + p
  }

  /** A 32-bit value in memory order. */
  function LittleEndian(v: nat): (p: seq<byte>)
    ensures |p| == 4
  {
    var v1 := v / 0x100;
    var v2 := v1 / 0x100;
    [v % 0x100, v1 % 0x100, v2 % 0x100, v2 / 0x100 % 0x100]
  }

  lemma LittleEndianIsSigned(v: nat)
    requires v < 0x8000_0000
    ensures var p := LittleEndian(v); Signed32(p[0], p[1], p[2], p[3]) == v
  {
  }

  function CallHead(rel: nat): (p: seq<byte>)
    ensures |p| == 8
  {
    [0xE8] + LittleEndian(rel) + NOP3
  }

  /** A line that calls, and a line that is called. The last calling line ends in a return. */
  function CallLine(rel: nat, last: bool): (p: seq<byte>)
    ensures |p| == 64
  {
    CallHead(rel) + (if last then Repeat(NOP8, 6) + RET8 else Repeat(NOP8, 7))
  }

  function TargetLine(): (p: seq<byte>)
    ensures |p| == 64
  {
    Repeat(NOP8, 7) + RET8
  }

  /** Calls are in the first half of the buffer, their targets in the second, 512 * sizeKb further on. */
  ghost predicate CallFill(b: seq<byte>, sizeKb: nat)
    requires sizeKb > 0
  {
    forall k :: 0 <= k < 8 * sizeKb ==> CallPair(b, sizeKb, k)
  }

  ghost predicate CallPair(b: seq<byte>, sizeKb: nat, k: nat)
    requires sizeKb > 0
  {
    && Has(b, 64 * k, CallLine(512 * sizeKb - 5, k == 8 * sizeKb - 1))
    && Has(b, 512 * sizeKb + 64 * k, TargetLine())
  }

  method WriteReturn8BBlock(a: array<byte>, o: nat)
    requires o + 8 <= a.Length
    modifies a
    ensures Has(a[..], o, RET8)
    ensures forall c :: 0 <= c < a.Length && !(o <= c < o + 8) ==> a[c] == old(a[c])
  {
    a[o] := 0x0F;
    a[o + 1] := 0x1F;
    a[o + 2] := 0x80;
    for i := 0 to 4
      invariant a[o] == 0x0F && a[o + 1] == 0x1F && a[o + 2] == 0x80
      invariant forall c :: o + 3 <= c < o + 3 + i ==> a[c] == 0
      invariant forall c :: 0 <= c < a.Length && !(o <= c < o + 8) ==> a[c] == old(a[c])
    {
      a[i + 3 + o] := 0;
    }
    a[o + 7] := 0xC3;
    assert a[..][o..o + 8] == RET8;
  }

  /** `count` 8-byte NOPs in a row. */
  method PutNops(a: array<byte>, o: nat, count: nat)
    requires o + 8 * count <= a.Length
    modifies a
    ensures Has(a[..], o, Repeat(NOP8, count))
    ensures forall c :: 0 <= c < a.Length && !(o <= c < o + 8 * count) ==> a[c] == old(a[c])
  {
    for i := 0 to count
      invariant Has(a[..], o, Repeat(NOP8, i))
      invariant forall c :: 0 <= c < a.Length && !(o <= c < o + 8 * i) ==> a[c] == old(a[c])
    {
      ghost var before := a[..];
      Put(a, o + 8 * i, NOP8);
      HasKept(before, a[..], o, Repeat(NOP8, i));
      HasConcat(a[..], o, Repeat(NOP8, i), NOP8);
    }
  }

  method WriteCallHead(a: array<byte>, callOffset: nat, rel: nat)
    requires callOffset + 8 <= a.Length && rel < 0x1_0000_0000
    modifies a
    ensures Has(a[..], callOffset, CallHead(rel))
    ensures forall c :: 0 <= c < a.Length && !(callOffset <= c < callOffset + 8) ==> a[c] == old(a[c])
  {
    a[callOffset] := 0xE8;
    Put(a, callOffset + 1, LittleEndian(rel));
    ghost var p := LittleEndian(rel);
    assert forall i :: 0 <= i < 4 ==> a[callOffset + 1 + i] == p[i] by {
      forall i | 0 <= i < 4 ensures a[callOffset + 1 + i] == p[i] { HasAt(a[..], callOffset + 1, p, i); }
    }
    a[callOffset + 5] := 0x0F;
    a[callOffset + 6] := 0x1F;
    a[callOffset + 7] := 0;
    assert a[..][callOffset..callOffset + 8] == CallHead(rel);
  }

  /** The calling line: head, seven NOPs, and for the last one a return over the seventh. */
  method WriteCallLine(a: array<byte>, callOffset: nat, rel: nat, last: bool)
    requires callOffset + 64 <= a.Length && rel < 0x1_0000_0000
    modifies a
    ensures Has(a[..], callOffset, CallLine(rel, last))
    ensures forall c :: 0 <= c < a.Length && !(callOffset <= c < callOffset + 64) ==> a[c] == old(a[c])
  {
    WriteCallHead(a, callOffset, rel);
    ghost var b1 := a[..];
    PutNops(a, callOffset + 8, 7);
    HasKept(b1, a[..], callOffset, CallHead(rel));
    HasConcat(a[..], callOffset, CallHead(rel), Repeat(NOP8, 7));
    if last {
      ghost var b2 := a[..];
      assert Repeat(NOP8, 7) == Repeat(NOP8, 6) + NOP8;
      HasConcat(b2, callOffset + 8, Repeat(NOP8, 6), NOP8);
      WriteReturn8BBlock(a, callOffset + 56);
      HasKept(b2, a[..], callOffset, CallHead(rel));
      HasKept(b2, a[..], callOffset + 8, Repeat(NOP8, 6));
      HasConcat(a[..], callOffset + 8, Repeat(NOP8, 6), RET8);
      HasConcat(a[..], callOffset, CallHead(rel), Repeat(NOP8, 6) + RET8);
    }
  }

  method WriteTargetLine(a: array<byte>, o: nat)
    requires o + 64 <= a.Length
    modifies a
    ensures Has(a[..], o, TargetLine())
    ensures forall c :: 0 <= c < a.Length && !(o <= c < o + 64) ==> a[c] == old(a[c])
  {
    PutNops(a, o, 7);
    ghost var before := a[..];
    WriteReturn8BBlock(a, o + 56);
    HasKept(before, a[..], o, Repeat(NOP8, 7));
    HasConcat(a[..], o, Repeat(NOP8, 7), RET8);
  }

  /** The layout for nopSize == -1. Up to 4 GiB all offsets fit 32 bits and all displacements are
      positive as signed 32-bit numbers. */
  method FillCalls(nops: array<byte>, sizeKb: nat)
    requires 0 < sizeKb <= 0x40_0000 && sizeKb * 1024 <= nops.Length
    modifies nops
    ensures CallFill(nops[..], sizeKb)
    ensures forall c :: sizeKb * 1024 <= c < nops.Length ==> nops[c] == old(nops[c])
  {
    var callCount := sizeKb * 8;
    for callIdx := 0 to callCount
      invariant forall k :: 0 <= k < callIdx ==> CallPair(nops[..], sizeKb, k)
      invariant forall c :: sizeKb * 1024 <= c < nops.Length ==> nops[c] == old(nops[c])
    {
      FillPair(nops, sizeKb, callIdx);
    }
  }

  /** One round of the loop over the calls. */
  method FillPair(nops: array<byte>, sizeKb: nat, callIdx: nat)
    requires 0 < sizeKb <= 0x40_0000 && sizeKb * 1024 <= nops.Length && callIdx < 8 * sizeKb
    requires forall k :: 0 <= k < callIdx ==> CallPair(nops[..], sizeKb, k)
    modifies nops
    ensures forall k :: 0 <= k <= callIdx ==> CallPair(nops[..], sizeKb, k)
    ensures forall c :: sizeKb * 1024 <= c < nops.Length ==> nops[c] == old(nops[c])
  {
    var destination, rel := Offsets(sizeKb, callIdx);
    ghost var before := nops[..];
    WritePair(nops, sizeKb, callIdx, 64 * callIdx, destination, rel);
    PairsKept(before, nops[..], sizeKb, callIdx);
  }

  /** The target's offset and the displacement, computed in 32 bits, do not wrap around. */
  method Offsets(sizeKb: nat, callIdx: nat) returns (destination: nat, rel: nat)
    requires 0 < sizeKb <= 0x40_0000 && callIdx < 8 * sizeKb
    ensures destination == 512 * sizeKb + 64 * callIdx && rel == 512 * sizeKb - 5 < 0x8000_0000
  {
    var d := (sizeKb * 1024) / 2 + 64 * callIdx;
    assert d == 512 * sizeKb + 64 * callIdx < 0x1_0000_0000;
    destination := d % 0x1_0000_0000;
    rel := (destination - 64 * callIdx - 5) % 0x1_0000_0000;
  }

  method WritePair(nops: array<byte>, sizeKb: nat, callIdx: nat, callOffset: nat, destination: nat, rel: nat)
    requires 0 < sizeKb <= 0x40_0000 && sizeKb * 1024 <= nops.Length && callIdx < 8 * sizeKb
    requires callOffset == 64 * callIdx && destination == 512 * sizeKb + 64 * callIdx && rel == 512 * sizeKb - 5
    modifies nops
    ensures CallPair(nops[..], sizeKb, callIdx)
    ensures forall c :: 0 <= c < nops.Length && !InPair(sizeKb, callIdx, c) ==> nops[c] == old(nops[c])
    ensures forall c :: sizeKb * 1024 <= c < nops.Length ==> nops[c] == old(nops[c])
  {
    WriteCallLine(nops, callOffset, rel, callIdx == 8 * sizeKb - 1);
    ghost var before := nops[..];
    WriteTargetLine(nops, destination);
    HasKept(before, nops[..], callOffset, CallLine(rel, callIdx == 8 * sizeKb - 1));
  }

  predicate InPair(sizeKb: nat, k: nat, c: nat) {
    64 * k <= c < 64 * k + 64 || 512 * sizeKb + 64 * k <= c < 512 * sizeKb + 64 * k + 64
  }

  lemma PairsKept(before: seq<byte>, after: seq<byte>, sizeKb: nat, count: nat)
    requires sizeKb > 0 && |after| == |before| && count < 8 * sizeKb
    requires forall k :: 0 <= k < count ==> CallPair(before, sizeKb, k)
    requires forall c :: 0 <= c < |before| && !InPair(sizeKb, count, c) ==> after[c] == before[c]
    requires CallPair(after, sizeKb, count)
    ensures forall k :: 0 <= k <= count ==> CallPair(after, sizeKb, k)
  {
    forall k | 0 <= k < count
      ensures CallPair(after, sizeKb, k)
    {
      assert CallPair(before, sizeKb, k);
      PairKept(before, after, sizeKb, count, k);
    }
  }

  lemma PairKept(before: seq<byte>, after: seq<byte>, sizeKb: nat, count: nat, k: nat)
    requires sizeKb > 0 && |after| == |before| && k < count < 8 * sizeKb && CallPair(before, sizeKb, k)
    requires forall c :: 0 <= c < |before| && !InPair(sizeKb, count, c) ==> after[c] == before[c]
    ensures CallPair(after, sizeKb, k)
  {
    HasKept(before, after, 64 * k, CallLine(512 * sizeKb - 5, k == 8 * sizeKb - 1));
    HasKept(before, after, 512 * sizeKb + 64 * k, TargetLine());
  }

  /** FillInstructionArray. Any other nopSize makes the source read an uninitialised pointer. */
  method FillInstructionArray(nops: array<byte>, sizeKb: nat, nopSize: int, branchInterval: int)
    requires 0 < sizeKb && sizeKb * 1024 <= nops.Length && (Supported(nopSize) || nopSize == -1)
    requires nopSize == -1 ==> sizeKb <= 0x40_0000
    modifies nops
    ensures if nopSize == -1 then CallFill(nops[..], sizeKb) else LinearFill(nops[..], sizeKb, nopSize, branchInterval)
    ensures forall c :: sizeKb * 1024 <= c < nops.Length ==> nops[c] == old(nops[c])
  {
    if nopSize == -1 {
      FillCalls(nops, sizeKb);
    } else {
      FillLinear(nops, sizeKb, nopSize, branchInterval);
    }
  }
}
