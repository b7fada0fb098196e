/** The two special fills of MemoryBandwidth.cpp: a chain of taken branches, one for every 16 bytes, and
    10-byte NOPs. */
module BranchBuffer {
  import opened Common
  import opened X86
  import opened InstructionBuffer
  import opened CallLayout

  // ----- Branch16 -----

  /** Even 8-byte slots jump over the odd ones; the last even slot returns. */
  ghost predicate BranchFill(b: seq<byte>, sizeKb: nat)
    requires sizeKb > 0
  {
    && (forall k :: 0 <= k < 64 * sizeKb - 1 ==> Has(b, 16 * k, BRANCH16))
    && Has(b, 16 * (64 * sizeKb - 1), RET_SLOT)
  }

  method FillBranch16(arr: array<byte>, sizeKb: nat)
    requires 0 < sizeKb && sizeKb * 1024 <= arr.Length
    modifies arr
    ensures BranchFill(arr[..], sizeKb)
    ensures forall idx :: 0 <= idx < 128 * sizeKb - 2 ==>
      Has(arr[..], 8 * idx, if idx % 2 == 0 then BRANCH16 else NOP8)
    ensures forall c :: sizeKb * 1024 - 8 <= c < arr.Length ==> arr[c] == old(arr[c])
  {
    var elements := sizeKb * 1024 / 8 - 1;
    var branchElements := if elements % 2 == 0 then elements else elements - 1;
    assert branchElements == 128 * sizeKb - 2;
    FillHops(arr, branchElements);
    ghost var before := arr[..];
    Put(arr, 8 * branchElements, RET_SLOT);
    HopSlotsKept(before, arr[..], branchElements);
    EvenSlotsBranch(arr[..], sizeKb);
    forall idx | 0 <= idx < 128 * sizeKb - 2
      ensures Has(arr[..], 8 * idx, if idx % 2 == 0 then BRANCH16 else NOP8)
    {
      assert Has(arr[..], 8 * idx, HopSlot(idx));
    }
  }

  /** The loop over the slots before the return. */
  method FillHops(arr: array<byte>, branchElements: nat)
    requires 8 * branchElements <= arr.Length
    modifies arr
    ensures forall idx :: 0 <= idx < branchElements ==> Has(arr[..], 8 * idx, HopSlot(idx))
    ensures forall c :: 8 * branchElements <= c < arr.Length ==> arr[c] == old(arr[c])
  {
    for nopIdx := 0 to branchElements
      invariant forall idx :: 0 <= idx < nopIdx ==> Has(arr[..], 8 * idx, HopSlot(idx))
      invariant forall c :: 8 * nopIdx <= c < arr.Length ==> arr[c] == old(arr[c])
    {
      ghost var before := arr[..];
      Put(arr, 8 * nopIdx, HopSlot(nopIdx));
      HopSlotsKept(before, arr[..], nopIdx);
    }
  }

  /** `nopIdx % 2 == 0 ? *branchPtr : *nopPtr` */
  function HopSlot(idx: nat): (p: seq<byte>)
    ensures |p| == 8
  {
    if idx % 2 == 0 then BRANCH16 else NOP8
  }

  lemma HopSlotsKept(before: seq<byte>, after: seq<byte>, count: nat)
    requires |after| == |before|
    requires forall idx :: 0 <= idx < count ==> Has(before, 8 * idx, HopSlot(idx))
    requires forall c :: 0 <= c < 8 * count && c < |before| ==> after[c] == before[c]
    ensures forall idx :: 0 <= idx < count ==> Has(after, 8 * idx, HopSlot(idx))
  {
    forall idx | 0 <= idx < count
      ensures Has(after, 8 * idx, HopSlot(idx))
    {
      HasKept(before, after, 8 * idx, HopSlot(idx));
    }
  }

  lemma EvenSlot(k: nat)
    ensures HopSlot(2 * k) == BRANCH16
  {
  }

  lemma EvenSlotsBranch(b: seq<byte>, sizeKb: nat)
    requires sizeKb > 0 && Has(b, 8 * (128 * sizeKb - 2), RET_SLOT)
    requires forall idx :: 0 <= idx < 128 * sizeKb - 2 ==> Has(b, 8 * idx, HopSlot(idx))
    ensures BranchFill(b, sizeKb)
  {
    forall k | 0 <= k < 64 * sizeKb - 1
      ensures Has(b, 16 * k, BRANCH16)
    {
      EvenSlot(k);
      assert Has(b, 8 * (2 * k), HopSlot(2 * k));
    }
  }

  /** The two bytes of each of the first k branches. */
  function HopFetches(k: nat): seq<nat> {
    if k == 0 then [] else HopFetches(k - 1) + Range(16 * (k - 1), 2)
  }

  lemma Hop(b: seq<byte>, o: nat, f: seq<nat>)
    requires Has(b, o, BRANCH16)
    ensures Leads(b, Running(o, [], f), Running(o + 16, [], f + Range(o, 2)), 1)
  {
    HasAt(b, o, BRANCH16, 0);
    HasAt(b, o, BRANCH16, 1);
    StepLeads(b, Running(o, [], f));
  }

  lemma {:induction false} Hops(b: seq<byte>, sizeKb: nat, k: nat)
    requires sizeKb > 0 && k < 64 * sizeKb && BranchFill(b, sizeKb)
    ensures Leads(b, Running(0, [], []), Running(16 * k, [], HopFetches(k)), k)
  {
    if k == 0 {
      assert Run(b, Running(0, [], []), 0) == Some(Running(0, [], []));
    } else {
      Hops(b, sizeKb, k - 1);
      Hop(b, 16 * (k - 1), HopFetches(k - 1));
      LeadsOn(b, Running(0, [], []), Running(16 * (k - 1), [], HopFetches(k - 1)), Running(16 * k, [], HopFetches(k)),
          k - 1, 1);
    }
  }

  /** The k-th hop fetched both bytes of a branch at the start of 8-byte slot 2 * k. */
  ghost predicate HopAt(s: seq<nat>, k: nat) {
    2 * k + 1 < |s| && s[2 * k] == 8 * (2 * k) && s[2 * k + 1] == 8 * (2 * k) + 1
  }

  lemma {:induction false} HopsStayOnEvenSlots(n: nat)
    ensures |HopFetches(n)| == 2 * n
    ensures forall k :: 0 <= k < n ==> HopAt(HopFetches(n), k)
  {
    if n > 0 {
      HopsStayOnEvenSlots(n - 1);
      forall k | 0 <= k < n
        ensures HopAt(HopFetches(n), k)
      {
        if k < n - 1 {
          assert HopAt(HopFetches(n - 1), k);
        }
      }
    }
  }

  /** All bytes that one call of the branch buffer fetches. */
  function BranchFetches(sizeKb: nat): seq<nat>
    requires sizeKb > 0
  {
    HopFetches(64 * sizeKb - 1) + [16 * (64 * sizeKb - 1)]
  }

  /** One call hops from even slot to even slot, two bytes in each, in order and each exactly once, never
      touches an odd slot, and ends at the return in the last even one. */
  lemma BranchFillRuns(b: seq<byte>, sizeKb: nat)
    requires sizeKb > 0 && BranchFill(b, sizeKb)
    ensures FetchesExactly(b, BranchFetches(sizeKb)) && Executes(b, 64 * sizeKb, BranchFetches(sizeKb))
    ensures |BranchFetches(sizeKb)| == 128 * sizeKb - 1
    ensures forall k :: 0 <= k < 64 * sizeKb - 1 ==> HopAt(BranchFetches(sizeKb), k)
    ensures BranchFetches(sizeKb)[128 * sizeKb - 2] == 8 * (128 * sizeKb - 2)
  {
    BranchRun(b, sizeKb);
    FetchesOnly(b, BranchFetches(sizeKb));
    HopsStayOnEvenSlots(64 * sizeKb - 1);
    forall k | 0 <= k < 64 * sizeKb - 1
      ensures HopAt(BranchFetches(sizeKb), k)
    {
      assert HopAt(HopFetches(64 * sizeKb - 1), k);
    }
  }

  lemma BranchRun(b: seq<byte>, sizeKb: nat)
    requires sizeKb > 0 && BranchFill(b, sizeKb)
    ensures Executes(b, 64 * sizeKb, BranchFetches(sizeKb))
  {
    var n := 64 * sizeKb - 1;
    var o, f := 16 * n, HopFetches(n);
    Hops(b, sizeKb, n);
    HasAt(b, o, RET_SLOT, 0);
    assert Range(o, 1) == [o];
    ReturnStep(b, o, 0, f);
    LeadsOn(b, Running(0, [], []), Running(o, [], f), Returned(f + [o]), n, 1);
  }

  // ----- TenByte -----

  /** count 10-byte NOPs, then a return. */
  ghost predicate TenByteFill(b: seq<byte>, count: nat) {
    (forall k :: 0 <= k < count ==> Has(b, 10 * k, NOP10)) && Has(b, 10 * count, [0xC3])
  }

  /** Returns where the return instruction was written. */
  method FillTenByte(arr: array<byte>, sizeKb: nat) returns (targetArrIdx: nat)
    requires 0 < sizeKb < 0x20_0000 && sizeKb * 1024 <= arr.Length
    modifies arr
    ensures targetArrIdx % 10 == 0 && TenByteFill(arr[..], targetArrIdx / 10)
    ensures sizeKb * 1024 - 12 <= targetArrIdx < sizeKb * 1024 - 2
    ensures forall c :: targetArrIdx < c < arr.Length ==> arr[c] == old(arr[c])
  {
    var targetArrLenBytes := sizeKb * 1024 - 2;
    ghost var count: nat := 0;
    targetArrIdx := 0;
    while targetArrIdx + 10 < targetArrLenBytes
      invariant targetArrIdx == 10 * count < targetArrLenBytes
      invariant forall k :: 0 <= k < count ==> Has(arr[..], 10 * k, NOP10)
      invariant forall c :: 10 * count <= c < arr.Length ==> arr[c] == old(arr[c])
    {
      ghost var before := arr[..];
      Put(arr, targetArrIdx, NOP10);
      TensKept(before, arr[..], count);
      targetArrIdx := targetArrIdx + 10;
      count := count + 1;
    }
    ghost var before := arr[..];
    Put(arr, targetArrIdx, [0xC3]);
    TensKept(before, arr[..], count);
  }

  lemma TensKept(before: seq<byte>, after: seq<byte>, count: nat)
    requires |after| == |before|
    requires forall k :: 0 <= k < count ==> Has(before, 10 * k, NOP10)
    requires forall c :: 0 <= c < 10 * count && c < |before| ==> after[c] == before[c]
    ensures forall k :: 0 <= k < count ==> Has(after, 10 * k, NOP10)
  {
    forall k | 0 <= k < count
      ensures Has(after, 10 * k, NOP10)
    {
      assert Has(before, 10 * k, NOP10);
      HasKept(before, after, 10 * k, NOP10);
    }
  }

  lemma {:induction false} TensAreStraight(b: seq<byte>, count: nat)
    requires forall k :: 0 <= k < count ==> Has(b, 10 * k, NOP10)
    ensures Straight(b, 0, 10 * count, count)
  {
    if count == 0 {
      NothingIsStraight(b, 0);
    } else {
      TensAreStraight(b, count - 1);
      assert Has(b, 10 * (count - 1), NOP10);
      Nop10IsStraight(b, 10 * (count - 1));
      Appended(b, 0, 10 * (count - 1), count - 1, 10, 1, 10 * count, count);
    }
  }

  /** One call falls through whole instructions of ten bytes to the return. */
  lemma TenByteFillRuns(b: seq<byte>, count: nat)
    requires TenByteFill(b, count)
    ensures FetchesExactly(b, Range(0, 10 * count + 1)) && Executes(b, count + 1, Range(0, 10 * count + 1))
  {
    TensAreStraight(b, count);
    FinalReturn(b, 10 * count, count);
    FetchesOnly(b, Range(0, 10 * count + 1));
  }
}
