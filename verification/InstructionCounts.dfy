/** What the linear fills execute, instruction by instruction: the length of each one, where the branches are,
    and how many there are in one call. */
module InstructionCounts {
  import opened Common
  import opened X86
  import opened InstructionBuffer

  /** Slot idx holds a branch. */
  predicate Branches(branchInterval: int, idx: nat) { branchInterval > 1 && idx % branchInterval == 0 }

  /** A slot of one 8-byte, two 4-byte or four 2-byte instructions; size 3 stands for 4-byte instructions with
      prefixes. */
  ghost predicate PlainSlot(b: seq<byte>, o: nat, nopSize: int) {
    && (nopSize == 8 ==> Decode(b, o) == Some(Plain(8)))
    && (nopSize == 4 || nopSize == 3 ==> Decode(b, o) == Decode(b, o + 4) == Some(Plain(4)))
    && (nopSize == 4 ==> ByteAt(b, o) == ByteAt(b, o + 4) == 0x0F)
    && (nopSize == 3 ==> ByteAt(b, o) == ByteAt(b, o + 4) == 0x66)
    && (nopSize == 2 ==> Decode(b, o) == Decode(b, o + 2) == Decode(b, o + 4) == Decode(b, o + 6) == Some(Plain(2)))
  }

  /** A 4-byte instruction, a jump to the next one, and a 2-byte instruction. */
  ghost predicate BranchSlot(b: seq<byte>, o: nat) {
    Decode(b, o) == Some(Plain(4)) && Decode(b, o + 4) == Some(Jump(2, 0)) && Decode(b, o + 6) == Some(Plain(2))
  }

  /** Every slot but the last has instructions of the length asked for, or, if it is due, a branch. */
  lemma SlotDecodes(b: seq<byte>, sizeKb: nat, nopSize: int, branchInterval: int, idx: nat)
    requires sizeKb > 0 && Supported(nopSize) && LinearFill(b, sizeKb, nopSize, branchInterval)
    requires idx < 128 * sizeKb - 1
    ensures if Branches(branchInterval, idx) then BranchSlot(b, 8 * idx) else PlainSlot(b, 8 * idx, nopSize)
  {
    var o := 8 * idx;
    assert Has(b, o, Slot(nopSize, branchInterval, idx));
    if Branches(branchInterval, idx) {
      BranchPatternIsStraight(b, o);
    } else if nopSize == 8 {
      Nop8IsStraight(b, o);
    } else if nopSize == 2 {
      Xor2IsStraight(b, o);
    } else {
      FourByteSlot(b, o, nopSize);
    }
  }

  lemma FourByteSlot(b: seq<byte>, o: nat, nopSize: int)
    requires (nopSize == 4 && Has(b, o, NOP4)) || (nopSize == 3 && Has(b, o, K8NOP4))
    ensures PlainSlot(b, o, nopSize)
  {
    if nopSize == 4 {
      Nop4IsStraight(b, o);
      HasAt(b, o, NOP4, 0);
      HasAt(b, o, NOP4, 4);
    } else {
      K8NopIsStraight(b, o);
      HasAt(b, o, K8NOP4, 0);
      HasAt(b, o, K8NOP4, 4);
    }
  }

  // ----- Counting -----

  /** How many of the first `count` slots branch: every branchInterval-th, beginning with the first. */
  function BranchSlots(branchInterval: int, count: nat): nat {
    if branchInterval > 1 then (count + branchInterval - 1) / branchInterval else 0
  }

  lemma NextBranch(branchInterval: int, count: nat)
    ensures BranchSlots(branchInterval, count + 1) ==
      BranchSlots(branchInterval, count) + (if Branches(branchInterval, count) then 1 else 0)
  {
    if branchInterval > 1 {
      var d: nat := branchInterval;
      var q, r := count / d, count % d;
      assert count == q * d + r;
      NextMultiple(q, d);
      Quotient(count + d, d, q + 1, r);
      if r == 0 {
        Quotient(count + d - 1, d, q, d - 1);
      } else {
        Quotient(count + d - 1, d, q + 1, r - 1);
      }
    }
  }

  function PerSlot(nopSize: int): nat {
    if nopSize == 8 then 1 else if nopSize == 2 then 4 else 2
  }

  lemma {:induction false} InstructionsCounted(nopSize: int, branchInterval: int, count: nat)
    requires Supported(nopSize)
    ensures BranchSlots(branchInterval, count) <= count
    ensures Instructions(nopSize, branchInterval, count) ==
      PerSlot(nopSize) * (count - BranchSlots(branchInterval, count)) + 3 * BranchSlots(branchInterval, count)
  {
    if count == 0 {
      NoBranch(branchInterval);
    } else {
      InstructionsCounted(nopSize, branchInterval, count - 1);
      NextBranch(branchInterval, count - 1);
    }
  }

  lemma NoBranch(branchInterval: int)
    ensures BranchSlots(branchInterval, 0) == 0
  {
    if branchInterval > 1 { Quotient(branchInterval - 1, branchInterval, 0, branchInterval - 1); }
  }

  /** One call of a linear fill of s slots, m of them with a branch, executes (s - m) * 8 / length + 3 * m
      instructions and the return; every branchInterval-th slot branches if that is more than one. */
  lemma LinearFillExecutes(b: seq<byte>, sizeKb: nat, nopSize: int, branchInterval: int)
    requires 0 < sizeKb && Supported(nopSize) && LinearFill(b, sizeKb, nopSize, branchInterval)
    ensures var s := 128 * sizeKb - 1;
      var m := if branchInterval > 1 then (s + branchInterval - 1) / branchInterval else 0;
      && m <= s
      && (nopSize == 8 ==> Executes(b, (s - m) + 3 * m + 1, Range(0, 8 * s + 1)))
      && (nopSize == 4 || nopSize == 3 ==> Executes(b, 2 * (s - m) + 3 * m + 1, Range(0, 8 * s + 1)))
      && (nopSize == 2 ==> Executes(b, 4 * (s - m) + 3 * m + 1, Range(0, 8 * s + 1)))
  {
    var s := 128 * sizeKb - 1;
    SlotsAreStraight(b, sizeKb, nopSize, branchInterval, s);
    FinalReturn(b, 8 * s, Instructions(nopSize, branchInterval, s));
    InstructionsCounted(nopSize, branchInterval, s);
  }
}
