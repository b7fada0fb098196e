/** Running the call/return layout: which bytes one call of the buffer fetches, and in what order. */
module CallLayout {
  import opened Common
  import opened X86
  import opened InstructionBuffer

  // ----- Pieces of a line -----

  lemma {:induction false} NopsAreStraight(b: seq<byte>, o: nat, k: nat)
    requires Has(b, o, Repeat(NOP8, k))
    ensures Straight(b, o, 8 * k, k)
  {
    if k == 0 {
      NothingIsStraight(b, o);
    } else {
      HasConcat(b, o, Repeat(NOP8, k - 1), NOP8);
      NopsAreStraight(b, o, k - 1);
      Nop8IsStraight(b, o + 8 * (k - 1));
      Appended(b, o, 8 * (k - 1), k - 1, 8, 1, 8 * k, k);
    }
  }

  /** The returning block: a 7-byte NOP, then the return. */
  lemma ReturnBlock(b: seq<byte>, o: nat)
    requires Has(b, o, RET8)
    ensures Straight(b, o, 7, 1) && Decode(b, o + 7) == Some(Ret(1))
  {
    HasAt(b, o, RET8, 0); HasAt(b, o, RET8, 1); HasAt(b, o, RET8, 2); HasAt(b, o, RET8, 3); HasAt(b, o, RET8, 7);
    LongNop(b, o, 7);
    PlainIsStraight(b, o, 7);
  }

  lemma ShortNop(b: seq<byte>, o: nat)
    requires Has(b, o, NOP3)
    ensures Straight(b, o, 3, 1)
  {
    HasAt(b, o, NOP3, 0); HasAt(b, o, NOP3, 1); HasAt(b, o, NOP3, 2);
    LongNop(b, o, 3);
    PlainIsStraight(b, o, 3);
  }

  lemma CallDecodes(b: seq<byte>, o: nat, rel: nat)
    requires rel < 0x8000_0000 && Has(b, o, [0xE8] + LittleEndian(rel))
    ensures Decode(b, o) == Some(Call(5, rel))
  {
    var p := [0xE8] + LittleEndian(rel);
    HasAt(b, o, p, 0); HasAt(b, o, p, 1); HasAt(b, o, p, 2); HasAt(b, o, p, 3); HasAt(b, o, p, 4);
    LittleEndianIsSigned(rel);
  }

  /** A target line runs 63 bytes straight to its return. */
  lemma TargetRuns(b: seq<byte>, o: nat)
    requires Has(b, o, TargetLine())
    ensures Straight(b, o, 63, 8) && Decode(b, o + 63) == Some(Ret(1))
  {
    HasConcat(b, o, Repeat(NOP8, 7), RET8);
    NopsAreStraight(b, o, 7);
    ReturnBlock(b, o + 56);
    StraightAdd(b, o, 56, 7, 7, 1);
  }

  lemma LastLineTail(b: seq<byte>, o: nat)
    requires Has(b, o, Repeat(NOP8, 6) + RET8)
    ensures Straight(b, o, 55, 7) && Decode(b, o + 55) == Some(Ret(1))
  {
    HasConcat(b, o, Repeat(NOP8, 6), RET8);
    NopsAreStraight(b, o, 6);
    ReturnBlock(b, o + 48);
    StraightAdd(b, o, 48, 6, 7, 1);
  }

  /** What follows the head of a calling line. */
  function LineTail(last: bool): seq<byte> {
    if last then Repeat(NOP8, 6) + RET8 else Repeat(NOP8, 7)
  }

  lemma HeadRuns(b: seq<byte>, o: nat, rel: nat)
    requires rel < 0x8000_0000 && Has(b, o, CallHead(rel))
    ensures Decode(b, o) == Some(Call(5, rel)) && Straight(b, o + 5, 3, 1)
  {
    HasConcat(b, o, [0xE8] + LittleEndian(rel), NOP3);
    CallDecodes(b, o, rel);
    ShortNop(b, o + 5);
  }

  /** A calling line starts with its call. */
  lemma LineHead(b: seq<byte>, o: nat, rel: nat, last: bool)
    requires rel < 0x8000_0000 && Has(b, o, CallLine(rel, last))
    ensures Decode(b, o) == Some(Call(5, rel)) && Straight(b, o + 5, 3, 1)
    ensures Has(b, o + 8, LineTail(last))
  {
    assert CallLine(rel, last) == CallHead(rel) + LineTail(last);
    HasConcat(b, o, CallHead(rel), LineTail(last));
    HeadRuns(b, o, rel);
  }

  /** What follows is straight, to the next line or, in the last line, to its return. */
  lemma CallLineRuns(b: seq<byte>, o: nat, rel: nat, last: bool)
    requires rel < 0x8000_0000 && Has(b, o, CallLine(rel, last))
    ensures Decode(b, o) == Some(Call(5, rel))
    ensures !last ==> Straight(b, o + 5, 59, 8)
    ensures last ==> Straight(b, o + 5, 58, 8) && Decode(b, o + 63) == Some(Ret(1))
  {
    LineHead(b, o, rel, last);
    if last {
      LastLineTail(b, o + 8);
      StraightAdd(b, o + 5, 3, 1, 55, 7);
    } else {
      NopsAreStraight(b, o + 8, 7);
      StraightAdd(b, o + 5, 3, 1, 56, 7);
    }
  }

  // ----- One call and its return -----

  /** n steps lead from m to t. */
  predicate Leads(b: seq<byte>, m: Machine, t: Machine, n: nat) { Run(b, m, n) == Some(t) }

  lemma LeadsOn(b: seq<byte>, m: Machine, mid: Machine, t: Machine, n: nat, k: nat)
    requires Leads(b, m, mid, n) && Leads(b, mid, t, k)
    ensures Leads(b, m, t, n + k)
  {
    RunAdd(b, m, n, mid, k);
  }

  lemma StepLeads(b: seq<byte>, m: Machine)
    requires Step(b, m).Some?
    ensures Leads(b, m, Step(b, m).value, 1)
  {
    OneStep(b, m);
  }

  lemma StraightLeads(b: seq<byte>, ip: nat, len: nat, stack: seq<nat>, fetched: seq<nat>, n: nat)
    requires Straight(b, ip, len, n)
    ensures Leads(b, Running(ip, stack, fetched), Running(ip + len, stack, fetched + Range(ip, len)), n)
  {
  }

  /** The addresses fetched on behalf of line k: the call, the whole target line, the rest of the line. */
  function LineFetches(sizeKb: nat, k: nat): seq<nat> {
    Range(64 * k, 5) + Range(512 * sizeKb + 64 * k, 64) + Range(64 * k + 5, 59)
  }

  lemma CallStep(b: seq<byte>, o: nat, t: nat, f: seq<nat>)
    requires t >= o + 5 && Decode(b, o) == Some(Call(5, t - o - 5))
    ensures Leads(b, Running(o, [], f), Running(t, [o + 5], f + Range(o, 5)), 1)
  {
    assert [] + [o + 5] == [o + 5];
    StepLeads(b, Running(o, [], f));
  }

  lemma ReturnStep(b: seq<byte>, ip: nat, r: nat, f: seq<nat>)
    requires Decode(b, ip) == Some(Ret(1))
    ensures Leads(b, Running(ip, [r], f), Running(r, [], f + Range(ip, 1)), 1)
    ensures Leads(b, Running(ip, [], f), Returned(f + Range(ip, 1)), 1)
  {
    assert [r][..0] == [];
    StepLeads(b, Running(ip, [r], f));
    StepLeads(b, Running(ip, [], f));
  }

  /** Straight code of len bytes and the return behind it. */
  lemma StraightThenReturn(b: seq<byte>, ip: nat, len: nat, r: nat, f: seq<nat>, n: nat)
    requires Straight(b, ip, len, n) && Decode(b, ip + len) == Some(Ret(1))
    ensures Leads(b, Running(ip, [r], f), Running(r, [], f + Range(ip, len + 1)), n + 1)
    ensures Leads(b, Running(ip, [], f), Returned(f + Range(ip, len + 1)), n + 1)
  {
    var g := f + Range(ip, len);
    RangeAdd(ip, len, 1);
    assert g + Range(ip + len, 1) == f + Range(ip, len + 1);
    StraightLeads(b, ip, len, [r], f, n);
    StraightLeads(b, ip, len, [], f, n);
    ReturnStep(b, ip + len, r, g);
    LeadsOn(b, Running(ip, [r], f), Running(ip + len, [r], g), Running(r, [], f + Range(ip, len + 1)), n, 1);
    LeadsOn(b, Running(ip, [], f), Running(ip + len, [], g), Returned(f + Range(ip, len + 1)), n, 1);
  }

  /** A call runs its target and comes back behind the call: ten instructions. */
  lemma CallAndReturn(b: seq<byte>, o: nat, t: nat, f: seq<nat>)
    requires t >= o + 5 && Decode(b, o) == Some(Call(5, t - o - 5))
    requires Straight(b, t, 63, 8) && Decode(b, t + 63) == Some(Ret(1))
    ensures Leads(b, Running(o, [], f), Running(o + 5, [], f + Range(o, 5) + Range(t, 64)), 10)
  {
    var g := f + Range(o, 5);
    CallStep(b, o, t, f);
    StraightThenReturn(b, t, 63, o + 5, g, 8);
    LeadsOn(b, Running(o, [], f), Running(t, [o + 5], g), Running(o + 5, [], g + Range(t, 64)), 1, 9);
  }

  lemma JoinFetches(f: seq<nat>, sizeKb: nat, k: nat)
    ensures f + Range(64 * k, 5) + Range(512 * sizeKb + 64 * k, 64) + Range(64 * k + 5, 59) ==
      f + LineFetches(sizeKb, k)
  {
  }

  /** What line k and its target decode to. */
  lemma TargetOf(b: seq<byte>, sizeKb: nat, k: nat)
    requires 0 < sizeKb <= 0x40_0000 && k < 8 * sizeKb && CallFill(b, sizeKb)
    ensures Straight(b, 512 * sizeKb + 64 * k, 63, 8) && Decode(b, 512 * sizeKb + 64 * k + 63) == Some(Ret(1))
  {
    assert CallPair(b, sizeKb, k);
    TargetRuns(b, 512 * sizeKb + 64 * k);
  }

  lemma LineOf(b: seq<byte>, sizeKb: nat, k: nat)
    requires 0 < sizeKb <= 0x40_0000 && k < 8 * sizeKb - 1 && CallFill(b, sizeKb)
    ensures Decode(b, 64 * k) == Some(Call(5, 512 * sizeKb - 5)) && Straight(b, 64 * k + 5, 59, 8)
  {
    assert CallPair(b, sizeKb, k);
    CallLineRuns(b, 64 * k, 512 * sizeKb - 5, false);
  }

  lemma LastLineOf(b: seq<byte>, sizeKb: nat, k: nat)
    requires 0 < sizeKb <= 0x40_0000 && k == 8 * sizeKb - 1 && CallFill(b, sizeKb)
    ensures Decode(b, 64 * k) == Some(Call(5, 512 * sizeKb - 5))
    ensures Straight(b, 64 * k + 5, 58, 8) && Decode(b, 64 * k + 63) == Some(Ret(1))
  {
    assert CallPair(b, sizeKb, k);
    CallLineRuns(b, 64 * k, 512 * sizeKb - 5, true);
  }

  /** Every line but the last falls through to the next one. */
  lemma LineRuns(b: seq<byte>, sizeKb: nat, k: nat, f: seq<nat>)
    requires 0 < sizeKb <= 0x40_0000 && k < 8 * sizeKb - 1 && CallFill(b, sizeKb)
    ensures Leads(b, Running(64 * k, [], f), Running(64 * (k + 1), [], f + LineFetches(sizeKb, k)), 18)
  {
    var o, t := 64 * k, 512 * sizeKb + 64 * k;
    var g := f + Range(o, 5) + Range(t, 64);
    TargetOf(b, sizeKb, k);
    LineOf(b, sizeKb, k);
    CallAndReturn(b, o, t, f);
    StraightLeads(b, o + 5, 59, [], g, 8);
    JoinFetches(f, sizeKb, k);
    LeadsOn(b, Running(o, [], f), Running(o + 5, [], g), Running(o + 64, [], f + LineFetches(sizeKb, k)), 10, 8);
  }

  lemma TailReturns(b: seq<byte>, o: nat, g: seq<nat>, h: seq<nat>)
    requires Straight(b, o, 58, 8) && Decode(b, o + 58) == Some(Ret(1)) && h == g + Range(o, 59)
    ensures Leads(b, Running(o, [], g), Returned(h), 9)
  {
    StraightThenReturn(b, o, 58, 0, g, 8);
  }

  /** The last line returns to the caller of the buffer. */
  lemma LastLineRuns(b: seq<byte>, sizeKb: nat, k: nat, f: seq<nat>)
    requires 0 < sizeKb <= 0x40_0000 && k == 8 * sizeKb - 1 && CallFill(b, sizeKb)
    ensures Leads(b, Running(64 * k, [], f), Returned(f + LineFetches(sizeKb, k)), 19)
  {
    var o, t := 64 * k, 512 * sizeKb + 64 * k;
    var g, h := f + Range(o, 5) + Range(t, 64), f + LineFetches(sizeKb, k);
    TargetOf(b, sizeKb, k);
    LastLineOf(b, sizeKb, k);
    CallAndReturn(b, o, t, f);
    JoinFetches(f, sizeKb, k);
    TailReturns(b, o + 5, g, h);
    LeadsOn(b, Running(o, [], f), Running(o + 5, [], g), Returned(h), 10, 9);
  }

  // ----- The whole buffer -----

  /** Everything fetched on behalf of the first k lines, in order. */
  function AllFetches(sizeKb: nat, k: nat): seq<nat> {
    if k == 0 then [] else AllFetches(sizeKb, k - 1) + LineFetches(sizeKb, k - 1)
  }

  lemma {:induction false} LinesRun(b: seq<byte>, sizeKb: nat, k: nat)
    requires 0 < sizeKb <= 0x40_0000 && k < 8 * sizeKb && CallFill(b, sizeKb)
    ensures Leads(b, Running(0, [], []), Running(64 * k, [], AllFetches(sizeKb, k)), 18 * k)
  {
    var start := Running(0, [], []);
    if k == 0 {
      assert Run(b, start, 0) == Some(start);
    } else {
      LinesRun(b, sizeKb, k - 1);
      LineRuns(b, sizeKb, k - 1, AllFetches(sizeKb, k - 1));
      LeadsOn(b, start, Running(64 * (k - 1), [], AllFetches(sizeKb, k - 1)),
        Running(64 * k, [], AllFetches(sizeKb, k)), 18 * (k - 1), 18);
    }
  }

  /** One call of the buffer executes line 0, target 0, line 1, target 1 and so on, and returns: 18
      instructions for each of the 8 * sizeKb calls, and one return more. */
  lemma CallFillExecutes(b: seq<byte>, sizeKb: nat)
    requires 0 < sizeKb <= 0x40_0000 && CallFill(b, sizeKb)
    ensures Executes(b, 144 * sizeKb + 1, AllFetches(sizeKb, 8 * sizeKb))
  {
    var last := 8 * sizeKb - 1;
    LinesRun(b, sizeKb, last);
    LastLineRuns(b, sizeKb, last, AllFetches(sizeKb, last));
    LeadsOn(b, Running(0, [], []), Running(64 * last, [], AllFetches(sizeKb, last)),
      Returned(AllFetches(sizeKb, last + 1)), 18 * last, 19);
  }

  /** How often address a occurs. */
  function Count(s: seq<nat>, a: nat): nat {
    if s == [] then 0 else (if s[0] == a then 1 else 0) + Count(s[1..], a)
  }

  lemma {:induction false} CountConcat(s: seq<nat>, t: seq<nat>, a: nat)
    ensures Count(s + t, a) == Count(s, a) + Count(t, a)
  {
    if s == [] {
      assert s + t == t;
    } else {
      CountConcat(s[1..], t, a);
      assert (s + t)[1..] == s[1..] + t;
    }
  }

  lemma {:induction false} CountRange(from: nat, len: nat, a: nat)
    ensures Count(Range(from, len), a) == if from <= a < from + len then 1 else 0
    decreases len
  {
    if len > 0 {
      CountRange(from + 1, len - 1, a);
      assert Range(from, len)[1..] == Range(from + 1, len - 1);
    }
  }

  lemma {:induction false} CountLines(sizeKb: nat, k: nat, a: nat)
    requires k <= 8 * sizeKb
    ensures Count(AllFetches(sizeKb, k), a) == if a < 64 * k || 512 * sizeKb <= a < 512 * sizeKb + 64 * k then 1 else 0
    ensures |AllFetches(sizeKb, k)| == 128 * k
  {
    if k > 0 {
      var o, t := 64 * (k - 1), 512 * sizeKb + 64 * (k - 1);
      CountLines(sizeKb, k - 1, a);
      CountConcat(AllFetches(sizeKb, k - 1), LineFetches(sizeKb, k - 1), a);
      CountConcat(Range(o, 5) + Range(t, 64), Range(o + 5, 59), a);
      CountConcat(Range(o, 5), Range(t, 64), a);
      CountRange(o, 5, a);
      CountRange(t, 64, a);
      CountRange(o + 5, 59, a);
    }
  }

  /** Every address below size occurs exactly once, and no other. */
  ghost predicate EachOnce(s: seq<nat>, size: nat) {
    |s| == size && forall a: nat :: Count(s, a) == if a < size then 1 else 0
  }

  lemma CountsOnce(sizeKb: nat)
    requires sizeKb > 0
    ensures EachOnce(AllFetches(sizeKb, 8 * sizeKb), BytesCounted(sizeKb))
  {
    CountedIsSize(sizeKb);
    CountLines(sizeKb, 8 * sizeKb, 0);
    forall a: nat
      ensures Count(AllFetches(sizeKb, 8 * sizeKb), a) == if a < sizeKb * 1024 then 1 else 0
    {
      CountLines(sizeKb, 8 * sizeKb, a);
    }
  }

  /** One call of the call/return buffer fetches each byte of it exactly once and nothing outside: as
      many bytes as the bandwidth figure counts. */
  lemma EveryByteOnce(b: seq<byte>, sizeKb: nat)
    requires 0 < sizeKb <= 0x40_0000 && CallFill(b, sizeKb)
    ensures FetchesExactly(b, AllFetches(sizeKb, 8 * sizeKb))
    ensures EachOnce(AllFetches(sizeKb, 8 * sizeKb), BytesCounted(sizeKb))
  {
    CallFillExecutes(b, sizeKb);
    assert Executes(b, 144 * sizeKb + 1, AllFetches(sizeKb, 8 * sizeKb));
    FetchesOnly(b, AllFetches(sizeKb, 8 * sizeKb));
    CountsOnce(sizeKb);
  }
}
