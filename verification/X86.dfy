/** The few x86 instructions that the bandwidth test emits, decoded and executed as described in
    volume 2 of the Intel Software Developer's Manual (entries CALL, JMP, NOP, RET and XOR). */
module X86 {
  import opened Common

  datatype Instr =
    | Plain(len: nat)               // falls through: NOP in any of its forms, XOR EAX,EAX
    | Call(len: nat, rel: int)
    | Jump(len: nat, rel: int)
    | Ret(len: nat)

  /** Operand-size prefixes at ip. */
  function Prefixes(b: seq<byte>, ip: nat): nat
    decreases |b| - ip
  {
    if ip < |b| && b[ip] == 0x66 then 1 + Prefixes(b, ip + 1) else 0
  }

  /** Bytes of a ModR/M operand with register field 0, including SIB and displacement; 0 if the
      register field differs. */
  function OperandLength(modrm: byte, sib: byte): nat {
    var mode, reg, rm := modrm / 64, modrm / 8 % 8, modrm % 8;
    if reg != 0 then 0
    else if mode == 3 then 1
    else if mode == 2 then if rm == 4 then 6 else 5
    else if mode == 1 then if rm == 4 then 3 else 2
    else if rm == 4 then if sib % 8 == 5 then 6 else 2
    else if rm == 5 then 5
    else 1
  }

  function Signed8(x: byte): int { if x < 0x80 then x else x - 0x100 }

  function Signed32(a: byte, b: byte, c: byte, d: byte): int {
    var u := a + 0x100 * b + 0x1_0000 * c + 0x100_0000 * d;
    if u < 0x8000_0000 then u else u - 0x1_0000_0000
  }

  /** The byte at i, or 0 behind the end. */
  function ByteAt(b: seq<byte>, i: nat): byte { if i < |b| then b[i] else 0 }

  function DecodeNop(b: seq<byte>, ip: nat, k: nat): Option<Instr> {
    var o := ip + k;
    if ByteAt(b, o) == 0x90 then Some(Plain(k + 1))
    else if ByteAt(b, o) == 0x0F && ByteAt(b, o + 1) == 0x1F then
      var len := OperandLength(ByteAt(b, o + 2), ByteAt(b, o + 3));
      if len == 0 then None else Some(Plain(k + 2 + len))
    else None
  }

  function DecodeOther(b: seq<byte>, ip: nat): Option<Instr> {
    var op := ByteAt(b, ip);
    if op == 0x31 && ByteAt(b, ip + 1) == 0xC0 then Some(Plain(2))
    else if op == 0xE8 then
      Some(Call(5, Signed32(ByteAt(b, ip + 1), ByteAt(b, ip + 2), ByteAt(b, ip + 3), ByteAt(b, ip + 4))))
    else if op == 0xEB then Some(Jump(2, Signed8(ByteAt(b, ip + 1))))
    else if op == 0xC3 then Some(Ret(1))
    else None
  }

  /** The instruction at ip; None if it is not one of these, is longer than 15 bytes, or is not
      completely inside the buffer. */
  function Decode(b: seq<byte>, ip: nat): Option<Instr> {
    var k := Prefixes(b, ip);
    var i := if k == 0 && DecodeNop(b, ip, 0) == None then DecodeOther(b, ip) else DecodeNop(b, ip, k);
    if i.Some? && i.value.len <= 15 && ip + i.value.len <= |b| then i else None
  }

  /** The machine: instruction pointer, return addresses, and the address of every byte fetched so
      far, in order. */
  datatype Machine = Running(ip: nat, stack: seq<nat>, fetched: seq<nat>) | Returned(fetched: seq<nat>)

  function Range(from: nat, len: nat): (r: seq<nat>)
    ensures |r| == len && forall i :: 0 <= i < len ==> r[i] == from + i
  {
    seq(len, (i: nat) => from + i)
  }

  /** One instruction. None is a fault. A RET with no return address left returns to the caller. */
  function Step(b: seq<byte>, m: Machine): Option<Machine> {
    match m
    case Returned(_) => None
    case Running(ip, stack, fetched) =>
      match Decode(b, ip)
      case None => None
      case Some(i) =>
        var next, seen := ip + i.len, fetched + Range(ip, i.len);
        match i
        case Plain(_) => Some(Running(next, stack, seen))
        case Call(_, rel) => if next + rel < 0 then None else Some(Running(next + rel, stack + [next], seen))
        case Jump(_, rel) => if next + rel < 0 then None else Some(Running(next + rel, stack, seen))
        case Ret(_) =>
          if stack == [] then Some(Returned(seen))
          else Some(Running(stack[|stack| - 1], stack[..|stack| - 1], seen))
  }

  function Run(b: seq<byte>, m: Machine, n: nat): Option<Machine>
    decreases n, |b|
  {
    if n == 0 then Some(m)
    else
      match Step(b, m)
      case None => None
      case Some(next) => Run(b, next, n - 1)
  }

  lemma {:induction false} RunAdd(b: seq<byte>, m: Machine, n: nat, mid: Machine, k: nat)
    requires Run(b, m, n) == Some(mid)
    ensures Run(b, m, n + k) == Run(b, mid, k)
    decreases n
  {
    if n > 0 {
      RunAdd(b, Step(b, m).value, n - 1, mid, k);
      assert n + k - 1 == n - 1 + k;
    }
  }

  lemma OneStep(b: seq<byte>, m: Machine)
    requires Step(b, m).Some?
    ensures Run(b, m, 1) == Step(b, m)
  {
    assert Run(b, Step(b, m).value, 0) == Step(b, m);
  }

  lemma RangeAdd(from: nat, j: nat, k: nat)
    ensures Range(from, j) + Range(from + j, k) == Range(from, j + k)
  {
  }

  // ----- Bytes in a buffer -----

  /** The bytes p stand at offset o. */
  predicate Has(b: seq<byte>, o: nat, p: seq<byte>) {
    o + |p| <= |b| && b[o..o + |p|] == p
  }

  lemma HasAt(b: seq<byte>, o: nat, p: seq<byte>, i: nat)
    requires Has(b, o, p) && i < |p|
    ensures o + i < |b| && b[o + i] == p[i]
  {
    assert b[o..o + |p|][i] == b[o + i];
  }

  lemma HasConcat(b: seq<byte>, o: nat, p: seq<byte>, q: seq<byte>)
    ensures Has(b, o, p + q) <==> Has(b, o, p) && Has(b, o + |p|, q)
  {
    if o + |p| + |q| <= |b| {
      var whole := b[o..o + |p| + |q|];
      assert whole[..|p|] == b[o..o + |p|] && whole[|p|..] == b[o + |p|..o + |p| + |q|];
      assert (p + q)[..|p|] == p && (p + q)[|p|..] == q;
      assert whole == whole[..|p|] + whole[|p|..];
    }
  }

  /** Bytes outside a changed region stay. */
  lemma HasKept(b: seq<byte>, c: seq<byte>, o: nat, p: seq<byte>)
    requires Has(b, o, p) && |c| == |b|
    requires forall i :: o <= i < o + |p| ==> c[i] == b[i]
    ensures Has(c, o, p)
  {
  }

  // ----- The patterns of the source -----

  const NOP8: seq<byte> := [0x0F, 0x1F, 0x84, 0x00, 0x00, 0x00, 0x00, 0x00]
  const NOP4: seq<byte> := [0x0F, 0x1F, 0x40, 0x00, 0x0F, 0x1F, 0x40, 0x00]
  const XOR2: seq<byte> := [0x31, 0xC0, 0x31, 0xC0, 0x31, 0xC0, 0x31, 0xC0]
  const K8NOP4: seq<byte> := [0x66, 0x66, 0x66, 0x90, 0x66, 0x66, 0x66, 0x90]
  const NOP4_BRANCH: seq<byte> := [0x0F, 0x1F, 0x40, 0x00, 0xEB, 0x00, 0x66, 0x90]
  const RET8: seq<byte> := [0x0F, 0x1F, 0x80, 0x00, 0x00, 0x00, 0x00, 0xC3]
  const NOP3: seq<byte> := [0x0F, 0x1F, 0x00]
  const NOP10: seq<byte> := [0x66, 0x66, 0x0F, 0x1F, 0x84, 0x00, 0x00, 0x00, 0x00, 0x00]
  const BRANCH16: seq<byte> := [0xEB, 0x0E, 0x00, 0x00, 0x00, 0x00, 0x00, 0x00]
  const RET_SLOT: seq<byte> := [0xC3, 0x00, 0x00, 0x00, 0x00, 0x00, 0x00, 0x00]

  /** A multi-byte NOP without prefix. */
  lemma LongNop(b: seq<byte>, ip: nat, len: nat)
    requires 3 <= len <= 15 && ip + len <= |b| && b[ip] == 0x0F && b[ip + 1] == 0x1F
    requires OperandLength(b[ip + 2], ByteAt(b, ip + 3)) == len - 2
    ensures Decode(b, ip) == Some(Plain(len))
  {
  }

  lemma {:induction false} PrefixCount(b: seq<byte>, ip: nat, k: nat)
    requires ip + k < |b| && (forall i :: ip <= i < ip + k ==> b[i] == 0x66) && b[ip + k] != 0x66
    ensures Prefixes(b, ip) == k
    decreases k
  {
    if k > 0 {
      PrefixCount(b, ip + 1, k - 1);
    }
  }

  /** Executing an instruction that falls through. */
  lemma PlainStep(b: seq<byte>, ip: nat, stack: seq<nat>, fetched: seq<nat>, len: nat)
    requires Decode(b, ip) == Some(Plain(len))
    ensures Run(b, Running(ip, stack, fetched), 1) == Some(Running(ip + len, stack, fetched + Range(ip, len)))
  {
    OneStep(b, Running(ip, stack, fetched));
  }

  /** From wherever it starts, the code at [ip, ip + len) runs in n steps to its end, fetching each of
      its bytes once, in order. */
  ghost predicate Straight(b: seq<byte>, ip: nat, len: nat, n: nat) {
    forall stack, fetched ::
      Run(b, Running(ip, stack, fetched), n) == Some(Running(ip + len, stack, fetched + Range(ip, len)))
  }

  lemma PlainIsStraight(b: seq<byte>, ip: nat, len: nat)
    requires Decode(b, ip) == Some(Plain(len))
    ensures Straight(b, ip, len, 1)
  {
    forall stack, fetched
      ensures Run(b, Running(ip, stack, fetched), 1) == Some(Running(ip + len, stack, fetched + Range(ip, len)))
    {
      PlainStep(b, ip, stack, fetched, len);
    }
  }

  lemma JumpToNextIsStraight(b: seq<byte>, ip: nat)
    requires Decode(b, ip) == Some(Jump(2, 0))
    ensures Straight(b, ip, 2, 1)
  {
    forall stack, fetched
      ensures Run(b, Running(ip, stack, fetched), 1) == Some(Running(ip + 2, stack, fetched + Range(ip, 2)))
    {
      OneStep(b, Running(ip, stack, fetched));
    }
  }

  lemma StraightAdd(b: seq<byte>, ip: nat, j: nat, m: nat, k: nat, n: nat)
    requires Straight(b, ip, j, m) && Straight(b, ip + j, k, n)
    ensures Straight(b, ip, j + k, m + n)
  {
    forall stack: seq<nat>, fetched: seq<nat>
      ensures Run(b, Running(ip, stack, fetched), m + n) ==
        Some(Running(ip + (j + k), stack, fetched + Range(ip, j + k)))
    {
      var mid := Running(ip + j, stack, fetched + Range(ip, j));
      assert Run(b, Running(ip, stack, fetched), m) == Some(mid);
      RunAdd(b, Running(ip, stack, fetched), m, mid, n);
      RangeAdd(ip, j, k);
      assert fetched + Range(ip, j) + Range(ip + j, k) == fetched + (Range(ip, j) + Range(ip + j, k));
    }
  }

  lemma Appended(b: seq<byte>, ip: nat, j: nat, m: nat, k: nat, n: nat, len: nat, steps: nat)
    requires Straight(b, ip, j, m) && Straight(b, ip + j, k, n) && len == j + k && steps == m + n
    ensures Straight(b, ip, len, steps)
  {
    StraightAdd(b, ip, j, m, k, n);
  }

  /** No code at all. */
  lemma NothingIsStraight(b: seq<byte>, ip: nat)
    ensures Straight(b, ip, 0, 0)
  {
    forall stack: seq<nat>, fetched: seq<nat>
      ensures Run(b, Running(ip, stack, fetched), 0) == Some(Running(ip + 0, stack, fetched + Range(ip, 0)))
    {
      assert fetched + Range(ip, 0) == fetched;
    }
  }

  /** The 8-byte patterns run straight through. */
  lemma Nop8IsStraight(b: seq<byte>, o: nat)
    requires Has(b, o, NOP8)
    ensures Straight(b, o, 8, 1) && Decode(b, o) == Some(Plain(8))
  {
    HasAt(b, o, NOP8, 0); HasAt(b, o, NOP8, 1); HasAt(b, o, NOP8, 2); HasAt(b, o, NOP8, 3);
    LongNop(b, o, 8);
    PlainIsStraight(b, o, 8);
  }

  lemma Nop4AtIsStraight(b: seq<byte>, o: nat)
    requires Has(b, o, NOP4[..4])
    ensures Straight(b, o, 4, 1) && Decode(b, o) == Some(Plain(4))
  {
    HasAt(b, o, NOP4[..4], 0); HasAt(b, o, NOP4[..4], 1); HasAt(b, o, NOP4[..4], 2);
    LongNop(b, o, 4);
    PlainIsStraight(b, o, 4);
  }

  lemma Nop4IsStraight(b: seq<byte>, o: nat)
    requires Has(b, o, NOP4)
    ensures Straight(b, o, 8, 2) && Decode(b, o) == Some(Plain(4)) == Decode(b, o + 4)
  {
    assert NOP4 == NOP4[..4] + NOP4[..4];
    HasConcat(b, o, NOP4[..4], NOP4[..4]);
    Nop4AtIsStraight(b, o);
    Nop4AtIsStraight(b, o + 4);
    StraightAdd(b, o, 4, 1, 4, 1);
  }

  lemma XorIsStraight(b: seq<byte>, o: nat)
    requires Has(b, o, [0x31, 0xC0])
    ensures Straight(b, o, 2, 1) && Decode(b, o) == Some(Plain(2))
  {
    HasAt(b, o, [0x31, 0xC0], 0); HasAt(b, o, [0x31, 0xC0], 1);
    PlainIsStraight(b, o, 2);
  }

  lemma Xor2IsStraight(b: seq<byte>, o: nat)
    requires Has(b, o, XOR2)
    ensures Straight(b, o, 8, 4)
    ensures Decode(b, o) == Decode(b, o + 2) == Decode(b, o + 4) == Decode(b, o + 6) == Some(Plain(2))
  {
    var x: seq<byte> := [0x31, 0xC0];
    assert XOR2 == (x + x) + (x + x);
    HasConcat(b, o, x + x, x + x);
    HasConcat(b, o, x, x);
    HasConcat(b, o + 4, x, x);
    XorIsStraight(b, o); XorIsStraight(b, o + 2); XorIsStraight(b, o + 4); XorIsStraight(b, o + 6);
    StraightAdd(b, o, 2, 1, 2, 1);
    StraightAdd(b, o, 4, 2, 2, 1);
    StraightAdd(b, o, 6, 3, 2, 1);
  }

  lemma K8NopAtIsStraight(b: seq<byte>, o: nat)
    requires Has(b, o, K8NOP4[..4])
    ensures Straight(b, o, 4, 1) && Decode(b, o) == Some(Plain(4))
  {
    HasAt(b, o, K8NOP4[..4], 0); HasAt(b, o, K8NOP4[..4], 1); HasAt(b, o, K8NOP4[..4], 2); HasAt(b, o, K8NOP4[..4], 3);
    PrefixCount(b, o, 3);
    PlainIsStraight(b, o, 4);
  }

  lemma K8NopIsStraight(b: seq<byte>, o: nat)
    requires Has(b, o, K8NOP4)
    ensures Straight(b, o, 8, 2) && Decode(b, o) == Some(Plain(4)) == Decode(b, o + 4)
  {
    assert K8NOP4 == K8NOP4[..4] + K8NOP4[..4];
    HasConcat(b, o, K8NOP4[..4], K8NOP4[..4]);
    K8NopAtIsStraight(b, o);
    K8NopAtIsStraight(b, o + 4);
    StraightAdd(b, o, 4, 1, 4, 1);
  }

  /** The jump in this pattern has displacement zero, so it too goes to the next instruction. */
  lemma BranchPatternIsStraight(b: seq<byte>, o: nat)
    requires Has(b, o, NOP4_BRANCH)
    ensures Straight(b, o, 8, 3)
    ensures Decode(b, o) == Some(Plain(4)) && Decode(b, o + 4) == Some(Jump(2, 0)) && Decode(b, o + 6) == Some(Plain(2))
  {
    var x: seq<byte>, y: seq<byte> := [0xEB, 0x00], [0x66, 0x90];
    assert NOP4_BRANCH == NOP4[..4] + (x + y);
    HasConcat(b, o, NOP4[..4], x + y);
    HasConcat(b, o + 4, x, y);
    Nop4AtIsStraight(b, o);
    HasAt(b, o + 4, x, 0); HasAt(b, o + 4, x, 1);
    JumpToNextIsStraight(b, o + 4);
    HasAt(b, o + 6, y, 0); HasAt(b, o + 6, y, 1);
    PrefixCount(b, o + 6, 1);
    PlainIsStraight(b, o + 6, 2);
    StraightAdd(b, o, 4, 1, 2, 1);
    StraightAdd(b, o, 6, 2, 2, 1);
  }

  lemma Nop10IsStraight(b: seq<byte>, o: nat)
    requires Has(b, o, NOP10)
    ensures Straight(b, o, 10, 1) && Decode(b, o) == Some(Plain(10))
  {
    HasAt(b, o, NOP10, 0); HasAt(b, o, NOP10, 1); HasAt(b, o, NOP10, 2); HasAt(b, o, NOP10, 3);
    HasAt(b, o, NOP10, 4); HasAt(b, o, NOP10, 5);
    PrefixCount(b, o, 2);
    PlainIsStraight(b, o, 10);
  }
}
