/** The thread bodies and the set-up of the ping-pong tests over shared memory. A schedule decides
    which thread makes the next memory access; the machines of PingPong and OwnedLines say what the
    whole then does. Counters are 64-bit in the source; iteration counts below 2^63 - 1 keep them
    from wrapping around. */
module LatencyThreads {
  import opened PingPong
  import opened OwnedLines

  const MAX_ITERATIONS := 0x7FFF_FFFF_FFFF_FFFE

  /** A word of shared memory. */
  class Word {
    var value: nat

    constructor (value: nat)
      ensures this.value == value
    {
      this.value := value;
    }
  }

  /** LatencyThreadData together with the local state of the thread running on it. */
  class LatencyThread {
    const iterations: nat
    const target: Word
    const readTarget: Word
    var current: nat
    var storing: bool

    constructor (start: nat, iterations: nat, target: Word, readTarget: Word)
      ensures this.iterations == iterations && this.target == target && this.readTarget == readTarget
      ensures current == start && !storing
    {
      this.iterations := iterations;
      this.target := target;
      this.readTarget := readTarget;
      current := start;
      storing := false;
    }

    /** Whether the loop of the thread goes on. */
    predicate Looping()
      reads this
    {
      current <= 2 * iterations
    }

    /** One turn of LatencyTestThread's loop: a compare-and-swap. */
    method CasTurn() returns (wrote: bool)
      modifies this, target
      ensures wrote == (old(Looping()) && old(target.value) + 1 == old(current))
      ensures target.value == (if wrote then old(current) else old(target.value))
      ensures current == (if wrote then old(current) + 2 else old(current)) && storing == old(storing)
    {
      wrote := false;
      if current <= 2 * iterations && target.value == current - 1 {
        target.value := current;
        current := current + 2;
        wrote := true;
      }
    }

    /** One memory access of NoLockLatencyTestThread, and of ReadLatencyTestThread if the two targets
        differ: the load and its test, or, if the test was passed, the store. */
    method PlainTurn() returns (wrote: bool)
      modifies this, target
      ensures wrote == old(storing)
      ensures target.value == (if old(storing) then old(current) else old(target.value))
      ensures current == (if old(storing) then old(current) + 2 else old(current))
      ensures storing == (!old(storing) && old(Looping()) && old(readTarget.value) + 1 == old(current))
    {
      wrote := storing;
      if storing {
        target.value := current;
        current := current + 2;
        storing := false;
      } else if current <= 2 * iterations && readTarget.value == current - 1 {
        storing := true;
      }
    }
  }

  /** The state of the two plain threads on one word. */
  ghost predicate IsNoLock(s: NoLock, word: Word, t1: LatencyThread, t2: LatencyThread)
    reads word, t1, t2
  {
    && s.word == word.value
    && s.current1 == t1.current && s.current2 == t2.current
    && s.storing1 == t1.storing && s.storing2 == t2.storing
  }

  /** RunTest of the pthreads version, which runs the no-lock thread, under the given schedule. */
  method RunNoLockTest(iterations: nat, schedule: seq<Thread>)
    returns (value: nat, next1: nat, next2: nat, log: seq<Write>)
    requires iterations <= MAX_ITERATIONS
    ensures var s := Run(iterations, START, schedule);
      value == s.word && next1 == s.current1 && next2 == s.current2 && log == s.log
  {
    var word := new Word(0);
    var t1 := new LatencyThread(1, iterations, word, word);
    var t2 := new LatencyThread(2, iterations, word, word);
    log := [];
    for i := 0 to |schedule|
      invariant IsNoLock(Run(iterations, START, schedule[..i]), word, t1, t2)
      invariant log == Run(iterations, START, schedule[..i]).log
      invariant Inv(iterations, Run(iterations, START, schedule[..i]))
    {
      assert schedule[..i + 1][..i] == schedule[..i];
      StepKeepsInv(iterations, Run(iterations, START, schedule[..i]), schedule[i]);
      var t := if schedule[i] == One then t1 else t2;
      var c := t.current;
      var wrote := t.PlainTurn();
      if wrote {
        log := log + [Write(schedule[i], c)];
      }
    }
    assert schedule[..|schedule|] == schedule;
    value, next1, next2 := word.value, t1.current, t2.current;
  }

  /** RunTest with the locked thread. */
  method RunCasTest(iterations: nat, schedule: seq<Thread>)
    returns (value: nat, next1: nat, next2: nat, log: seq<Write>)
    requires iterations <= MAX_ITERATIONS
    ensures Cas(value, next1, next2, log) == CasRun(iterations, CAS_START, schedule)
  {
    var word := new Word(0);
    var t1 := new LatencyThread(1, iterations, word, word);
    var t2 := new LatencyThread(2, iterations, word, word);
    log := [];
    for i := 0 to |schedule|
      invariant Cas(word.value, t1.current, t2.current, log) == CasRun(iterations, CAS_START, schedule[..i])
    {
      assert schedule[..i + 1][..i] == schedule[..i];
      var t := if schedule[i] == One then t1 else t2;
      var c := t.current;
      var wrote := t.CasTurn();
      if wrote {
        log := log + [Write(schedule[i], c)];
      }
    }
    assert schedule[..|schedule|] == schedule;
    value, next1, next2 := word.value, t1.current, t2.current;
  }

  /** RunOwnedTest: each thread's target is the other's readTarget. */
  method RunOwnedTest(iterations: nat, schedule: seq<Thread>)
    returns (value1: nat, value2: nat, next1: nat, next2: nat, log: seq<Write>)
    requires iterations <= MAX_ITERATIONS
    ensures var s := OwnedRun(iterations, OWNED_START, schedule);
      value1 == s.line1 && value2 == s.line2 && next1 == s.current1 && next2 == s.current2 && log == s.log
  {
    var target1 := new Word(1);
    var target2 := new Word(0);
    var t1 := new LatencyThread(3, iterations, target1, target2);
    var t2 := new LatencyThread(2, iterations, target2, target1);
    log := [];
    for i := 0 to |schedule|
      invariant var s := OwnedRun(iterations, OWNED_START, schedule[..i]);
        && s.line1 == target1.value && s.line2 == target2.value
        && s.current1 == t1.current && s.current2 == t2.current
        && s.storing1 == t1.storing && s.storing2 == t2.storing && s.log == log
    {
      assert schedule[..i + 1][..i] == schedule[..i];
      var t := if schedule[i] == One then t1 else t2;
      var c := t.current;
      var wrote := t.PlainTurn();
      if wrote {
        log := log + [Write(schedule[i], c)];
      }
    }
    assert schedule[..|schedule|] == schedule;
    value1, value2, next1, next2 := target1.value, target2.value, t1.current, t2.current;
  }
}
