/** The handshake in which each thread writes only a cache line of its own and reads the other's. */
module OwnedLines {
  import opened Common
  import opened PingPong

  datatype Owned = Owned(line1: nat, line2: nat, current1: nat, current2: nat, storing1: bool, storing2: bool,
      log: seq<Write>) {
    function Current(t: Thread): nat { if t == One then current1 else current2 }

    function Storing(t: Thread): bool { if t == One then storing1 else storing2 }

    /** The line that thread t reads. */
    function Seen(t: Thread): nat { if t == One then line2 else line1 }

    function Passed(t: Thread): Owned {
      if t == One then this.(storing1 := true) else this.(storing2 := true)
    }

    function Stored(t: Thread): Owned {
      var c := Current(t);
      if t == One then Owned(c, line2, c + 2, current2, false, storing2, log + [Write(One, c)])
      else Owned(line1, c, current1, c + 2, storing1, false, log + [Write(Two, c)])
    }
  }

  /** RunOwnedTest's initial values. */
  const OWNED_START := Owned(1, 0, 3, 2, false, false, [])

  /** One memory access of ReadLatencyTestThread. */
  function OwnedStep(iterations: nat, s: Owned, t: Thread): Owned {
    if s.Storing(t) then s.Stored(t)
    else if s.Current(t) <= 2 * iterations && s.Seen(t) + 1 == s.Current(t) then s.Passed(t)
    else s
  }

  function OwnedRun(iterations: nat, s: Owned, schedule: seq<Thread>): Owned {
    if schedule == [] then s
    else OwnedStep(iterations, OwnedRun(iterations, s, schedule[..|schedule| - 1]), schedule[|schedule| - 1])
  }

  function Max(x: nat, y: nat): nat { if x < y then y else x }

  /** Seen as one shared word: the larger line. The initial 1 stands for a write by thread One. */
  function OneWord(s: Owned): NoLock {
    NoLock(Max(s.line1, s.line2), s.current1, s.current2, s.storing1, s.storing2, [Write(One, 1)] + s.log)
  }

  /** The lines differ by exactly one, and the larger one belongs to the thread that wrote last. */
  ghost predicate LinesInv(iterations: nat, s: Owned) {
    && Inv(iterations, OneWord(s))
    && if Turn(OneWord(s)) == One then s.line2 == s.line1 + 1 else s.line1 == s.line2 + 1
  }

  /** Step for step, the two lines do what the single word does. */
  lemma OwnedStepRefines(iterations: nat, s: Owned, t: Thread)
    requires LinesInv(iterations, s)
    ensures OneWord(OwnedStep(iterations, s, t)) == Step(iterations, OneWord(s), t)
    ensures LinesInv(iterations, OwnedStep(iterations, s, t))
  {
    StepKeepsInv(iterations, OneWord(s), t);
    if s.Storing(t) {
      assert [Write(One, 1)] + (s.log + [Write(t, s.Current(t))]) == [Write(One, 1)] + s.log + [Write(t, s.Current(t))];
    }
  }

  lemma {:induction false} OwnedRunRefines(iterations: nat, s: Owned, schedule: seq<Thread>)
    requires LinesInv(iterations, s)
    ensures OneWord(OwnedRun(iterations, s, schedule)) == Run(iterations, OneWord(s), schedule)
    ensures LinesInv(iterations, OwnedRun(iterations, s, schedule))
  {
    if schedule != [] {
      var front, t := schedule[..|schedule| - 1], schedule[|schedule| - 1];
      OwnedRunRefines(iterations, s, front);
      OwnedStepRefines(iterations, OwnedRun(iterations, s, front), t);
    }
  }

  /** The initial lines are what the single word machine reaches when thread One has made its first
      load and store. */
  lemma OwnedStartIsReached(iterations: nat)
    requires iterations > 0
    ensures OneWord(OWNED_START) == Run(iterations, START, [One, One])
    ensures LinesInv(iterations, OWNED_START)
  {
    var two: seq<Thread>, one: seq<Thread>, none: seq<Thread> := [One, One], [One], [];
    assert two[..1] == one && one[..0] == none;
    assert Run(iterations, START, none) == START;
    assert Run(iterations, START, one) == START.Passed(One);
    assert Run(iterations, START, two) == START.Passed(One).Stored(One);
    assert START.Passed(One).Stored(One) == NoLock(1, 3, 2, false, false, [Write(One, 1)]);
  }

  /** In every reachable state the lines differ by exactly one, and together they are the single shared
      word of the plain load/store test after a schedule that begins with thread One's first write. */
  lemma OwnedRunsAreSingleWordRuns(iterations: nat, schedule: seq<Thread>)
    requires iterations > 0
    ensures var s := OwnedRun(iterations, OWNED_START, schedule);
      && (s.line1 == s.line2 + 1 || s.line2 == s.line1 + 1)
      && OneWord(s) == Run(iterations, START, [One, One] + schedule)
      && Max(s.line1, s.line2) <= 2 * iterations
  {
    OwnedStartIsReached(iterations);
    OwnedRunRefines(iterations, OWNED_START, schedule);
    RunAdd(iterations, START, [One, One], schedule);
  }

  predicate OwnedDone(iterations: nat, s: Owned) { s.current1 > 2 * iterations && s.current2 > 2 * iterations }

  /** Until both threads have finished, some unfinished thread's next access makes progress. */
  lemma NeverStuck(iterations: nat, schedule: seq<Thread>)
    requires iterations > 0
    ensures var s := OwnedRun(iterations, OWNED_START, schedule);
      OwnedDone(iterations, s) || exists t :: s.Current(t) <= 2 * iterations && OwnedStep(iterations, s, t) != s
  {
    OwnedStartIsReached(iterations);
    OwnedRunRefines(iterations, OWNED_START, schedule);
    var s := OwnedRun(iterations, OWNED_START, schedule);
    if !OwnedDone(iterations, s) {
      var t := Turn(OneWord(s));
      TurnProgresses(iterations, OneWord(s), t);
      OwnedStepRefines(iterations, s, t);
      assert s.Current(t) <= 2 * iterations && OwnedStep(iterations, s, t) != s;
    }
  }

  /** Under fair scheduling the test ends with 2 * iterations - 1 and 2 * iterations in the two lines,
      thread One having written iterations - 1 times and thread Two iterations times. With no iterations
      nothing is written and the lines keep their initial values, which are not those. */
  lemma OwnedRunsFinish(iterations: nat, rounds: seq<seq<Thread>>)
    requires |rounds| >= 4 * iterations && forall r :: 0 <= r < |rounds| ==> Fair(rounds[r])
    ensures var s := OwnedRun(iterations, OWNED_START, Flatten(rounds));
      && OwnedDone(iterations, s)
      && (s.line1 == 2 * iterations - 1 && s.line2 == 2 * iterations <==> iterations > 0)
      && (iterations > 0 ==> WritesBy(s.log, One) == iterations - 1 && WritesBy(s.log, Two) == iterations)
  {
    if iterations == 0 {
      NothingToDo(Flatten(rounds));
    } else {
      OwnedStartIsReached(iterations);
      OwnedRunRefines(iterations, OWNED_START, Flatten(rounds));
      RoundsProgress(iterations, OneWord(OWNED_START), rounds);
      FinalLines(iterations, OwnedRun(iterations, OWNED_START, Flatten(rounds)), |rounds|);
    }
  }

  lemma FinalLines(iterations: nat, s: Owned, rounds: nat)
    requires iterations > 0 && LinesInv(iterations, s) && rounds >= 4 * iterations
    requires Progress(OneWord(s)) >= Progress(OneWord(OWNED_START)) + rounds || Done(iterations, OneWord(s))
    ensures OwnedDone(iterations, s) && s.line1 == 2 * iterations - 1 && s.line2 == 2 * iterations
    ensures WritesBy(s.log, One) == iterations - 1 && WritesBy(s.log, Two) == iterations
  {
    TurnProgresses(iterations, OneWord(s), One);
    AlternatingWrites(OneWord(s).log);
    FirstWrite(s.log);
  }

  lemma {:induction false} NothingToDo(schedule: seq<Thread>)
    ensures OwnedRun(0, OWNED_START, schedule) == OWNED_START
  {
    if schedule != [] {
      NothingToDo(schedule[..|schedule| - 1]);
    }
  }

  lemma {:induction false} FirstWrite(log: seq<Write>)
    ensures WritesBy([Write(One, 1)] + log, One) == WritesBy(log, One) + 1
    ensures WritesBy([Write(One, 1)] + log, Two) == WritesBy(log, Two)
  {
    var all := [Write(One, 1)] + log;
    if log == [] {
      assert all == [Write(One, 1)] && all[..0] == [];
    } else {
      FirstWrite(log[..|log| - 1]);
      assert all[..|all| - 1] == [Write(One, 1)] + log[..|log| - 1];
    }
  }
}
