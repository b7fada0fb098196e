/** Two threads bouncing a counter, as steps of two interleaved machines over sequentially consistent
    memory: with compare-and-swap, and with a plain load followed by a plain store. */
module PingPong {
  import opened Common

  datatype Thread = One | Two

  function Other(t: Thread): Thread { if t == One then Two else One }

  /** A write: who, and which value. */
  datatype Write = Write(thread: Thread, value: nat)

  // ----- Compare-and-swap: the load and the store are one step -----

  datatype Cas = Cas(word: nat, current1: nat, current2: nat, log: seq<Write>) {
    function Current(t: Thread): nat { if t == One then current1 else current2 }

    function Wrote(t: Thread): Cas {
      var c := Current(t);
      if t == One then Cas(c, c + 2, current2, log + [Write(One, c)])
      else Cas(c, current1, c + 2, log + [Write(Two, c)])
    }
  }

  const CAS_START := Cas(0, 1, 2, [])

  /** One turn of the loop of LatencyTestThread. */
  function CasStep(iterations: nat, s: Cas, t: Thread): Cas {
    if s.Current(t) <= 2 * iterations && s.word + 1 == s.Current(t) then s.Wrote(t) else s
  }

  function CasRun(iterations: nat, s: Cas, schedule: seq<Thread>): Cas {
    if schedule == [] then s
    else CasStep(iterations, CasRun(iterations, s, schedule[..|schedule| - 1]), schedule[|schedule| - 1])
  }

  // ----- Plain load, then plain store -----

  /** `storing` tells for each thread whether it has passed the test and is about to store. */
  datatype NoLock = NoLock(word: nat, current1: nat, current2: nat, storing1: bool, storing2: bool, log: seq<Write>) {
    function Current(t: Thread): nat { if t == One then current1 else current2 }

    function Storing(t: Thread): bool { if t == One then storing1 else storing2 }

    function Passed(t: Thread): NoLock {
      if t == One then this.(storing1 := true) else this.(storing2 := true)
    }

    function Stored(t: Thread): NoLock {
      var c := Current(t);
      if t == One then NoLock(c, c + 2, current2, false, storing2, log + [Write(One, c)])
      else NoLock(c, current1, c + 2, storing1, false, log + [Write(Two, c)])
    }

    predicate Finished(iterations: nat, t: Thread) { Current(t) > 2 * iterations }
  }

  const START := NoLock(0, 1, 2, false, false, [])

  /** One memory access of NoLockLatencyTestThread: the load with its test, or the store. */
  function Step(iterations: nat, s: NoLock, t: Thread): NoLock {
    if s.Storing(t) then s.Stored(t)
    else if !s.Finished(iterations, t) && s.word + 1 == s.Current(t) then s.Passed(t)
    else s
  }

  function Run(iterations: nat, s: NoLock, schedule: seq<Thread>): NoLock {
    if schedule == [] then s
    else Step(iterations, Run(iterations, s, schedule[..|schedule| - 1]), schedule[|schedule| - 1])
  }

  // ----- What every interleaving keeps -----

  /** Whose value is next. */
  function Turn(s: NoLock): Thread { if s.word % 2 == 0 then One else Two }

  /** The thread whose turn it is waits for the current value, the other one for its successor; only the
      former can be between its load and its store, and then its test still holds; the log is 1, 2, ...,
      word, written by the threads in turn. */
  ghost predicate Inv(iterations: nat, s: NoLock) {
    && s.word <= 2 * iterations
    && s.Current(Turn(s)) == s.word + 1 && s.Current(Other(Turn(s))) == s.word + 2
    && !s.Storing(Other(Turn(s)))
    && (s.Storing(Turn(s)) ==> s.word < 2 * iterations)
    && |s.log| == s.word
    && forall i :: 0 <= i < |s.log| ==> s.log[i] == Write(if i % 2 == 0 then One else Two, i + 1)
  }

  lemma StepKeepsInv(iterations: nat, s: NoLock, t: Thread)
    requires Inv(iterations, s)
    ensures Inv(iterations, Step(iterations, s, t))
  {
  }

  lemma {:induction false} RunKeepsInv(iterations: nat, s: NoLock, schedule: seq<Thread>)
    requires Inv(iterations, s)
    ensures Inv(iterations, Run(iterations, s, schedule))
  {
    if schedule != [] {
      RunKeepsInv(iterations, s, schedule[..|schedule| - 1]);
      StepKeepsInv(iterations, Run(iterations, s, schedule[..|schedule| - 1]), schedule[|schedule| - 1]);
    }
  }

  /** In every interleaving at most one thread is between its load and its store, and the shared word
      has taken exactly the values 1, 2, ..., word, in order, thread One writing the odd and thread Two
      the even ones. */
  lemma AlternatesInEveryInterleaving(iterations: nat, schedule: seq<Thread>)
    ensures var s := Run(iterations, START, schedule);
      && !(s.storing1 && s.storing2)
      && s.word == |s.log| <= 2 * iterations
      && (forall i :: 0 <= i < |s.log| ==> s.log[i] == Write(if i % 2 == 0 then One else Two, i + 1))
  {
    RunKeepsInv(iterations, START, schedule);
  }

  // ----- Refinement -----

  function Abstract(s: NoLock): Cas { Cas(s.word, s.current1, s.current2, s.log) }

  /** A store is a successful compare-and-swap; a load changes nothing the other machine can see. */
  lemma StepRefines(iterations: nat, s: NoLock, t: Thread)
    requires Inv(iterations, s)
    ensures Abstract(Step(iterations, s, t)) ==
      if s.Storing(t) then CasStep(iterations, Abstract(s), t) else Abstract(s)
  {
  }

  /** The stores of a schedule, in order: the schedule of the compare-and-swap machine. */
  function Stores(iterations: nat, s: NoLock, schedule: seq<Thread>): seq<Thread> {
    if schedule == [] then []
    else
      var front, t := schedule[..|schedule| - 1], schedule[|schedule| - 1];
      Stores(iterations, s, front) + (if Run(iterations, s, front).Storing(t) then [t] else [])
  }

  /** Every interleaving of loads and stores does what some interleaving of compare-and-swaps does. */
  lemma {:induction false} RunRefines(iterations: nat, s: NoLock, schedule: seq<Thread>)
    requires Inv(iterations, s)
    ensures Abstract(Run(iterations, s, schedule)) ==
      CasRun(iterations, Abstract(s), Stores(iterations, s, schedule))
  {
    if schedule != [] {
      var front, t := schedule[..|schedule| - 1], schedule[|schedule| - 1];
      RunRefines(iterations, s, front);
      RunKeepsInv(iterations, s, front);
      StepRefines(iterations, Run(iterations, s, front), t);
      var stores := Stores(iterations, s, front);
      assert (stores + [t])[..|stores|] == stores;
      assert stores + [] == stores;
    }
  }

  // ----- Termination under fair scheduling -----

  /** Memory accesses that got somewhere: two for each value. */
  function Progress(s: NoLock): nat {
    2 * s.word + (if s.storing1 || s.storing2 then 1 else 0)
  }

  predicate Done(iterations: nat, s: NoLock) { s.Finished(iterations, One) && s.Finished(iterations, Two) }

  /** Until the end exactly the thread whose turn it is makes progress; the other one spins. */
  lemma TurnProgresses(iterations: nat, s: NoLock, t: Thread)
    requires Inv(iterations, s)
    ensures Done(iterations, s) <==> s.word == 2 * iterations
    ensures !Done(iterations, s) && t == Turn(s) ==> Progress(Step(iterations, s, t)) == Progress(s) + 1
    ensures Done(iterations, s) || t != Turn(s) ==> Step(iterations, s, t) == s
  {
  }

  lemma {:induction false} RunAdd(iterations: nat, s: NoLock, first: seq<Thread>, second: seq<Thread>)
    ensures Run(iterations, s, first + second) == Run(iterations, Run(iterations, s, first), second)
    decreases |second|
  {
    if second == [] {
      assert first + second == first;
    } else {
      var front := second[..|second| - 1];
      RunAdd(iterations, s, first, front);
      assert (first + second)[..|first + second| - 1] == first + front;
    }
  }

  lemma {:induction false} NeverBack(iterations: nat, s: NoLock, schedule: seq<Thread>)
    requires Inv(iterations, s)
    ensures Progress(Run(iterations, s, schedule)) >= Progress(s)
    ensures Done(iterations, s) ==> Run(iterations, s, schedule) == s
  {
    if schedule != [] {
      var front, t := schedule[..|schedule| - 1], schedule[|schedule| - 1];
      NeverBack(iterations, s, front);
      RunKeepsInv(iterations, s, front);
      TurnProgresses(iterations, Run(iterations, s, front), t);
    }
  }

  /** Both threads get to run. */
  predicate Fair(round: seq<Thread>) { One in round && Two in round }

  /** A stretch in which the thread whose turn it is runs at all makes progress. */
  lemma {:induction false} TurnRuns(iterations: nat, s: NoLock, round: seq<Thread>)
    requires Inv(iterations, s) && !Done(iterations, s) && Turn(s) in round
    ensures Progress(Run(iterations, s, round)) > Progress(s)
    decreases |round|
  {
    var first, rest := [round[0]], round[1..];
    assert round == first + rest;
    RunAdd(iterations, s, first, rest);
    assert first[..0] == [];
    assert Run(iterations, s, first[..0]) == s;
    var next := Run(iterations, s, first);
    assert next == Step(iterations, s, round[0]);
    TurnProgresses(iterations, s, round[0]);
    StepKeepsInv(iterations, s, round[0]);
    if round[0] == Turn(s) {
      NeverBack(iterations, next, rest);
    } else {
      TurnRuns(iterations, s, rest);
    }
  }

  lemma {:induction false} RoundsProgress(iterations: nat, start: NoLock, rounds: seq<seq<Thread>>)
    requires Inv(iterations, start) && forall r :: 0 <= r < |rounds| ==> Fair(rounds[r])
    ensures var s := Run(iterations, start, Flatten(rounds));
      Inv(iterations, s) && (Progress(s) >= Progress(start) + |rounds| || Done(iterations, s))
  {
    RunKeepsInv(iterations, start, Flatten(rounds));
    if rounds != [] {
      var front, last := rounds[..|rounds| - 1], rounds[|rounds| - 1];
      RoundsProgress(iterations, start, front);
      var s := Run(iterations, start, Flatten(front));
      RunAdd(iterations, start, Flatten(front), last);
      if Done(iterations, s) {
        NeverBack(iterations, s, last);
      } else {
        assert Fair(last);
        TurnRuns(iterations, s, last);
      }
    }
  }

  function WritesBy(log: seq<Write>, t: Thread): nat {
    if log == [] then 0 else WritesBy(log[..|log| - 1], t) + (if log[|log| - 1].thread == t then 1 else 0)
  }

  lemma {:induction false} AlternatingWrites(log: seq<Write>)
    requires forall i :: 0 <= i < |log| ==> log[i].thread == if i % 2 == 0 then One else Two
    ensures WritesBy(log, One) == (|log| + 1) / 2 && WritesBy(log, Two) == |log| / 2
  {
    if log != [] {
      AlternatingWrites(log[..|log| - 1]);
    }
  }

  /** Any schedule that lets both threads run in each of 4 * iterations stretches ends the test, with
      2 * iterations in the shared word and exactly `iterations` writes by each thread. */
  lemma FairRunsFinish(iterations: nat, rounds: seq<seq<Thread>>)
    requires |rounds| >= 4 * iterations && forall r :: 0 <= r < |rounds| ==> Fair(rounds[r])
    ensures var s := Run(iterations, START, Flatten(rounds));
      && Done(iterations, s) && s.word == 2 * iterations
      && WritesBy(s.log, One) == iterations && WritesBy(s.log, Two) == iterations
  {
    var s := Run(iterations, START, Flatten(rounds));
    RoundsProgress(iterations, START, rounds);
    TurnProgresses(iterations, s, One);
    AlternatingWrites(s.log);
  }

  // ----- Compare-and-swap under every schedule -----

  /** The plain machine when no thread is between its load and its store. */
  function Idle(s: Cas): NoLock { NoLock(s.word, s.current1, s.current2, false, false, s.log) }

  /** Every turn doubled: a load and then, if it succeeded, the store. */
  function Twice(schedule: seq<Thread>): seq<Thread> {
    if schedule == [] then []
    else
      var t := schedule[|schedule| - 1];
      Twice(schedule[..|schedule| - 1]) + [t, t]
  }

  lemma CasStepIsTwoSteps(iterations: nat, s: Cas, t: Thread)
    requires Inv(iterations, Idle(s))
    ensures Step(iterations, Step(iterations, Idle(s), t), t) == Idle(CasStep(iterations, s, t))
  {
  }

  lemma TwoSteps(iterations: nat, s: NoLock, t: Thread)
    ensures Run(iterations, s, [t, t]) == Step(iterations, Step(iterations, s, t), t)
  {
    var two: seq<Thread>, one: seq<Thread>, none: seq<Thread> := [t, t], [t], [];
    assert two[..1] == one && one[..0] == none;
    assert Run(iterations, s, none) == s;
    assert Run(iterations, s, one) == Step(iterations, s, t);
  }

  /** Every run of the compare-and-swap machine is a run of the plain one in which nobody interferes
      between a load and its store: the converse of RunRefines. */
  lemma {:induction false} CasRunIsPlainRun(iterations: nat, s: Cas, schedule: seq<Thread>)
    requires Inv(iterations, Idle(s))
    ensures Run(iterations, Idle(s), Twice(schedule)) == Idle(CasRun(iterations, s, schedule))
    ensures Inv(iterations, Idle(CasRun(iterations, s, schedule)))
  {
    if schedule != [] {
      var front, t := schedule[..|schedule| - 1], schedule[|schedule| - 1];
      CasRunIsPlainRun(iterations, s, front);
      RunAdd(iterations, Idle(s), Twice(front), [t, t]);
      TwoSteps(iterations, Idle(CasRun(iterations, s, front)), t);
      CasStepIsTwoSteps(iterations, CasRun(iterations, s, front), t);
    }
    RunKeepsInv(iterations, Idle(s), Twice(schedule));
  }

  /** Under every schedule of compare-and-swaps the shared word has taken exactly the values 1, 2, ...,
      word, in order, written by the threads in turn. */
  lemma CasAlternates(iterations: nat, schedule: seq<Thread>)
    ensures var s := CasRun(iterations, CAS_START, schedule);
      && s.word == |s.log| <= 2 * iterations
      && (forall i :: 0 <= i < |s.log| ==> s.log[i] == Write(if i % 2 == 0 then One else Two, i + 1))
  {
    CasRunIsPlainRun(iterations, CAS_START, schedule);
  }

  lemma {:induction false} CasRunAdd(iterations: nat, s: Cas, first: seq<Thread>, second: seq<Thread>)
    ensures CasRun(iterations, s, first + second) == CasRun(iterations, CasRun(iterations, s, first), second)
    decreases |second|
  {
    if second == [] {
      assert first + second == first;
    } else {
      var front := second[..|second| - 1];
      CasRunAdd(iterations, s, first, front);
      assert (first + second)[..|first + second| - 1] == first + front;
    }
  }

  lemma {:induction false} InTwice(schedule: seq<Thread>, t: Thread)
    requires t in schedule
    ensures t in Twice(schedule)
  {
    var front, last := schedule[..|schedule| - 1], schedule[|schedule| - 1];
    if t != last {
      InTwice(front, t);
    } else {
      assert t in [last, last];
    }
  }

  /** A stretch in which the thread on turn runs at all writes the next value. */
  lemma CasTurnRuns(iterations: nat, s: Cas, round: seq<Thread>)
    requires Inv(iterations, Idle(s)) && Fair(round)
    ensures var t := CasRun(iterations, s, round);
      Inv(iterations, Idle(t)) && (t.word > s.word || (Done(iterations, Idle(t)) && t == s))
  {
    CasRunIsPlainRun(iterations, s, round);
    if Done(iterations, Idle(s)) {
      NeverBack(iterations, Idle(s), Twice(round));
    } else {
      InTwice(round, Turn(Idle(s)));
      TurnRuns(iterations, Idle(s), Twice(round));
    }
  }

  lemma {:induction false} CasRoundsProgress(iterations: nat, rounds: seq<seq<Thread>>)
    requires forall r :: 0 <= r < |rounds| ==> Fair(rounds[r])
    ensures var s := CasRun(iterations, CAS_START, Flatten(rounds));
      Inv(iterations, Idle(s)) && (s.word >= |rounds| || Done(iterations, Idle(s)))
  {
    if rounds != [] {
      var front, last := rounds[..|rounds| - 1], rounds[|rounds| - 1];
      CasRoundsProgress(iterations, front);
      CasRunAdd(iterations, CAS_START, Flatten(front), last);
      assert Fair(last);
      CasTurnRuns(iterations, CasRun(iterations, CAS_START, Flatten(front)), last);
    }
  }

  /** Any schedule that lets both threads run in each of 2 * iterations stretches ends the test: half as many
      as with separate loads and stores. */
  lemma CasFairRunsFinish(iterations: nat, rounds: seq<seq<Thread>>)
    requires |rounds| >= 2 * iterations && forall r :: 0 <= r < |rounds| ==> Fair(rounds[r])
    ensures var s := CasRun(iterations, CAS_START, Flatten(rounds));
      && s.current1 > 2 * iterations && s.current2 > 2 * iterations && s.word == 2 * iterations
      && WritesBy(s.log, One) == iterations && WritesBy(s.log, Two) == iterations
  {
    var s := CasRun(iterations, CAS_START, Flatten(rounds));
    CasRoundsProgress(iterations, rounds);
    TurnProgresses(iterations, Idle(s), One);
    AlternatingWrites(s.log);
  }
}
