/** The asynchronous logger of src/log/logger.cc: pushing threads and one background writer that swaps two buffers.
    Each action is one step under the latch, or one step the writer takes without it. */
module Logging {

  /** Where the writer is: waiting for something to do, having swapped and released the latch, having flushed, or about
      to test the exit flag, with the latch (nothing was there to flush) or without it. */
  datatype Writer = Waiting | Swapped | Flushed | TestingLocked | TestingUnlocked | Exited

  /** `pushed` and `lastSwap` are history: everything pushed so far, and how much of it at the last swap. */
  datatype State<T> = State(front: seq<T>, standby: seq<T>, batches: seq<seq<T>>, done: bool, writer: Writer,
                            pushed: seq<T>, lastSwap: nat)

  datatype Action<T> = Push(log: T) | SetDone | Wake(timeout: bool) | Flush | Clear | Test

  const COUNT_THRESHOLD: nat := 1000

  /** The predicate the writer waits for. */
  predicate MayProceed<T>(s: State<T>, timeout: bool) {
    s.done || timeout || |s.front| >= COUNT_THRESHOLD
  }

  predicate Enabled<T>(s: State<T>, a: Action<T>) {
    match a
    case Push(_) => !s.writer.TestingLocked?
    case SetDone => true
    case Wake(timeout) => s.writer.Waiting? && MayProceed(s, timeout)
    case Flush => s.writer.Swapped?
    case Clear => s.writer.Flushed?
    case Test => s.writer.TestingLocked? || s.writer.TestingUnlocked?
  }

  function Apply<T>(s: State<T>, a: Action<T>): State<T>
    requires Enabled(s, a)
  {
    match a
    case Push(log) => s.(front := s.front + [log], pushed := s.pushed + [log])
    case SetDone => s.(done := true)
    case Wake(_) =>
      if s.front != []
      then s.(front := s.standby, standby := s.front, writer := Swapped, lastSwap := |s.pushed|)
      else s.(writer := TestingLocked)
    case Flush => s.(batches := s.batches + [s.standby], writer := Flushed)
    case Clear => s.(standby := [], writer := TestingUnlocked)
    case Test => s.(writer := if s.done then Exited else Waiting)
  }

  /** The logger object. Its methods are the stretches of code that run without a change of the latch: what the pushing
      threads do, and the four parts of the writer's loop. */
  class Logger<T> {
    var front: seq<T>
    var standby: seq<T>
    var written: seq<seq<T>>
    var done: bool
    ghost var writer: Writer
    ghost var pushed: seq<T>
    ghost var lastSwap: nat

    ghost function Now(): State<T>
      reads this
    {
      State(front, standby, written, done, writer, pushed, lastSwap)
    }

    constructor ()
      ensures Now() == State([], [], [], false, Waiting, [], 0)
    {
      front, standby, written, done := [], [], [], false;
      writer, pushed, lastSwap := Waiting, [], 0;
    }

    /** Returns whether the writer is to be woken. */
    method PushNewLog(log: T, timeout: bool) returns (notify: bool)
      requires Enabled(Now(), Push(log))
      modifies this
      ensures Now() == Apply(old(Now()), Push(log))
      ensures notify == (timeout || |front| >= COUNT_THRESHOLD)
    {
      front := front + [log];
      pushed := pushed + [log];
      notify := timeout || |front| >= COUNT_THRESHOLD;
    }

    method RequestExit()
      modifies this
      ensures Now() == Apply(old(Now()), SetDone)
    {
      done := true;
    }

    /** Under the latch, once the wait is over: swap the buffers if there is anything to flush. */
    method SwapBuffers(timeout: bool) returns (swapped: bool)
      requires Enabled(Now(), Wake(timeout))
      modifies this
      ensures Now() == Apply(old(Now()), Wake(timeout))
      ensures swapped == (old(front) != [])
    {
      swapped := |front| > 0;
      if swapped {
        front, standby := standby, front;
        writer, lastSwap := Swapped, |pushed|;
      } else {
        writer := TestingLocked;
      }
    }

    method FlushStandby()
      requires Enabled(Now(), Flush)
      modifies this
      ensures Now() == Apply(old(Now()), Flush)
    {
      written := written + [standby];
      writer := Flushed;
    }

    method ClearStandby()
      requires Enabled(Now(), Clear)
      modifies this
      ensures Now() == Apply(old(Now()), Clear)
    {
      standby := [];
      writer := TestingUnlocked;
    }

    method TestExit() returns (exit: bool)
      requires Enabled(Now(), Test)
      modifies this
      ensures Now() == Apply(old(Now()), Test) && exit == old(done)
    {
      exit := done;
      writer := if done then Exited else Waiting;
    }
  }

  predicate Init<T(==)>(s: State<T>) {
    s == State([], [], [], false, Waiting, [], 0)
  }

  function Flatten<T>(batches: seq<seq<T>>): seq<T> {
    if batches == [] then [] else Flatten(batches[..|batches| - 1]) + batches[|batches| - 1]
  }

  /** The logs that have been swapped out but not yet flushed. */
  function InFlight<T>(s: State<T>): seq<T> {
    if s.writer.Swapped? then s.standby else []
  }

  /** Nothing is lost, duplicated or reordered: what was flushed, what is in flight and the front buffer are what was
      pushed, in order; the front buffer is what was pushed since the last swap; and whenever the writer waits its
      standby buffer is empty, so every swap starts with an empty front buffer. */
  ghost predicate Inv<T>(s: State<T>) {
    && Flatten(s.batches) + InFlight(s) + s.front == s.pushed
    && s.lastSwap <= |s.pushed| && s.front == s.pushed[s.lastSwap..]
    && (!s.writer.Swapped? && !s.writer.Flushed? ==> s.standby == [])
  }

  lemma {:induction false} StepKeeps<T>(s: State<T>, a: Action<T>)
    requires Inv(s) && Enabled(s, a)
    ensures Inv(Apply(s, a))
  {
    var s' := Apply(s, a);
    match a {
      case Push(log) =>
        assert Flatten(s.batches) + InFlight(s) + (s.front + [log]) == (Flatten(s.batches) + InFlight(s) + s.front) + [log];
      case Wake(timeout) =>
        if s.front != [] {
          assert Flatten(s.batches) + [] + s.front == Flatten(s.batches) + s.front + [];
          assert s'.front == s'.pushed[|s.pushed|..];
        }
      case Flush =>
        assert s'.batches[..|s'.batches| - 1] == s.batches;
        assert Flatten(s'.batches) == Flatten(s.batches) + s.standby;
      case SetDone =>
      case Clear =>
      case Test =>
    }
  }

  ghost predicate Execution<T>(s: State<T>, actions: seq<Action<T>>, end: State<T>)
    decreases |actions|
  {
    if actions == [] then end == s
    else Enabled(s, actions[0]) && Execution(Apply(s, actions[0]), actions[1..], end)
  }

  lemma {:induction false} ExecutionKeeps<T>(s: State<T>, actions: seq<Action<T>>, end: State<T>)
    requires Inv(s) && Execution(s, actions, end)
    ensures Inv(end)
    decreases |actions|
  {
    if actions != [] {
      StepKeeps(s, actions[0]);
      ExecutionKeeps(Apply(s, actions[0]), actions[1..], end);
    }
  }

  /** Conservation in every reachable state; and once the writer has exited, exactly the logs pushed since its last
      swap are missing from what was flushed. */
  lemma {:induction false} LogsAreConserved<T>(s0: State<T>, actions: seq<Action<T>>, s: State<T>)
    requires Init(s0) && Execution(s0, actions, s)
    ensures Flatten(s.batches) + InFlight(s) + s.front == s.pushed
    ensures s.writer.Waiting? ==> s.standby == []
    ensures s.writer.Exited? ==> s.lastSwap <= |s.pushed| && Flatten(s.batches) == s.pushed[..s.lastSwap]
    ensures s.writer.Exited? ==> (Flatten(s.batches) == s.pushed <==> s.lastSwap == |s.pushed|)
  {
    assert Inv(s0) by { assert Flatten<T>([]) == []; }
    ExecutionKeeps(s0, actions, s);
    if s.writer.Exited? {
      var f := Flatten(s.batches);
      assert f + [] + s.front == f + s.front;
      assert s.pushed[..s.lastSwap] + s.pushed[s.lastSwap..] == s.pushed;
      SameTail(f, s.pushed[..s.lastSwap], s.front);
    }
  }

  lemma {:induction false} SameTail<T>(a: seq<T>, b: seq<T>, c: seq<T>)
    requires a + c == b + c
    ensures a == b
  {
    assert |a| == |b|;
    assert a == (a + c)[..|a|] == (b + c)[..|b|] == b;
  }

  /** The writer can take no step exactly when it has exited, or waits with the flag down, fewer than a thousand logs and
      no timeout. */
  lemma {:induction false} WriterBlocked<T>(s: State<T>)
    ensures !Enabled(s, Wake(false)) && !Enabled(s, Flush) && !Enabled(s, Clear) && !Enabled(s, Test)
       <==> s.writer.Exited? || (s.writer.Waiting? && !s.done && |s.front| < 1000)
    ensures s.writer.Waiting? <==> Enabled(s, Wake(true))
  {
  }

  /** One round of the writer's loop, undisturbed: whatever is in the front buffer becomes one more batch, and then the
      writer waits for the next round, or exits if the flag is up. */
  lemma {:induction false} WriterRound<T>(s: State<T>, timeout: bool) returns (round: seq<Action<T>>, end: State<T>)
    requires Inv(s) && Enabled(s, Wake(timeout))
    ensures Execution(s, round, end)
    ensures round == if s.front == [] then [Wake(timeout), Test] else [Wake(timeout), Flush, Clear, Test]
    ensures end.batches == s.batches + (if s.front == [] then [] else [s.front])
    ensures end.front == [] && end.standby == [] && end.pushed == s.pushed && end.done == s.done
    ensures end.writer == if s.done then Exited else Waiting
  {
    var s1 := Apply(s, Wake(timeout));
    if s.front == [] {
      round, end := [Wake(timeout), Test], Apply(s1, Test);
      ExecutionLast(end);
      ExecutionCons(s1, Test, [], end);
      ExecutionCons(s, Wake(timeout), [Test], end);
    } else {
      var s2 := Apply(s1, Flush);
      var s3 := Apply(s2, Clear);
      round, end := [Wake(timeout), Flush, Clear, Test], Apply(s3, Test);
      ExecutionLast(end);
      ExecutionCons(s3, Test, [], end);
      ExecutionCons(s2, Clear, [Test], end);
      ExecutionCons(s1, Flush, [Clear, Test], end);
      ExecutionCons(s, Wake(timeout), [Flush, Clear, Test], end);
    }
  }

  lemma {:induction false} ExecutionLast<T>(s: State<T>)
    ensures Execution(s, [], s)
  {
  }

  lemma {:induction false} ExecutionCons<T>(s: State<T>, a: Action<T>, actions: seq<Action<T>>, end: State<T>)
    requires Enabled(s, a) && Execution(Apply(s, a), actions, end)
    ensures Execution(s, [a] + actions, end)
  {
    assert ([a] + actions)[1..] == actions;
  }

  /** As long as the flag is down the writer goes on: it exits only with the flag up, which never goes down again. */
  lemma {:induction false} WriterGoesOn<T>(s: State<T>, actions: seq<Action<T>>, end: State<T>)
    requires (s.writer.Exited? ==> s.done) && Execution(s, actions, end)
    ensures (end.writer.Exited? ==> end.done) && (s.done ==> end.done)
    ensures end.done <==> s.done || SetDone in actions
    decreases |actions|
  {
    if actions != [] {
      WriterGoesOn(Apply(s, actions[0]), actions[1..], end);
    }
  }

  /** What a shutdown loses, seen from the moment the exit flag is up: once nothing is pushed any more, everything pushed
      is flushed by the time the writer exits, exactly when at that moment the writer waits or the front buffer is
      empty. */
  lemma {:induction false} ShutdownLosesNothing<T>(s: State<T>, actions: seq<Action<T>>, end: State<T>)
    requires Inv(s) && s.done && Execution(s, actions, end) && end.writer.Exited?
    requires forall a :: a in actions ==> !a.Push?
    ensures end.pushed == s.pushed
    ensures Flatten(end.batches) == end.pushed <==> s.writer.Waiting? || s.front == []
    decreases |actions|
  {
    if actions == [] {
      ExitedFlushed(s);
    } else {
      assert actions[0] in actions && forall a :: a in actions[1..] ==> a in actions;
      StepKeeps(s, actions[0]);
      ShutdownLosesNothing(Apply(s, actions[0]), actions[1..], end);
    }
  }

  lemma {:induction false} ExitedFlushed<T>(s: State<T>)
    requires Inv(s) && s.writer.Exited?
    ensures Flatten(s.batches) == s.pushed <==> s.front == []
  {
    assert Flatten(s.batches) + [] + s.front == Flatten(s.batches) + s.front;
    assert |s.front| == 0 ==> Flatten(s.batches) + s.front == Flatten(s.batches);
  }

  /** The flag may also go up later: shutting down loses nothing when it starts while the writer waits and nothing is
      pushed any more. */
  lemma {:induction false} QuietShutdownLosesNothing<T>(s: State<T>, actions: seq<Action<T>>, end: State<T>)
    requires Inv(s) && Execution(s, actions, end) && end.writer.Exited?
    requires s.writer.Waiting? || s.front == []
    requires forall a :: a in actions ==> !a.Push?
    ensures end.pushed == s.pushed && Flatten(end.batches) == s.pushed
    decreases |actions|
  {
    if actions == [] {
      assert Flatten(s.batches) + [] + [] == Flatten(s.batches);
    } else {
      assert actions[0] in actions && forall a :: a in actions[1..] ==> a in actions;
      StepKeeps(s, actions[0]);
      QuietShutdownLosesNothing(Apply(s, actions[0]), actions[1..], end);
    }
  }

  /** The condition can fail. A log that arrives while the writer flushes is never written if the exit flag is up
      when the writer tests it, even if the log was pushed before the flag was raised: the writer does not look at the
      front buffer again. */
  lemma {:induction false} LateLogIsLost<T>(first: T, late: T) returns (s0: State<T>, actions: seq<Action<T>>, s: State<T>)
    ensures Init(s0) && Execution(s0, actions, s) && s.writer.Exited?
    ensures s.pushed == [first, late] && Flatten(s.batches) == [first]
    ensures actions == [Push(first), Wake(true), Push(late), SetDone, Flush, Clear, Test]
  {
    s0 := State([], [], [], false, Waiting, [], 0);
    actions := [Push(first), Wake(true), Push(late), SetDone, Flush, Clear, Test];
    s := s0;
    ghost var i := 0;
    while i < 7
      invariant i <= 7
      invariant forall end :: Execution(s, actions[i..], end) ==> Execution(s0, actions, end)
      invariant i == 0 ==> s == s0 && actions[i..] == actions
      invariant i == 1 ==> s == State([first], [], [], false, Waiting, [first], 0)
      invariant i == 2 ==> s == State([], [first], [], false, Swapped, [first], 1)
      invariant i == 3 ==> s == State([late], [first], [], false, Swapped, [first, late], 1)
      invariant i == 4 ==> s == State([late], [first], [], true, Swapped, [first, late], 1)
      invariant i == 5 ==> s == State([late], [first], [[first]], true, Flushed, [first, late], 1)
      invariant i == 6 ==> s == State([late], [], [[first]], true, TestingUnlocked, [first, late], 1)
      invariant i == 7 ==> s == State([late], [], [[first]], true, Exited, [first, late], 1)
    {
      assert actions[i..][0] == actions[i] && actions[i..][1..] == actions[i + 1..];
      s := Apply(s, actions[i]);
      i := i + 1;
    }
    assert actions[7..] == [];
    assert Flatten([[first]]) == Flatten<T>([[first]][..0]) + [first];
  }
}
