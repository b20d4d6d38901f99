/** The task queue and the pool that runs one event loop per thread (src/include/core/threadSafeQueue.h,
    src/include/core/threadPool.h, src/include/core/icee_server.h). */
module Pool {
  import opened Strings

  /** The queue; its mutex makes every operation one step. */
  class ThreadSafeQueue<T> {
    var contents: seq<T>

    constructor ()
      ensures contents == []
    {
      contents := [];
    }

    method Push(value: T)
      modifies this
      ensures contents == old(contents) + [value]
    {
      contents := contents + [value];
    }

    method TryPop() returns (value: Option<T>)
      modifies this
      ensures old(contents) == [] ==> value == None && contents == []
      ensures old(contents) != [] ==> value == Some(old(contents)[0]) && contents == old(contents)[1..]
    {
      if contents == [] {
        return None;
      }
      value := Some(contents[0]);
      contents := contents[1..];
    }
  }

  /** The loops of the reactors, in the order the server submits them. */
  function Loops(n: nat): (s: seq<nat>)
    ensures |s| == n && forall i :: 0 <= i < n ==> s[i] == i
  {
    seq(n, i => i)
  }

  /** The part of the server's constructor that submits one loop for each pool thread. */
  method SubmitLoops(queue: ThreadSafeQueue<nat>, threads: nat)
    modifies queue
    ensures queue.contents == old(queue.contents) + Loops(threads)
  {
    assert old(queue.contents) + Loops(0) == old(queue.contents);
    for i := 0 to threads
      invariant queue.contents == old(queue.contents) + Loops(i)
    {
      queue.Push(i);
      assert Loops(i + 1) == Loops(i) + [i];
    }
  }

  // ---- The workers ----

  datatype Worker<T> = Idle | Busy(task: T) | Stopped

  /** `pushed` and `taken` are history: all tasks ever pushed, and which worker took the next one of them. */
  datatype State<T> = State(queue: seq<T>, workers: seq<Worker<T>>, done: bool, pushed: seq<T>, taken: seq<nat>)

  datatype Action<T> = Submit(task: T) | Take(w: nat) | Finish(w: nat) | SetDone | Stop(w: nat)

  /** A worker looks at the exit flag only between tasks; it may have read the flag before it went up. */
  predicate Enabled<T>(s: State<T>, a: Action<T>) {
    match a
    case Submit(_) => true
    case Take(w) => w < |s.workers| && s.workers[w].Idle? && s.queue != []
    case Finish(w) => w < |s.workers| && s.workers[w].Busy?
    case SetDone => true
    case Stop(w) => w < |s.workers| && s.workers[w].Idle? && s.done
  }

  function Apply<T>(s: State<T>, a: Action<T>): State<T>
    requires Enabled(s, a)
  {
    match a
    case Submit(task) => s.(queue := s.queue + [task], pushed := s.pushed + [task])
    case Take(w) =>
      s.(queue := s.queue[1..], workers := s.workers[w := Busy(s.queue[0])], taken := s.taken + [w])
    case Finish(w) => s.(workers := s.workers[w := Idle])
    case SetDone => s.(done := true)
    case Stop(w) => s.(workers := s.workers[w := Stopped])
  }

  predicate Init<T>(s: State<T>, threads: nat) {
    && s.queue == [] && !s.done && s.pushed == [] && s.taken == []
    && |s.workers| == threads && forall w :: 0 <= w < threads ==> s.workers[w].Idle?
  }

  /** The `i`-th task was the last one worker `w` took. */
  ghost predicate TookLast<T>(s: State<T>, w: nat, i: nat) {
    i < |s.taken| && s.taken[i] == w && forall j :: i < j < |s.taken| ==> s.taken[j] != w
  }

  /** A busy worker runs the last task it took. */
  ghost predicate RunsTaken<T>(s: State<T>) {
    forall w :: 0 <= w < |s.workers| && s.workers[w].Busy? ==>
      exists i: nat :: TookLast(s, w, i) && i < |s.pushed| && s.pushed[i] == s.workers[w].task
  }

  /** Tasks leave the queue in the order they came, each once and to one worker. */
  ghost predicate Inv<T>(s: State<T>) {
    && |s.taken| <= |s.pushed| && s.queue == s.pushed[|s.taken|..]
    && (forall i :: 0 <= i < |s.taken| ==> s.taken[i] < |s.workers|)
    && RunsTaken(s)
    && (!s.done ==> forall w :: 0 <= w < |s.workers| ==> !s.workers[w].Stopped?)
  }

  lemma {:induction false} TakeKeeps<T>(s: State<T>, w: nat)
    requires Inv(s) && Enabled(s, Take(w))
    ensures Inv(Apply(s, Take(w)))
  {
    var s', n := Apply(s, Take(w)), |s.taken|;
    assert s.queue[0] == s.pushed[n];
    forall v | 0 <= v < |s'.workers| && s'.workers[v].Busy?
      ensures exists i: nat :: TookLast(s', v, i) && i < |s'.pushed| && s'.pushed[i] == s'.workers[v].task
    {
      if v == w {
        assert TookLast(s', w, n);
      } else {
        var i: nat :| TookLast(s, v, i) && i < |s.pushed| && s.pushed[i] == s.workers[v].task;
        assert TookLast(s', v, i);
      }
    }
  }

  lemma {:induction false} StepKeeps<T>(s: State<T>, a: Action<T>)
    requires Inv(s) && Enabled(s, a)
    ensures Inv(Apply(s, a))
  {
    var s' := Apply(s, a);
    if a.Take? {
      TakeKeeps(s, a.w);
    } else {
      forall w | 0 <= w < |s'.workers| && s'.workers[w].Busy?
        ensures exists i: nat :: TookLast(s', w, i) && i < |s'.pushed| && s'.pushed[i] == s'.workers[w].task
      {
        assert s.workers[w] == s'.workers[w];
        var i: nat :| TookLast(s, w, i) && i < |s.pushed| && s.pushed[i] == s.workers[w].task;
        assert TookLast(s', w, i);
      }
    }
  }

  ghost predicate Execution<T>(s: State<T>, actions: seq<Action<T>>, end: State<T>)
    decreases |actions|
  {
    if actions == [] then end == s
    else Enabled(s, actions[0]) && Execution(Apply(s, actions[0]), actions[1..], end)
  }

  lemma {:induction false} ExecutionKeeps<T>(s: State<T>, actions: seq<Action<T>>, end: State<T>)
    requires Inv(s) && Execution(s, actions, end)
    ensures Inv(end) && |end.workers| == |s.workers|
    decreases |actions|
  {
    if actions != [] {
      StepKeeps(s, actions[0]);
      ExecutionKeeps(Apply(s, actions[0]), actions[1..], end);
    }
  }

  // ---- Counting workers ----

  function Below(n: nat): (r: set<nat>)
    ensures |r| == n && forall w :: w in r <==> 0 <= w < n
  {
    if n == 0 then {} else Below(n - 1) + {n - 1}
  }

  function Members(s: seq<nat>): (r: set<nat>)
    ensures |r| <= |s| && forall w :: w in s ==> w in r
  {
    if s == [] then {} else Members(s[1..]) + {s[0]}
  }

  lemma {:induction false} SubsetCardinality<T>(a: set<T>, b: set<T>)
    requires a <= b
    ensures |a| <= |b|
    decreases a
  {
    if a != {} {
      var x :| x in a;
      SubsetCardinality(a - {x}, b - {x});
    }
  }

  function BusyWorkers<T>(s: State<T>): set<nat> {
    set w | w in Below(|s.workers|) && s.workers[w].Busy?
  }

  /** Different workers run tasks taken at different times, so no more workers are busy than tasks were taken. */
  lemma {:induction false} BusyBound<T>(s: State<T>)
    requires Inv(s)
    ensures |BusyWorkers(s)| <= |s.taken|
  {
    forall w | w in BusyWorkers(s) ensures w in Members(s.taken) {
      var i: nat :| TookLast(s, w, i) && i < |s.pushed| && s.pushed[i] == s.workers[w].task;
      assert s.taken[i] in s.taken;
    }
    SubsetCardinality(BusyWorkers(s), Members(s.taken));
  }

  lemma {:induction false} SomeWorkerNotBusy<T>(s: State<T>)
    requires Inv(s) && |s.taken| < |s.workers|
    ensures exists w :: 0 <= w < |s.workers| && !s.workers[w].Busy?
  {
    BusyBound(s);
    if Below(|s.workers|) <= BusyWorkers(s) {
      SubsetCardinality(Below(|s.workers|), BusyWorkers(s));
    } else {
      var w :| w in Below(|s.workers|) && w !in BusyWorkers(s);
      assert !s.workers[w].Busy?;
    }
  }

  /** In every interleaving: the tasks pushed are the tasks taken, in order and each by one worker, followed by the
      queue; a busy worker runs a task it took; and as long as no more tasks were pushed than there are threads and the
      pool is not shutting down, a task in the queue finds an idle worker, so no event loop waits behind another. */
  lemma {:induction false} NoLoopWaitsBehindAnother<T>(s0: State<T>, threads: nat, actions: seq<Action<T>>, s: State<T>)
    requires Init(s0, threads) && Execution(s0, actions, s)
    ensures |s.taken| <= |s.pushed| && s.queue == s.pushed[|s.taken|..]
    ensures RunsTaken(s)
    ensures |s.pushed| <= threads && !s.done && s.queue != [] ==>
      exists w :: 0 <= w < |s.workers| && s.workers[w].Idle?
  {
    ExecutionKeeps(s0, actions, s);
    if |s.pushed| <= threads && !s.done && s.queue != [] {
      SomeWorkerNotBusy(s);
    }
  }

  // ---- Shutting down ----

  /** A worker that is between tasks when the flag is up can stop, and then it never takes a task again; no worker stops
      before the flag is up, or in the middle of a task. */
  lemma {:induction false} WorkersStop<T>(s: State<T>, w: nat)
    ensures Enabled(s, Stop(w)) <==> w < |s.workers| && s.workers[w].Idle? && s.done
    ensures Enabled(s, Stop(w)) ==> w < |Apply(s, Stop(w)).workers| && Apply(s, Stop(w)).workers[w].Stopped?
    ensures Apply(s, SetDone).done
  {
  }

  lemma {:induction false} StoppedForEver<T>(s: State<T>, w: nat, actions: seq<Action<T>>, end: State<T>)
    requires w < |s.workers| && s.workers[w].Stopped? && Execution(s, actions, end)
    ensures w < |end.workers| && end.workers[w].Stopped?
    ensures Take(w) !in actions
    decreases |actions|
  {
    if actions != [] {
      StoppedForEver(Apply(s, actions[0]), w, actions[1..], end);
    }
  }

  // ---- One loop per thread ----

  /** As long as no task has ended, no worker has taken two. */
  lemma {:induction false} LoopsNeverShareAThread<T>(s0: State<T>, threads: nat, actions: seq<Action<T>>, s: State<T>)
    requires Init(s0, threads) && Execution(s0, actions, s)
    requires forall a :: a in actions ==> !a.Finish?
    ensures forall i, j :: 0 <= i < j < |s.taken| ==> s.taken[i] != s.taken[j]
    ensures forall i :: 0 <= i < |s.taken| ==>
      s.taken[i] < |s.workers| && i < |s.pushed| && s.workers[s.taken[i]] == Busy(s.pushed[i])
  {
    OneTaskEach(s0, actions, s);
  }

  ghost predicate OneEach<T>(s: State<T>) {
    && |s.taken| <= |s.pushed| && s.queue == s.pushed[|s.taken|..]
    && (forall i, j :: 0 <= i < j < |s.taken| ==> s.taken[i] != s.taken[j])
    && (forall i :: 0 <= i < |s.taken| ==>
         s.taken[i] < |s.workers| && s.workers[s.taken[i]] == Busy(s.pushed[i]))
  }

  lemma {:induction false} OneTaskEach<T>(s: State<T>, actions: seq<Action<T>>, end: State<T>)
    requires OneEach(s) && Execution(s, actions, end)
    requires forall a :: a in actions ==> !a.Finish?
    ensures OneEach(end)
    decreases |actions|
  {
    if actions != [] {
      assert actions[0] in actions && forall a :: a in actions[1..] ==> a in actions;
      OneEachStep(s, actions[0]);
      OneTaskEach(Apply(s, actions[0]), actions[1..], end);
    }
  }

  lemma {:induction false} OneEachStep<T>(s: State<T>, a: Action<T>)
    requires OneEach(s) && Enabled(s, a) && !a.Finish?
    ensures OneEach(Apply(s, a))
  {
  }
}
