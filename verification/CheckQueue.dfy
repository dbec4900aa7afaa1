/** The check queue of src/checkqueue.h as a transition system: every critical section of Loop and Add is one
    atomic step, threads evaluate their batches between steps, and any interleaving of any number of workers
    with the one master is a run. */
module CheckQueue {
  import opened Options
  import opened Powers

  /** A verification job, and what it evaluates to. */
  datatype Check = Check(id: nat, passes: bool)

  datatype Phase =
    | Outside                                // not in Loop
    | Asleep(notified: bool)                 // in cond.wait
    | Working(batch: seq<Check>, ok: bool)   // outside the lock, with a batch and the status it started from

  /** Thread 0 is the master. `added` and `done` record what has been added and completed since the last Wait
      returned, `returned` the result of that Wait. */
  datatype State = State(
    queue: seq<Check>, nIdle: int, nTotal: int, fAllOk: bool, nTodo: int, fQuit: bool,
    threads: seq<Phase>,
    added: multiset<Check>, done: multiset<Check>, returned: Option<bool>)

  datatype Step =
    | Enter(t: nat)                            // Thread() or Wait() is called
    | Finish(t: nat)                           // a batch is done
    | Wake(t: nat)                             // cond.wait returns, notified or spuriously
    | Add(checks: seq<Check>, woken: nat)      // notify_one wakes thread `woken`

  function Init(workers: nat): State {
    State([], 0, 0, true, 0, false, seq(workers + 1, _ => Outside), multiset{}, multiset{}, None)
  }

  // ----- The critical sections -----

  /** n elements from the back of the queue, last one first. */
  function TakeBack(q: seq<Check>, n: nat): (batch: seq<Check>)
    requires n <= |q|
    ensures |batch| == n && multiset(batch) == multiset(q[|q| - n..])
  {
    if n == 0 then []
    else
      var last := |q| - 1;
      var rest := TakeBack(q[..last], n - 1);
      assert q[|q| - n..] == q[..last][|q| - n..] + [q[last]];
      [q[last]] + rest
  }

  /** max(1, min(nBatchSize, size / (nTotal + nIdle + 1))); both counters are shown to be non-negative below. */
  function BatchSize(s: State, nBatchSize: nat): (n: nat)
    requires s.queue != []
    ensures 1 <= n <= |s.queue|
  {
    var threads := if s.nTotal + s.nIdle >= 0 then s.nTotal + s.nIdle + 1 else 1;
    var share := Quot(|s.queue|, threads);
    var capped := if share < nBatchSize then share else nBatchSize;
    if capped > 1 then capped else 1
  }

  /** A batch is the largest number of checks that is within the limit and an equal share of the queue, or one. */
  lemma BatchSizeExactly(s: State, nBatchSize: nat)
    requires s.queue != [] && s.nTotal + s.nIdle >= 0
    ensures var n, sharers := BatchSize(s, nBatchSize), s.nTotal + s.nIdle + 1;
            && (n == 1 || (n <= nBatchSize && n * sharers <= |s.queue|))
            && (n + 1 > nBatchSize || (n + 1) * sharers > |s.queue|)
  {
    hide Quot;
    var sharers := s.nTotal + s.nIdle + 1;
    var share := Quot(|s.queue|, sharers);
    var n := BatchSize(s, nBatchSize);
    if n <= share {
      MulMono(n, share, sharers, sharers);
    }
    if share <= n {
      MulMono(share + 1, n + 1, sharers, sharers);
    }
  }

  /** The inner while loop: with an empty queue the thread returns or goes to sleep, otherwise it takes a batch. */
  function LoopTop(s: State, t: nat, nBatchSize: nat): State
    requires t < |s.threads|
  {
    if s.queue == [] then
      if (t == 0 || s.fQuit) && s.nTodo == 0 then
        var left := s.(nTotal := s.nTotal - 1, threads := s.threads[t := Outside]);
        if t == 0 then left.(fAllOk := true, returned := Some(s.fAllOk), added := multiset{}, done := multiset{})
        else left
      else
        s.(nIdle := s.nIdle + 1, threads := s.threads[t := Asleep(false)])
    else
      var n := BatchSize(s, nBatchSize);
      s.(queue := s.queue[..|s.queue| - n],
         threads := s.threads[t := Working(TakeBack(s.queue, n), s.fAllOk)])
  }

  /** Running a batch: once a check fails the rest is skipped. */
  function RunBatch(batch: seq<Check>, ok: bool): (r: bool)
    ensures r <==> ok && forall c | c in batch :: c.passes
  {
    if batch == [] then ok
    else
      assert batch == [batch[0]] + batch[1..];
      RunBatch(batch[1..], if ok then batch[0].passes else ok)
  }

  function NotifyMaster(threads: seq<Phase>): seq<Phase>
    requires threads != []
  {
    if threads[0].Asleep? then threads[0 := Asleep(true)] else threads
  }

  /** The clean-up of the previous round, done when the lock is taken again. */
  function CleanUp(s: State, t: nat): State
    requires t < |s.threads| && s.threads[t].Working?
  {
    var batch := s.threads[t].batch;
    var left := s.nTodo - |batch|;
    s.(fAllOk := s.fAllOk && RunBatch(batch, s.threads[t].ok),
       nTodo := left,
       threads := if left == 0 && t != 0 then NotifyMaster(s.threads[t := Outside]) else s.threads[t := Outside],
       done := s.done + multiset(batch))
  }

  function NotifyAllWorkers(threads: seq<Phase>): (r: seq<Phase>)
    ensures |r| == |threads|
    ensures forall i | 0 <= i < |r| :: r[i] == if i > 0 && threads[i].Asleep? then Asleep(true) else threads[i]
  {
    seq(|threads|, i requires 0 <= i < |threads| => if i > 0 && threads[i].Asleep? then Asleep(true) else threads[i])
  }

  predicate Unnotified(threads: seq<Phase>, i: nat) {
    0 < i < |threads| && threads[i] == Asleep(false)
  }

  function NotifyOne(threads: seq<Phase>, woken: nat): seq<Phase> {
    if Unnotified(threads, woken) then threads[woken := Asleep(true)] else threads
  }

  // ----- The transition system -----

  /** The master adds only between Waits; notify_one wakes some sleeping worker if there is one. */
  predicate Enabled(s: State, step: Step) {
    match step
    case Enter(t) => t < |s.threads| && s.threads[t] == Outside
    case Finish(t) => t < |s.threads| && s.threads[t].Working?
    case Wake(t) => t < |s.threads| && s.threads[t].Asleep?
    case Add(checks, woken) =>
      && |s.threads| > 0 && s.threads[0] == Outside
      && (|checks| == 1 ==> Unnotified(s.threads, woken) || forall i | 0 < i < |s.threads| :: !Unnotified(s.threads, i))
  }

  function Apply(s: State, step: Step, nBatchSize: nat): State
    requires Enabled(s, step)
  {
    match step
    case Enter(t) => LoopTop(s.(nTotal := s.nTotal + 1), t, nBatchSize)
    case Finish(t) => LoopTop(CleanUp(s, t), t, nBatchSize)
    case Wake(t) => LoopTop(s.(nIdle := s.nIdle - 1, threads := s.threads[t := Outside]), t, nBatchSize)
    case Add(checks, woken) =>
      s.(queue := s.queue + checks,
         nTodo := s.nTodo + |checks|,
         threads := if |checks| == 1 then NotifyOne(s.threads, woken)
                    else if |checks| > 1 then NotifyAllWorkers(s.threads) else s.threads,
         added := s.added + multiset(checks))
  }

  // ----- What every step keeps -----

  function BatchOf(p: Phase): seq<Check> { if p.Working? then p.batch else [] }

  ghost function Held(threads: seq<Phase>): multiset<Check> {
    if threads == [] then multiset{}
    else Held(threads[..|threads| - 1]) + multiset(BatchOf(threads[|threads| - 1]))
  }

  ghost function Idle(threads: seq<Phase>): nat {
    if threads == [] then 0
    else Idle(threads[..|threads| - 1]) + if threads[|threads| - 1].Asleep? then 1 else 0
  }

  ghost function Inside(threads: seq<Phase>): nat {
    if threads == [] then 0
    else Inside(threads[..|threads| - 1]) + if threads[|threads| - 1].Outside? then 0 else 1
  }

  lemma AddBoth(x: multiset<Check>, a: multiset<Check>, y: multiset<Check>, b: multiset<Check>, c: multiset<Check>)
    requires x + a == y + b
    ensures (x + c) + a == (y + c) + b
  {
    forall e: Check
      ensures ((x + c) + a)[e] == ((y + c) + b)[e]
    {
      assert (x + a)[e] == (y + b)[e];
    }
  }

  lemma {:induction false} ChangeHeld(threads: seq<Phase>, i: nat, p: Phase)
    requires i < |threads|
    ensures Held(threads[i := p]) + multiset(BatchOf(threads[i])) == Held(threads) + multiset(BatchOf(p))
    decreases |threads|
  {
    hide BatchOf;
    var n := |threads| - 1;
    var last := multiset(BatchOf(threads[n]));
    if i < n {
      ChangeHeld(threads[..n], i, p);
      assert threads[i := p][..n] == threads[..n][i := p];
      var a, b := multiset(BatchOf(threads[i])), multiset(BatchOf(p));
      var x, y := Held(threads[..n][i := p]), Held(threads[..n]);
      AddBoth(x, a, y, b, last);
    } else {
      assert threads[i := p][..n] == threads[..n];
    }
  }

  lemma {:induction false} ChangeCounts(threads: seq<Phase>, i: nat, p: Phase)
    requires i < |threads|
    ensures Idle(threads[i := p]) + (if threads[i].Asleep? then 1 else 0) == Idle(threads) + if p.Asleep? then 1 else 0
    ensures Inside(threads[i := p]) + (if threads[i].Outside? then 0 else 1) == Inside(threads) + if p.Outside? then 0 else 1
    decreases |threads|
  {
    var n := |threads| - 1;
    if i < n {
      ChangeCounts(threads[..n], i, p);
      assert threads[i := p][..n] == threads[..n][i := p];
    } else {
      assert threads[i := p][..n] == threads[..n];
    }
  }

  /** Waking sleepers does not change any of the three sums. */
  lemma {:induction false} Notified(threads: seq<Phase>, r: seq<Phase>)
    requires |r| == |threads|
    requires forall i | 0 <= i < |r| :: r[i] == threads[i] || (threads[i].Asleep? && r[i] == Asleep(true))
    ensures Held(r) == Held(threads) && Idle(r) == Idle(threads) && Inside(r) == Inside(threads)
    decreases |threads|
  {
    if threads != [] {
      var n := |threads| - 1;
      Notified(threads[..n], r[..n]);
    }
  }

  ghost predicate Active(p: Phase) { p.Working? || p == Asleep(true) }

  /** Work in the queue is not forgotten: a worker is on it or has been woken, or there are no workers. */
  ghost predicate NotStranded(queue: seq<Check>, threads: seq<Phase>) {
    queue == []
    || (exists i :: 0 < i < |threads| && Active(threads[i]))
    || (forall i | 0 < i < |threads| :: threads[i].Outside?)
  }

  /** What holds of the counters, the batches and the result, with `locked` more threads inside than the phases show. */
  ghost predicate Accounts(s: State, locked: nat) {
    && |s.threads| > 0 && !s.fQuit
    && s.nIdle == Idle(s.threads) && s.nTotal == Inside(s.threads) + locked
    && s.nTodo == |s.queue| + |Held(s.threads)|
    && multiset(s.queue) + Held(s.threads) + s.done == s.added
    && (s.fAllOk <==> forall c | c in s.done :: c.passes)
    && (forall i | 0 <= i < |s.threads| && s.threads[i].Working? ::
          s.threads[i].batch != [] && (s.threads[i].ok || !s.fAllOk))
  }

  /** The master never sleeps through the end: asleep and not notified, there is still something to do. */
  ghost predicate MasterWillWake(s: State)
    requires |s.threads| > 0
  {
    s.threads[0].Asleep? ==> s.queue == [] && (s.threads[0].notified || s.nTodo > 0)
  }

  ghost predicate Inv(s: State) {
    Accounts(s, 0) && MasterWillWake(s) && NotStranded(s.queue, s.threads)
  }

  /** The same while thread t holds the lock. */
  ghost predicate Locked(s: State, t: nat) {
    && Accounts(s, 1) && MasterWillWake(s) && t < |s.threads| && s.threads[t] == Outside
    && (t == 0 ==> NotStranded(s.queue, s.threads))
  }

  lemma InitInv(workers: nat)
    ensures Inv(Init(workers))
  {
    AllOutside(Init(workers).threads);
  }

  lemma {:induction false} AllOutside(threads: seq<Phase>)
    requires forall i | 0 <= i < |threads| :: threads[i] == Outside
    ensures Held(threads) == multiset{} && Idle(threads) == 0 && Inside(threads) == 0
  {
    if threads != [] {
      AllOutside(threads[..|threads| - 1]);
    }
  }

  lemma NoBatchChange(threads: seq<Phase>, i: nat, p: Phase)
    requires i < |threads| && threads[i] == Outside && !p.Working?
    ensures Held(threads[i := p]) == Held(threads)
  {
    hide Held;
    ChangeHeld(threads, i, p);
    var x, y := Held(threads[i := p]), Held(threads);
    assert x == x + multiset{} && y == y + multiset{};
  }

  /** Nothing to do: the master leaves with the result. */
  lemma LeaveKeeps(s: State, nBatchSize: nat)
    requires Locked(s, 0) && s.queue == [] && s.nTodo == 0
    ensures Inv(LoopTop(s, 0, nBatchSize))
  {
    hide Held, Idle, Inside;
    var s' := LoopTop(s, 0, nBatchSize);
    assert s'.threads == s.threads;
    assert Held(s.threads) == multiset{};
    forall i | 0 <= i < |s'.threads|
      ensures !s'.threads[i].Working?
    {
      if s'.threads[i].Working? {
        HeldIncludes(s'.threads, i);
      }
    }
  }

  /** An empty queue but work outstanding, or a worker: the thread falls asleep. */
  lemma SleepKeeps(s: State, t: nat, nBatchSize: nat)
    requires Locked(s, t) && s.queue == [] && !(t == 0 && s.nTodo == 0)
    ensures Inv(LoopTop(s, t, nBatchSize))
  {
    hide Held, Idle, Inside;
    ChangeCounts(s.threads, t, Asleep(false));
    NoBatchChange(s.threads, t, Asleep(false));
  }

  /** A thread's batch is part of what is held. */
  lemma {:induction false} HeldIncludes(threads: seq<Phase>, i: nat)
    requires i < |threads| && threads[i].Working?
    ensures multiset(threads[i].batch) <= Held(threads)
    decreases |threads|
  {
    if i < |threads| - 1 {
      HeldIncludes(threads[..|threads| - 1], i);
    }
  }

  lemma SplitQueue(q: seq<Check>, k: nat)
    requires k <= |q|
    ensures multiset(q) == multiset(q[..k]) + multiset(q[k..])
  {
    assert q == q[..k] + q[k..];
  }

  /** A queue with work: a batch moves from the queue to the thread. */
  lemma TakeKeeps(s: State, t: nat, nBatchSize: nat)
    requires Locked(s, t) && s.queue != []
    ensures Inv(LoopTop(s, t, nBatchSize))
  {
    hide Held, Idle, Inside, TakeBack, BatchSize;
    var s' := LoopTop(s, t, nBatchSize);
    var n := BatchSize(s, nBatchSize);
    ChangeHeld(s.threads, t, s'.threads[t]);
    ChangeCounts(s.threads, t, s'.threads[t]);
    SplitQueue(s.queue, |s.queue| - n);
    var batch := TakeBack(s.queue, n);
    assert Held(s'.threads) == Held(s.threads) + multiset(batch);
    assert t != 0 ==> Active(s'.threads[t]);
    if t == 0 {
      assert forall i | 0 < i < |s.threads| :: s'.threads[i] == s.threads[i];
    }
  }

  lemma LoopTopKeeps(s: State, t: nat, nBatchSize: nat)
    requires Locked(s, t)
    ensures Inv(LoopTop(s, t, nBatchSize))
  {
    hide Inv, LoopTop;
    if s.queue != [] {
      TakeKeeps(s, t, nBatchSize);
    } else if t == 0 && s.nTodo == 0 {
      LeaveKeeps(s, nBatchSize);
    } else {
      SleepKeeps(s, t, nBatchSize);
    }
  }

  lemma WakeLocks(s: State, t: nat)
    requires Inv(s) && Enabled(s, Wake(t))
    ensures Locked(s.(nIdle := s.nIdle - 1, threads := s.threads[t := Outside]), t)
  {
    hide Held, Idle, Inside;
    ChangeCounts(s.threads, t, Outside);
    ChangeHeld(s.threads, t, Outside);
    var x, y := Held(s.threads[t := Outside]), Held(s.threads);
    assert x == x + multiset{} && y == y + multiset{};
    if t == 0 {
      assert s.queue == [];
    }
  }

  /** Completing a batch: its checks move from the thread to `done`, and the last one out wakes the master. */
  lemma FinishLocks(s: State, t: nat)
    requires Inv(s) && Enabled(s, Finish(t))
    ensures Locked(CleanUp(s, t), t)
  {
    hide Held, Idle, Inside, NotStranded;
    var s' := CleanUp(s, t);
    var batch := s.threads[t].batch;
    var mid := s.threads[t := Outside];
    ChangeCounts(s.threads, t, Outside);
    ChangeHeld(s.threads, t, Outside);
    Notified(mid, s'.threads);
    assert Held(mid) + multiset(batch) == Held(s.threads) + multiset{} == Held(s.threads);
    FinishResult(s, t);
    if t == 0 {
      StrandedByWorkers(s.queue, s.threads, s'.threads);
    }
  }

  lemma StrandedByWorkers(queue: seq<Check>, a: seq<Phase>, b: seq<Phase>)
    requires NotStranded(queue, a) && |a| == |b| && forall i | 0 < i < |a| :: a[i] == b[i]
    ensures NotStranded(queue, b)
  {
    if i :| 0 < i < |a| && Active(a[i]) {
      assert Active(b[i]);
    }
  }

  /** Skipping the rest of a batch after a failure loses no failure and makes up none. */
  lemma FinishResult(s: State, t: nat)
    requires Inv(s) && Enabled(s, Finish(t))
    ensures var s' := CleanUp(s, t); s'.fAllOk <==> forall c | c in s'.done :: c.passes
  {
    var s' := CleanUp(s, t);
    var batch := s.threads[t].batch;
    assert forall c :: c in s'.done <==> c in s.done || c in batch;
  }

  lemma AddKeeps(s: State, checks: seq<Check>, woken: nat, nBatchSize: nat)
    requires Inv(s) && Enabled(s, Add(checks, woken))
    ensures Inv(Apply(s, Add(checks, woken), nBatchSize))
  {
    hide Held, Idle, Inside;
    var s' := Apply(s, Add(checks, woken), nBatchSize);
    Notified(s.threads, s'.threads);
    assert multiset(s.queue + checks) == multiset(s.queue) + multiset(checks);
    AddNotStranded(s, checks, woken);
    hide NotStranded;
  }

  lemma AddNotStranded(s: State, checks: seq<Check>, woken: nat)
    requires NotStranded(s.queue, s.threads) && Enabled(s, Add(checks, woken))
    ensures var s' := Apply(s, Add(checks, woken), 0); NotStranded(s'.queue, s'.threads)
  {
    var s' := Apply(s, Add(checks, woken), 0);
    if checks == [] {
      assert s'.queue == s.queue;
    } else if i :| 0 < i < |s.threads| && s.threads[i] == Asleep(false) {
      assert Unnotified(s.threads, i);
      var j := if |checks| == 1 then woken else i;
      assert Active(s'.threads[j]);
    } else if i :| 0 < i < |s.threads| && s.threads[i] != Outside {
      assert Active(s'.threads[i]);
    }
  }

  /** Every step of every thread keeps the invariant. */
  lemma StepKeeps(s: State, step: Step, nBatchSize: nat)
    requires Inv(s) && Enabled(s, step)
    ensures Inv(Apply(s, step, nBatchSize))
  {
    hide LoopTop, CleanUp, Held, Idle, Inside;
    match step
    case Enter(t) =>
      LoopTopKeeps(s.(nTotal := s.nTotal + 1), t, nBatchSize);
    case Finish(t) =>
      FinishLocks(s, t);
      LoopTopKeeps(CleanUp(s, t), t, nBatchSize);
    case Wake(t) =>
      WakeLocks(s, t);
      LoopTopKeeps(s.(nIdle := s.nIdle - 1, threads := s.threads[t := Outside]), t, nBatchSize);
    case Add(checks, woken) =>
      AddKeeps(s, checks, woken, nBatchSize);
  }

  // ----- Runs -----

  /** A run of any interleaving, from the constructed queue. */
  ghost predicate IsRun(workers: nat, nBatchSize: nat, steps: seq<Step>, states: seq<State>) {
    && |states| == |steps| + 1 && states[0] == Init(workers)
    && forall i | 0 <= i < |steps| :: Enabled(states[i], steps[i]) && states[i + 1] == Apply(states[i], steps[i], nBatchSize)
  }

  lemma {:induction false} RunKeeps(workers: nat, nBatchSize: nat, steps: seq<Step>, states: seq<State>, i: nat)
    requires IsRun(workers, nBatchSize, steps, states) && i < |states|
    ensures Inv(states[i])
  {
    hide Apply, Inv, Enabled, Init;
    if i == 0 {
      InitInv(workers);
    } else {
      RunKeeps(workers, nBatchSize, steps, states, i - 1);
      StepKeeps(states[i - 1], steps[i - 1], nBatchSize);
    }
  }

  /** What was added to the queue by a stretch of steps. */
  ghost function AddedBy(steps: seq<Step>): multiset<Check> {
    if steps == [] then multiset{}
    else
      var last := steps[|steps| - 1];
      AddedBy(steps[..|steps| - 1]) + if last.Add? then multiset(last.checks) else multiset{}
  }

  /** The state in which the stepping thread holds the lock and reaches the inner loop. */
  function AtLoopTop(s: State, step: Step): State
    requires Enabled(s, step) && !step.Add?
  {
    match step
    case Enter(t) => s.(nTotal := s.nTotal + 1)
    case Finish(t) => CleanUp(s, t)
    case Wake(t) => s.(nIdle := s.nIdle - 1, threads := s.threads[t := Outside])
  }

  lemma ReachesLoopTop(s: State, step: Step, nBatchSize: nat)
    requires Inv(s) && Enabled(s, step) && !step.Add?
    ensures Apply(s, step, nBatchSize) == LoopTop(AtLoopTop(s, step), step.t, nBatchSize)
    ensures Locked(AtLoopTop(s, step), step.t) && AtLoopTop(s, step).added == s.added
  {
    hide LoopTop, Held, Idle, Inside, NotStranded;
    if step.Finish? {
      FinishLocks(s, step.t);
    } else if step.Wake? {
      WakeLocks(s, step.t);
    }
  }

  /** This step is the master's return from Wait. */
  ghost predicate Returns(s: State, step: Step)
    requires Enabled(s, step)
  {
    !step.Add? && step.t == 0 && AtLoopTop(s, step).queue == [] && AtLoopTop(s, step).nTodo == 0
  }

  /** Wait returns true exactly when every check added since the last Wait evaluates to true. */
  lemma WaitIsExact(s: State, step: Step, nBatchSize: nat)
    requires Inv(s) && Enabled(s, step) && Returns(s, step)
    ensures var s' := Apply(s, step, nBatchSize);
            && s'.threads[0] == Outside && s'.added == multiset{}
            && s'.returned == Some(forall c | c in s.added :: c.passes)
  {
    hide Held, Idle, Inside, NotStranded, AtLoopTop, CleanUp;
    ReachesLoopTop(s, step, nBatchSize);
    var locked := AtLoopTop(s, step);
    assert multiset(locked.queue) + Held(locked.threads) == multiset{};
    assert locked.done == locked.added;
  }

  /** Any other step adds to the record what it adds to the queue, and leaves the last result alone. */
  lemma OtherSteps(s: State, step: Step, nBatchSize: nat)
    requires Inv(s) && Enabled(s, step) && !Returns(s, step)
    ensures var s' := Apply(s, step, nBatchSize);
            && s'.added == s.added + (if step.Add? then multiset(step.checks) else multiset{})
            && s'.returned == s.returned
  {
    hide Held, Idle, Inside, NotStranded, CleanUp;
    if !step.Add? {
      ReachesLoopTop(s, step, nBatchSize);
      assert AtLoopTop(s, step).returned == s.returned by { AtLoopTopReturned(s, step); }
    }
  }

  lemma AtLoopTopReturned(s: State, step: Step)
    requires Enabled(s, step) && !step.Add?
    ensures AtLoopTop(s, step).returned == s.returned
  {
  }

  /** From one return of Wait (or the start) to the next, over any run: the result speaks of exactly the checks
      that were added in between. */
  lemma WaitOverRuns(workers: nat, nBatchSize: nat, steps: seq<Step>, states: seq<State>, i: nat, j: nat)
    requires IsRun(workers, nBatchSize, steps, states) && i <= j < |steps|
    requires i == 0 || Returns(states[i - 1], steps[i - 1])
    requires (forall k | i <= k < j :: !Returns(states[k], steps[k])) && Returns(states[j], steps[j])
    ensures states[j + 1].returned == Some(forall c | c in AddedBy(steps[i..j]) :: c.passes)
  {
    hide Apply, Inv, Returns, Enabled;
    if i > 0 {
      RunKeeps(workers, nBatchSize, steps, states, i - 1);
      WaitIsExact(states[i - 1], steps[i - 1], nBatchSize);
    }
    AddedSince(workers, nBatchSize, steps, states, i, j);
    RunKeeps(workers, nBatchSize, steps, states, j);
    WaitIsExact(states[j], steps[j], nBatchSize);
  }

  lemma {:induction false} AddedSince(workers: nat, nBatchSize: nat, steps: seq<Step>, states: seq<State>, i: nat, j: nat)
    requires IsRun(workers, nBatchSize, steps, states) && i <= j <= |steps|
    requires states[i].added == multiset{} && forall k | i <= k < j :: !Returns(states[k], steps[k])
    ensures states[j].added == AddedBy(steps[i..j])
    decreases j
  {
    hide Apply, Inv, Returns, Enabled, Init;
    if i < j {
      AddedSince(workers, nBatchSize, steps, states, i, j - 1);
      RunKeeps(workers, nBatchSize, steps, states, j - 1);
      OtherSteps(states[j - 1], steps[j - 1], nBatchSize);
      assert steps[i..j][..j - 1 - i] == steps[i..j - 1];
    } else {
      assert steps[i..j] == [];
    }
  }

  // ----- Nobody waits for nothing -----

  lemma {:induction false} SomebodyHolds(threads: seq<Phase>) returns (i: nat)
    requires Held(threads) != multiset{}
    ensures i < |threads| && threads[i].Working? && threads[i].batch != []
  {
    var n := |threads| - 1;
    if BatchOf(threads[n]) != [] {
      i := n;
    } else {
      assert Held(threads[..n]) + multiset{} == Held(threads[..n]);
      i := SomebodyHolds(threads[..n]);
    }
  }

  /** A master asleep without notification has a worker with a batch to wait for. */
  lemma SleepingMasterHasWorker(s: State) returns (t: nat)
    requires Inv(s) && s.threads[0] == Asleep(false)
    ensures 0 < t < |s.threads| && s.threads[t].Working? && s.threads[t].batch != []
  {
    assert |Held(s.threads)| > 0;
    t := SomebodyHolds(s.threads);
  }

  /** Completing a batch always brings the count down, and the batch that brings it to zero wakes the master. */
  lemma LastBatchWakesMaster(s: State, t: nat, nBatchSize: nat)
    requires Inv(s) && t > 0 && Enabled(s, Finish(t)) && s.threads[0].Asleep?
    ensures var s' := Apply(s, Finish(t), nBatchSize);
            && s'.nTodo == s.nTodo - |s.threads[t].batch| < s.nTodo
            && (s'.nTodo == 0 ==> s'.threads[0] == Asleep(true))
  {
    hide Held, Idle, Inside, NotStranded, RunBatch;
  }

  /** No deadlock: as long as the master is in Wait, some thread can move without a spurious wake-up. */
  lemma WaitNeverStuck(s: State) returns (step: Step)
    requires Inv(s) && s.threads[0] != Outside
    ensures Enabled(s, step)
    ensures step.Finish? || (step == Wake(0) && s.threads[0].notified)
  {
    if s.threads[0].Working? {
      step := Finish(0);
    } else if s.threads[0].notified {
      step := Wake(0);
    } else {
      var t := SleepingMasterHasWorker(s);
      step := Finish(t);
    }
  }

  // ----- Wait comes to an end -----

  /** A thread that has been notified, or has yet to enter, has one move before it must work or sleep. */
  function Moves(p: Phase): nat { if p.Outside? || p == Asleep(true) then 1 else 0 }

  ghost function Pending(threads: seq<Phase>): nat {
    if threads == [] then 0 else Pending(threads[..|threads| - 1]) + Moves(threads[|threads| - 1])
  }

  lemma {:induction false} ChangePending(threads: seq<Phase>, i: nat, p: Phase)
    requires i < |threads|
    ensures Pending(threads[i := p]) + Moves(threads[i]) == Pending(threads) + Moves(p)
  {
    var n := |threads| - 1;
    if i == n {
      assert threads[i := p][..n] == threads[..n];
    } else {
      ChangePending(threads[..n], i, p);
      assert threads[i := p][..n] == threads[..n][i := p];
    }
  }

  lemma {:induction false} PendingBound(threads: seq<Phase>)
    ensures Pending(threads) <= |threads|
  {
    if threads != [] {
      PendingBound(threads[..|threads| - 1]);
    }
  }

  /** How much can still happen inside a Wait: two moves for every check to do and one for every thread about to move. */
  ghost function Progress(s: State): int {
    2 * s.nTodo + Pending(s.threads)
  }

  /** A return from cond.wait that nobody asked for. */
  predicate Spurious(s: State, step: Step) {
    step.Wake? && step.t < |s.threads| && s.threads[step.t] == Asleep(false)
  }

  /** A thread at the inner loop that does not leave works or sleeps, and does not change what is to do. */
  lemma TopSettles(s: State, t: nat, nBatchSize: nat)
    requires t < |s.threads| && s.threads[t] == Outside && LoopTop(s, t, nBatchSize).threads[t] != Outside
    ensures var s' := LoopTop(s, t, nBatchSize);
            s'.nTodo == s.nTodo && |s'.threads| == |s.threads| && Pending(s'.threads) + 1 == Pending(s.threads)
  {
    ChangePending(s.threads, t, LoopTop(s, t, nBatchSize).threads[t]);
    hide Pending, BatchSize, TakeBack;
  }

  /** Finishing a batch takes at least one check off and frees at most the master. */
  lemma FinishProgress(s: State, t: nat)
    requires Inv(s) && Enabled(s, Finish(t))
    ensures var s' := CleanUp(s, t);
            |s'.threads| == |s.threads| && s'.threads[t] == Outside && Progress(s') <= Progress(s)
  {
    var freed := s.threads[t := Outside];
    ChangePending(s.threads, t, Outside);
    if freed[0].Asleep? {
      ChangePending(freed, 0, Asleep(true));
    }
    hide Pending, RunBatch, Held, Idle, Inside, NotStranded;
  }

  ghost predicate MasterInside(s: State) {
    |s.threads| > 0 && s.threads[0] != Outside
  }

  /** Inside a Wait every step but a spurious wake-up uses up some of what can happen. */
  lemma StepProgress(s: State, step: Step, nBatchSize: nat)
    requires Inv(s) && Enabled(s, step) && MasterInside(s) && MasterInside(Apply(s, step, nBatchSize))
    ensures Progress(Apply(s, step, nBatchSize)) + (if Spurious(s, step) then 0 else 1) <= Progress(s)
  {
    hide Pending, BatchSize, TakeBack, RunBatch, Held, Idle, Inside, NotStranded;
    var top := AtLoopTop(s, step);
    StaysInside(s, step, nBatchSize);
    match step
    case Enter(t) =>
      TopSettles(top, t, nBatchSize);
    case Finish(t) =>
      FinishProgress(s, t);
      TopSettles(top, t, nBatchSize);
    case Wake(t) =>
      ChangePending(s.threads, t, Outside);
      TopSettles(top, t, nBatchSize);
  }

  /** Workers never leave, and the master does not in this step. */
  lemma StaysInside(s: State, step: Step, nBatchSize: nat)
    requires Inv(s) && Enabled(s, step) && MasterInside(s) && MasterInside(Apply(s, step, nBatchSize))
    ensures !step.Add? && step.t < |s.threads| && AtLoopTop(s, step).threads[step.t] == Outside
    ensures LoopTop(AtLoopTop(s, step), step.t, nBatchSize) == Apply(s, step, nBatchSize)
    ensures |Apply(s, step, nBatchSize).threads| == |s.threads| && Apply(s, step, nBatchSize).threads[step.t] != Outside
  {
    hide BatchSize, TakeBack, RunBatch, Held, Idle, Inside, NotStranded, LoopTop, CleanUp, AtLoopTop, Apply;
    ReachesLoopTop(s, step, nBatchSize);
    TopKeepsSize(AtLoopTop(s, step), step.t, nBatchSize);
    SameSize(s, step);
  }

  /** Only the master leaves the inner loop. */
  lemma TopKeepsSize(s: State, t: nat, nBatchSize: nat)
    requires t < |s.threads| && !s.fQuit
    ensures |LoopTop(s, t, nBatchSize).threads| == |s.threads|
    ensures t > 0 ==> LoopTop(s, t, nBatchSize).threads[t] != Outside
  {
    hide BatchSize, TakeBack;
  }

  lemma SameSize(s: State, step: Step)
    requires Enabled(s, step) && !step.Add?
    ensures |AtLoopTop(s, step).threads| == |s.threads| && step.t < |s.threads|
  {
    hide RunBatch;
  }

  /** The steps of a stretch that are not spurious wake-ups. */
  ghost function Genuine(steps: seq<Step>, states: seq<State>, i: nat, j: nat): nat
    requires i <= j <= |steps| && |states| == |steps| + 1
    decreases j
  {
    if i == j then 0
    else Genuine(steps, states, i, j - 1) + if Spurious(states[j - 1], steps[j - 1]) then 0 else 1
  }

  /**
    Wait comes to an end: while the master is inside, a run has at most two steps per check to do
    and one per thread, spurious wake-ups aside; until it returns, `WaitNeverStuck` has another.
   */
  lemma {:induction false} WaitEnds(workers: nat, nBatchSize: nat, steps: seq<Step>, states: seq<State>, i: nat, j: nat)
    requires IsRun(workers, nBatchSize, steps, states) && i <= j <= |steps|
    requires forall k | i <= k <= j :: MasterInside(states[k])
    ensures Genuine(steps, states, i, j) + Progress(states[j]) <= Progress(states[i])
    ensures Genuine(steps, states, i, j) <= 2 * states[i].nTodo + |states[i].threads|
    decreases j
  {
    hide Apply, Enabled, Spurious, Init, Held, Idle, Inside, NotStranded, Pending;
    PendingBound(states[i].threads);
    RunKeeps(workers, nBatchSize, steps, states, j);
    if i < j {
      WaitEnds(workers, nBatchSize, steps, states, i, j - 1);
      RunKeeps(workers, nBatchSize, steps, states, j - 1);
      StepProgress(states[j - 1], steps[j - 1], nBatchSize);
    }
  }
}
