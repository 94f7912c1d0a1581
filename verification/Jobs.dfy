/** Conservation of jobs, the dispatch order over whole runs, and the end of an epoch. */
module Jobs {
  import opened Tasks
  import opened QueueOrder
  import opened Protocol
  import opened ProtocolInvariant
  import opened RunLog

  /** The task is activated and its job has not begun. */
  ghost predicate Fresh(c: Config, s: State, i: nat)
    requires Shape(c, s) && i < |c.tasks|
  {
    Unbegun(s.context[i]) && (c.tasks[i] in s.queue || (IsCurrent(c, s, i) && s.at == AtEntry))
  }

  function One(b: bool): nat { if b then 1 else 0 }

  ghost predicate JobBalance(c: Config, s: State, log: Log)
    requires Shape(c, s) && LogShape(c, log)
  {
    && (forall i :: 0 <= i < |c.tasks| ==> log.entries[i] == log.terminations[i] + One(Open(s.context[i])))
    && (forall i :: 0 <= i < |c.tasks| ==>
          log.activations[i] == log.merges[i] + log.lapses[i] + log.entries[i] + One(Fresh(c, s, i)))
  }

  lemma InitialBalance(c: Config)
    requires c.Valid()
    ensures JobBalance(c, Initial(c), EmptyLog(c))
  {
  }

  lemma PickFresh(c: Config, m: State, i: nat)
    requires MidInv(c, m) && i < |c.tasks| && (IsCurrent(c, m, i) ==> m.at != AtEntry)
    ensures var r := Pick(c, m);
            r.context == m.context && (Fresh(c, r, i) <==> Unbegun(m.context[i]) && c.tasks[i] in m.queue)
  {
  }

  /** A loop iteration begins no job and makes fresh exactly the activated tasks that will start at `entry`. */
  lemma LoopIterationFresh(c: Config, s: State, i: nat)
    requires Inv(c, s) && s.at == LoopTop && i < |c.tasks| && !MissedDeadline(c, s)
    ensures var r := LoopIteration(c, s);
            && r.at != Exited && r.context == s.context
            && (Fresh(c, r, i) <==>
                 Fresh(c, s, i) || (s.timingArrived && c.tasks[i] in CurrentPoint(c, s) && Unbegun(s.context[i])))
  {
    hide MidInv, NoneRunning, QueueInv, TaskInv, JobInv, LocationInv, Activate, ActivatedQueue, Pick, Fresh, Sorted;
    ActivateMid(c, s);
    LoopIterationInv(c, s);
    LoopIterationKeeps(c, s);
    var m := Activate(c, DisableTimingPreempt(s)).value;
    PickFresh(c, m, i);
    if IsPreempted(s, c.tasks[i]) {
      PreemptedIsOpen(c, s, i);
    }
    FreshInLoop(c, s, i);
  }

  lemma FreshInLoop(c: Config, s: State, i: nat)
    requires Shape(c, s) && s.at == LoopTop && i < |c.tasks|
    ensures Fresh(c, s, i) <==> Unbegun(s.context[i]) && c.tasks[i] in s.queue
  {
  }

  lemma PreemptedIsOpen(c: Config, s: State, i: nat)
    requires Inv(c, s) && s.at == LoopTop && i < |c.tasks| && IsPreempted(s, c.tasks[i])
    ensures Open(s.context[i])
  {
  }

  lemma NotActivatedWhileQueued(c: Config, s: State, i: nat)
    requires Inv(c, s) && s.at == LoopTop && i < |c.tasks| && s.timingArrived && !MissedDeadline(c, s)
    requires c.tasks[i] in CurrentPoint(c, s)
    ensures !Fresh(c, s, i)
  {
  }

  lemma StoppedBalance(c: Config, s: State, log: Log)
    requires Shape(c, s) && s.at == LoopTop && LogShape(c, log) && JobBalance(c, s, log)
    ensures JobBalance(c, s.(at := Exited), log)
  {
  }

  lemma BalanceLoop(c: Config, s: State, log: Log)
    requires Inv(c, s) && s.at == LoopTop && LogShape(c, log) && JobBalance(c, s, log)
    ensures JobBalance(c, LoopIteration(c, s), LogThread(c, s, log))
  {
    hide LoopIteration, QueueInv, TaskInv, JobInv, LocationInv, CurrentPoint, Fresh, Where, CurrentRef, Config.Valid;
    LoopIterationInv(c, s);
    LoopIterationFrame(c, s);
    LoopIterationKeeps(c, s);
    var r, after := LoopIteration(c, s), LogThread(c, s, log);
    if r.at == Exited {
      StoppedBalance(c, s, log);
    } else {
      forall i | 0 <= i < |c.tasks|
        ensures after.activations[i] == after.merges[i] + after.lapses[i] + after.entries[i] + One(Fresh(c, r, i))
      {
        LoopIterationFresh(c, s, i);
        if s.timingArrived && c.tasks[i] in CurrentPoint(c, s) {
          NotActivatedWhileQueued(c, s, i);
        }
      }
    }
  }

  lemma CurrentListed(c: Config, s: State)
    requires Shape(c, s) && s.current.Some?
    ensures forall i :: 0 <= i < |c.tasks| ==> (c.tasks[i] in [s.current.value] <==> i == s.current.value.id)
  {
  }

  lemma BalanceEntry(c: Config, s: State, log: Log)
    requires Inv(c, s) && s.at == AtEntry && LogShape(c, log) && JobBalance(c, s, log)
    ensures JobBalance(c, ThreadStep(c, s), LogThread(c, s, log))
  {
    hide QueueInv, TaskInv, JobInv, LoopIteration, CurrentPoint, Bump, Where, BestIsCurrent, Config.Valid;
    CurrentListed(c, s);
  }

  lemma BalanceEntering(c: Config, s: State, log: Log)
    requires Inv(c, s) && s.at == Entering && LogShape(c, log) && JobBalance(c, s, log)
    ensures JobBalance(c, ThreadStep(c, s), LogThread(c, s, log))
  {
    hide QueueInv, TaskInv, JobInv;
  }

  lemma BalanceTerminate(c: Config, s: State, r: State, log: Log, after: Log)
    requires Shape(c, s) && s.at in {Executing, Resumed} && LogShape(c, log) && JobBalance(c, s, log)
    requires CurrentIs(s, s.taskState[s.current.value.id], {InJob, InEntry})
    requires Shape(c, r) && r.at == LoopTop && r.queue == s.queue
    requires r.context == s.context[s.current.value.id := EndOf(s.current.value)]
    requires after == log.(terminations := Bump(c, log.terminations, [s.current.value], All(c)))
    ensures JobBalance(c, r, after)
  {
    hide Bump, Shape;
    ShapeIds(c, s);
    CurrentListed(c, s);
  }

  lemma ShapeIds(c: Config, s: State)
    requires Shape(c, s) && s.current.Some?
    ensures |s.context| == |s.taskState| == |c.tasks| && s.current.value.id < |c.tasks|
    ensures c.tasks[s.current.value.id] == s.current.value
  {
  }

  lemma BalanceEnd(c: Config, s: State, log: Log)
    requires Inv(c, s) && s.at in {Executing, Resumed} && LogShape(c, log) && JobBalance(c, s, log)
    ensures JobBalance(c, ThreadStep(c, s), LogThread(c, s, log))
  {
    hide QueueInv, TaskInv, JobInv, LoopIteration, CurrentPoint, Bump, Where, BestIsCurrent, JobBalance;
    if s.at == Resumed {
      ResumeInv(c, s);
    }
    if s.at == Executing && Interrupted(s) {
      BalanceInterrupt(c, s, log);
    } else {
      BalanceTerminate(c, s, ThreadStep(c, s), log, LogThread(c, s, log));
    }
  }

  lemma BalanceInterrupt(c: Config, s: State, log: Log)
    requires Inv(c, s) && s.at in {Entering, Executing} && LogShape(c, log) && JobBalance(c, s, log)
    ensures JobBalance(c, Interrupt(c, s), log)
  {
    hide QueueInv, TaskInv, JobInv;
  }

  lemma BalanceReturn(c: Config, s: State, log: Log)
    requires Inv(c, s) && s.at == Returning && LogShape(c, log) && JobBalance(c, s, log)
    ensures JobBalance(c, ThreadStep(c, s), LogThread(c, s, log))
  {
    hide QueueInv, TaskInv, JobInv;
  }

  lemma BalanceThread(c: Config, s: State, log: Log)
    requires Inv(c, s) && LogShape(c, log) && JobBalance(c, s, log)
    ensures JobBalance(c, ThreadStep(c, s), LogThread(c, s, log))
  {
    hide LoopIteration, Entry, FinishEntry, Terminate, Interrupt, Resume, Return, QueueInv, TaskInv, JobInv,
      LocationInv;
    match s.at
    case LoopTop => BalanceLoop(c, s, log);
    case AtEntry => BalanceEntry(c, s, log);
    case Entering => BalanceEntering(c, s, log);
    case Executing => BalanceEnd(c, s, log);
    case Resumed => BalanceEnd(c, s, log);
    case Returning => BalanceReturn(c, s, log);
    case _ =>
  }

  lemma BalanceTick(c: Config, s: State, log: Log, table: nat)
    requires Shape(c, s) && LogShape(c, log) && JobBalance(c, s, log) && table < |c.tables|
    ensures JobBalance(c, TickStep(c, s, table), LogTick(c, s, log, table))
  {
  }

  lemma OpenJobsHeld(c: Config, s: State)
    requires Inv(c, s)
    ensures Shape(c, s) && (!Stopped(s.at) ==> JobInv(c, s))
  {
  }

  /**
   In every run and for every task, the jobs begun are the jobs ended plus the open one, and every
   activation was merged into an open job, or began its own job, or is waiting to begin it, or came
   after the one job of a single-shot task. The open jobs belong to queued tasks or to the current one.
   */
  lemma {:induction false} JobConservation(c: Config, acts: seq<Action>)
    requires c.Valid()
    ensures JobBalance(c, Exec(c, acts), ExecLog(c, acts))
    ensures !Stopped(Exec(c, acts).at) ==> JobInv(c, Exec(c, acts))
  {
    hide JobBalance, Inv, ThreadStep, TickStep, LogThread, LogTick;
    InvAlways(c, acts);
    OpenJobsHeld(c, Exec(c, acts));
    if acts == [] {
      InitialBalance(c);
    } else {
      var n := |acts| - 1;
      var s, log := Exec(c, acts[..n]), ExecLog(c, acts[..n]);
      JobConservation(c, acts[..n]);
      InvAlways(c, acts[..n]);
      match acts[n]
      case Thread => BalanceThread(c, s, log);
      case Tick(table) =>
        if TickEnabled(c, s, table) {
          BalanceTick(c, s, log, table);
        }
    }
  }

  /** A single-shot task has entered exactly once unless its context is untouched; a periodic one never lapses. */
  ghost predicate ShotInv(c: Config, s: State, log: Log)
    requires Shape(c, s) && LogShape(c, log)
  {
    forall i :: 0 <= i < |c.tasks| ==>
      && (s.context[i] == NeverRun <==> log.entries[i] == 0)
      && if c.tasks[i].taskType == BasicSingleShot then log.entries[i] == One(!Unbegun(s.context[i]))
         else log.lapses[i] == 0 && s.context[i] !in {AtEnd, Gone}
  }

  lemma ShotResume(c: Config, s: State, log: Log)
    requires Inv(c, s) && s.at == Resumed && LogShape(c, log) && ShotInv(c, s, log)
    ensures ShotInv(c, ThreadStep(c, s), LogThread(c, s, log))
  {
    hide QueueInv, JobInv, TaskInv, Bump, BestIsCurrent, Config.Valid;
    ResumeInv(c, s);
  }

  lemma ShotEntry(c: Config, s: State, log: Log)
    requires Inv(c, s) && s.at == AtEntry && LogShape(c, log) && ShotInv(c, s, log)
    ensures ShotInv(c, ThreadStep(c, s), LogThread(c, s, log))
  {
    hide QueueInv, JobInv, TaskInv, Bump, BestIsCurrent, Config.Valid;
    CurrentListed(c, s);
  }

  lemma ShotThread(c: Config, s: State, log: Log)
    requires Inv(c, s) && s.at != LoopTop && LogShape(c, log) && ShotInv(c, s, log)
    ensures ShotInv(c, ThreadStep(c, s), LogThread(c, s, log))
  {
    hide QueueInv, JobInv, TaskInv, LoopIteration, Entry, Resume, CurrentPoint, Bump, Where, BestIsCurrent;
    if s.at == AtEntry {
      ShotEntry(c, s, log);
    } else if s.at == Resumed {
      ShotResume(c, s, log);
    }
  }

  lemma ShotLoop(c: Config, s: State, log: Log)
    requires Inv(c, s) && s.at == LoopTop && LogShape(c, log) && ShotInv(c, s, log)
    ensures ShotInv(c, LoopIteration(c, s), LogThread(c, s, log))
  {
    hide LoopIteration, QueueInv, TaskInv, JobInv, LocationInv, Where;
    LoopIterationKeeps(c, s);
  }

  /** A single-shot task is entered at most once, however often it is activated; a periodic task never lapses. */
  lemma {:induction false} SingleShotRunsOnce(c: Config, acts: seq<Action>)
    requires c.Valid()
    ensures ShotInv(c, Exec(c, acts), ExecLog(c, acts))
  {
    hide Inv, LoopIteration, LogThread;
    if acts == [] {
      InitialShot(c);
    } else {
      var n := |acts| - 1;
      SingleShotRunsOnce(c, acts[..n]);
      InvAlways(c, acts[..n]);
      var s, log := Exec(c, acts[..n]), ExecLog(c, acts[..n]);
      if acts[n] == Thread {
        if s.at == LoopTop {
          ShotLoop(c, s, log);
        } else {
          ShotThread(c, s, log);
        }
      }
    }
  }

  lemma InitialShot(c: Config)
    requires c.Valid()
    ensures ShotInv(c, Initial(c), EmptyLog(c))
  {
  }

  /**
   A task that has never been entered is entered through the stretch in which the priority is lowered and
   the signal is not yet masked; any later `entry` leads straight into its function.
   */
  lemma FirstEntryIsOpen(c: Config, acts: seq<Action>)
    requires c.Valid() && Exec(c, acts).at == AtEntry
    ensures var s, log := Exec(c, acts), ExecLog(c, acts);
            && s.current.Some? && s.current.value.id < |log.entries|
            && var r := ThreadStep(c, s);
               && r.at == (if log.entries[s.current.value.id] == 0 then Entering else Executing)
               && r.priority == 50 && r.sched == SchedWaiting && r.taskState[s.current.value.id] == TaskRunning
  {
    hide Exec, ExecLog, QueueInv, TaskInv, JobInv;
    InvAlways(c, acts);
    SingleShotRunsOnce(c, acts);
  }

  /**
   A single-shot task that is activated after its only job returns without entering: it stays READY and
   outside the queue, its function is over, and no job is begun or ended.
   */
  lemma ReturnsWithoutEntering(c: Config, acts: seq<Action>)
    requires c.Valid() && Exec(c, acts).at == Returning
    ensures var s, log := Exec(c, acts), ExecLog(c, acts);
            var r, after := Exec(c, acts + [Thread]), ExecLog(c, acts + [Thread]);
            && s.current.Some? && s.current.value.id < |log.entries|
            && var k := s.current.value.id;
               && log.entries[k] == log.terminations[k] == 1 && after == log
               && r.at == LoopTop && r.taskState[k] == TaskReady && !r.inReadyQueue[k] && r.context[k] == Gone
  {
    hide Exec, ExecLog, TaskInv, JobInv;
    InvAlways(c, acts);
    SingleShotRunsOnce(c, acts);
    JobConservation(c, acts);
    ExecAppend(c, acts, Thread);
  }

  /** An activation that hits the preempted task merges with its open job: the task is queued once. */
  lemma ActivationMerges(c: Config, s: State, x: Task)
    requires Inv(c, s) && s.at == LoopTop && IsPreempted(s, x) && c.IsTask(x)
    requires x in CurrentPoint(c, s) && !MissedDeadline(c, s)
    ensures Activate(c, DisableTimingPreempt(s)).Some?
    ensures var m := Activate(c, DisableTimingPreempt(s)).value;
            multiset(m.queue)[x] == 1 && Open(m.context[x.id])
  {
    ActivateMid(c, s);
    var m := Activate(c, DisableTimingPreempt(s)).value;
    OccursOnce(m.queue, x);
  }

  lemma {:induction false} OccursOnce(q: seq<Task>, x: Task)
    requires NoDuplicates(q) && x in q
    ensures multiset(q)[x] == 1
  {
    assert q == [q[0]] + q[1..];
    if q[0] != x {
      OccursOnce(q[1..], x);
    } else {
      assert x !in q[1..];
    }
  }

  // ----- dispatching -----

  /**
   Whenever a task has been switched to, no READY task has a smaller priority, or the same priority
   and a smaller period, apart from single-shot tasks whose function has returned and which nothing
   will run again.
   */
  lemma BestTaskRuns(c: Config, acts: seq<Action>, i: nat)
    requires c.Valid() && i < |c.tasks|
    requires var s := Exec(c, acts);
             s.at in {AtEntry, Entering, Executing, Resumed, Returning} && s.taskState[i] == TaskReady
    ensures var s := Exec(c, acts);
            && s.current.Some?
            && var x, y := c.tasks[i], s.current.value;
               || x.priority > y.priority
               || (x.priority == y.priority && x.period >= y.period)
               || (x.taskType == BasicSingleShot && s.context[i] == Gone && !s.inReadyQueue[i])
  {
    hide Exec, JobInv, NoDuplicates, Sorted;
    InvAlways(c, acts);
  }

  /**
   At most one task is RUNNING; it is the current task, it is not queued, and in the loop it has
   been preempted by a tick.
   */
  lemma RunningIsCurrent(c: Config, acts: seq<Action>, i: nat)
    requires c.Valid() && i < |c.tasks|
    requires !Stopped(Exec(c, acts).at) && Exec(c, acts).taskState[i] == TaskRunning
    ensures var s := Exec(c, acts);
            s.current == Some(c.tasks[i]) && !s.inReadyQueue[i] && c.tasks[i] !in s.queue &&
            (s.at in {Entering, Executing} || (s.at == LoopTop && s.timingArrived))
  {
    hide Exec, JobInv, NoDuplicates, Sorted;
    InvAlways(c, acts);
  }

  /** A preempted task is never dropped: after the iteration that its preemption leads to, it is queued or current. */
  lemma PreemptedIsKept(c: Config, s: State, x: Task)
    requires Inv(c, s) && s.at == LoopTop && IsPreempted(s, x) && !MissedDeadline(c, s)
    ensures var r := LoopIteration(c, s);
            r.at != Exited && (x in r.queue || r.current == Some(x)) && r.context == s.context
  {
    hide MidInv, NoneRunning, QueueInv, TaskInv, JobInv, LocationInv, Activate, ActivatedQueue;
    ActivateMid(c, s);
    LoopIterationInv(c, s);
    LoopIterationKeeps(c, s);
    PreemptedByTick(c, s, x);
    KeptByPick(c, Activate(c, DisableTimingPreempt(s)).value, x);
  }

  lemma PreemptedByTick(c: Config, s: State, x: Task)
    requires Inv(c, s) && s.at == LoopTop && IsPreempted(s, x)
    ensures s.timingArrived
  {
  }

  lemma KeptByPick(c: Config, m: State, x: Task)
    requires Shape(c, m) && x in m.queue
    ensures x in Pick(c, m).queue || Pick(c, m).current == Some(x)
  {
    assert m.queue == [m.queue[0]] + m.queue[1..];
  }

  /**
   A task resumed after a preemption runs to its end uninterrupted: it keeps the maximal priority, at which
   no tick can be processed, and its state stays READY although it has the CPU.
   */
  lemma ResumedIsNotPreemptible(c: Config, acts: seq<Action>, table: nat)
    requires c.Valid() && Exec(c, acts).at == Resumed
    ensures var s := Exec(c, acts);
            && !TickEnabled(c, s, table) && Step(c, s, Tick(table)) == s
            && s.current.Some? && s.taskState[s.current.value.id] == TaskReady && Open(s.context[s.current.value.id])
            && ThreadStep(c, s).at == LoopTop && ThreadStep(c, s).taskState[s.current.value.id] == TaskSuspended
  {
    InvAlways(c, acts);
  }

  // ----- draining an epoch -----

  /** The steps from switching to a task until the loop comes round. */
  function StepsOf(k: Context): nat {
    match k
    case NeverRun => 4
    case AtStart => 3
    case _ => 2
  }

  /** The steps that dispatch the queue, and one to suspend. */
  function StepsFor(queue: seq<Task>, context: seq<Context>): nat
    requires forall x :: x in queue ==> x.id < |context|
  {
    if queue == [] then 1
    else
      assert queue[0] in queue;
      StepsOf(context[queue[0].id]) + StepsFor(queue[1..], context)
  }

  /** The task, if any, that the step from `s` to `r` switches to. */
  function Switched(s: State, r: State): seq<Task> {
    if s.at == LoopTop && r.at in {AtEntry, Resumed, Returning} && r.current.Some? then [r.current.value] else []
  }

  /** The tasks switched to during the next `n` thread steps. */
  function Dispatched(c: Config, s: State, n: nat): seq<Task>
    requires Shape(c, s)
    decreases n
  {
    if n == 0 then []
    else Switched(s, ThreadStep(c, s)) + Dispatched(c, ThreadStep(c, s), n - 1)
  }

  lemma Unroll(c: Config, s: State)
    requires Shape(c, s)
    ensures var s1 := ThreadStep(c, s); var s2 := ThreadStep(c, s1); var s3 := ThreadStep(c, s2);
            var s4 := ThreadStep(c, s3);
            && ThreadSteps(c, s, 1) == s1 && ThreadSteps(c, s, 2) == s2
            && ThreadSteps(c, s, 3) == s3 && ThreadSteps(c, s, 4) == s4
            && Dispatched(c, s, 1) == Switched(s, s1)
            && Dispatched(c, s, 2) == Switched(s, s1) + Switched(s1, s2)
            && Dispatched(c, s, 3) == Switched(s, s1) + Switched(s1, s2) + Switched(s2, s3)
            && Dispatched(c, s, 4) == Switched(s, s1) + Switched(s1, s2) + Switched(s2, s3) + Switched(s3, s4)
  {
    hide ThreadStep, Switched;
    var s1 := ThreadStep(c, s);
    var s2 := ThreadStep(c, s1);
    var s3 := ThreadStep(c, s2);
    UnrollOne(c, s);
    UnrollOne(c, s1);
    UnrollOne(c, s2);
    UnrollOne(c, s3);
    StepsCompose(c, s, 1, 1);
    StepsCompose(c, s, 2, 1);
    StepsCompose(c, s, 3, 1);
  }

  lemma UnrollOne(c: Config, s: State)
    requires Shape(c, s)
    ensures ThreadSteps(c, s, 1) == ThreadStep(c, s) && Dispatched(c, s, 1) == Switched(s, ThreadStep(c, s))
  {
    hide ThreadStep, Switched;
    assert ThreadSteps(c, ThreadStep(c, s), 0) == ThreadStep(c, s);
    assert Dispatched(c, ThreadStep(c, s), 0) == [];
  }

  ghost predicate Idle(s: State) {
    s.at == BeforeWait && s.sched == SchedSuspended && s.current == None && s.queue == [] && !s.timingArrived
  }

  /** No queued task has a function that has returned. */
  ghost predicate NoneGone(queue: seq<Task>, context: seq<Context>) {
    forall x :: x in queue ==> x.id < |context| && context[x.id] != Gone
  }

  /** A dispatched task's job ends, except that a single-shot task behind its job only returns. */
  function ContextAfter(x: Task, k: Context): Context { if k == AtEnd then Gone else EndOf(x) }

  function StateAfter(k: Context): TaskState { if k == AtEnd then TaskReady else TaskSuspended }

  lemma SwitchToHead(c: Config, s: State)
    requires Inv(c, s) && s.at == LoopTop && !s.timingArrived && s.queue != []
    ensures c.IsTask(s.queue[0])
    ensures var x, t := s.queue[0], ThreadStep(c, s);
            && t.at == Destination(s.context[x.id]) && t.current == Some(x) && t.queue == s.queue[1..]
            && t.context == s.context && t.taskState == s.taskState && !t.timingArrived
  {
    hide QueueInv, TaskInv, JobInv, LocationInv;
    assert s.queue[0] in s.queue;
  }

  lemma BeginsJob(c: Config, t: State)
    requires Inv(c, t) && t.at == AtEntry
    ensures var x, k, e := t.current.value, t.context[t.current.value.id], ThreadStep(c, t);
            && Unbegun(k) && Inv(c, e) && e.current == t.current && e.queue == t.queue && !e.timingArrived
            && e.at == (if k == NeverRun then Entering else Executing)
            && e.context == t.context[x.id := if k == NeverRun then InEntry else InJob]
            && e.taskState == t.taskState[x.id := TaskRunning]
  {
    EntryInv(c, t);
    hide QueueInv, TaskInv, JobInv;
  }

  lemma FinishesEntry(c: Config, e: State)
    requires Inv(c, e) && e.at == Entering && !e.timingArrived
    ensures var x, f := e.current.value, ThreadStep(c, e);
            && Inv(c, f) && f.at == Executing && f.current == e.current && f.queue == e.queue && !f.timingArrived
            && f.context == e.context[x.id := InJob] && f.taskState == e.taskState
  {
    ThreadInv(c, e);
    hide QueueInv, TaskInv, JobInv;
  }

  lemma EndsJob(c: Config, f: State)
    requires Inv(c, f) && f.at in {Executing, Resumed} && !f.timingArrived
    ensures var x, r := f.current.value, ThreadStep(c, f);
            && Inv(c, r) && r.at == LoopTop && r.queue == f.queue && !r.timingArrived
            && r.context == f.context[x.id := EndOf(x)] && r.taskState == f.taskState[x.id := TaskSuspended]
  {
    ThreadInv(c, f);
    hide QueueInv, TaskInv, JobInv;
    if f.at == Resumed {
      ResumeInv(c, f);
    }
  }

  lemma Returns(c: Config, t: State)
    requires Inv(c, t) && t.at == Returning
    ensures var x, r := t.current.value, ThreadStep(c, t);
            && Inv(c, r) && r.at == LoopTop && r.queue == t.queue && !r.timingArrived
            && t.context[x.id] == AtEnd
            && r.context == t.context[x.id := Gone] && r.taskState == t.taskState[x.id := TaskReady]
  {
    ReturnInv(c, t);
    hide QueueInv, TaskInv, JobInv;
  }

  /** The state when a switched-to task is back in the loop, `k` being its saved context. */
  function AfterRun(c: Config, t: State, k: Context): (r: State)
    requires Shape(c, t)
    ensures Shape(c, r)
  {
    var s1 := ThreadStep(c, t);
    match k
    case NeverRun => ThreadStep(c, ThreadStep(c, s1))
    case AtStart => ThreadStep(c, s1)
    case _ => s1
  }

  /** A task that has been switched to runs to its end, or a finished single-shot task returns. */
  lemma SwitchedRuns(c: Config, t: State, k: Context)
    requires Inv(c, t) && t.at in {AtEntry, Resumed, Returning} && t.at == Destination(k) && !t.timingArrived
    requires k == t.context[t.current.value.id]
    ensures var x, r := t.current.value, AfterRun(c, t, k);
            && Inv(c, r) && r.at == LoopTop && !r.timingArrived && r.queue == t.queue
            && r.context == t.context[x.id := ContextAfter(x, k)]
            && r.taskState == t.taskState[x.id := StateAfter(k)]
    ensures k == NeverRun ==> ThreadStep(c, t).at == Entering
    ensures k == AtStart ==> ThreadStep(c, t).at == Executing
    ensures k == NeverRun ==> ThreadStep(c, ThreadStep(c, t)).at == Executing
  {
    hide QueueInv, TaskInv, JobInv, LocationInv, ThreadStep;
    var e := ThreadStep(c, t);
    if t.at == AtEntry {
      BeginsJob(c, t);
      if k == NeverRun {
        FinishesEntry(c, e);
        EndsJob(c, ThreadStep(c, e));
      } else {
        EndsJob(c, e);
      }
    } else if t.at == Resumed {
      EndsJob(c, t);
    } else {
      Returns(c, t);
    }
  }

  lemma OneTask(c: Config, s: State) returns (k: nat)
    requires Inv(c, s) && s.at == LoopTop && !s.timingArrived && s.queue != []
    requires c.IsTask(s.queue[0]) && s.context[s.queue[0].id] != Gone
    ensures k == StepsOf(s.context[s.queue[0].id])
    ensures var x, r := s.queue[0], ThreadSteps(c, s, k);
            && Inv(c, r) && r.at == LoopTop && !r.timingArrived && r.queue == s.queue[1..]
            && r.context == s.context[x.id := ContextAfter(x, s.context[x.id])]
            && r.taskState == s.taskState[x.id := StateAfter(s.context[x.id])]
            && Dispatched(c, s, k) == [x]
  {
    hide ThreadSteps, Dispatched, ThreadStep, QueueInv, TaskInv, JobInv, LocationInv, ContextAfter, StateAfter;
    var x := s.queue[0];
    k := StepsOf(s.context[x.id]);
    Unroll(c, s);
    ThreadInv(c, s);
    SwitchToHead(c, s);
    SwitchedRuns(c, ThreadStep(c, s), s.context[x.id]);
  }

  lemma {:induction false} StepsCompose(c: Config, s: State, k: nat, n: nat)
    requires Shape(c, s)
    ensures ThreadSteps(c, s, k + n) == ThreadSteps(c, ThreadSteps(c, s, k), n)
    ensures Dispatched(c, s, k + n) == Dispatched(c, s, k) + Dispatched(c, ThreadSteps(c, s, k), n)
    decreases k
  {
    hide ThreadStep, Switched, Shape;
    if k > 0 {
      var t := ThreadStep(c, s);
      StepsCompose(c, t, k - 1, n);
      assert k + n - 1 == (k - 1) + n;
      assert ThreadSteps(c, s, k) == ThreadSteps(c, t, k - 1);
    }
  }

  lemma {:induction false} StepsForLocal(queue: seq<Task>, a: seq<Context>, b: seq<Context>)
    requires |a| == |b| && forall x :: x in queue ==> x.id < |a| && a[x.id] == b[x.id]
    ensures StepsFor(queue, a) == StepsFor(queue, b)
  {
    if queue != [] {
      assert queue[0] in queue && queue == [queue[0]] + queue[1..];
      StepsForLocal(queue[1..], a, b);
    }
  }

  lemma QueueIds(c: Config, s: State)
    requires Inv(c, s) && !Stopped(s.at)
    ensures Shape(c, s) && forall x :: x in s.queue ==> c.IsTask(x) && x.id < |s.context|
    ensures s.queue != [] ==> forall x :: x in s.queue[1..] ==> x in s.queue && x.id != s.queue[0].id
  {
    assert forall x :: x in s.queue ==> c.IsTask(x);
    if s.queue != [] {
      var first, rest := s.queue[0], s.queue[1..];
      assert s.queue == [first] + rest;
      forall x | x in rest
        ensures x in s.queue && x.id != first.id
      {
        assert c.IsTask(x) && c.IsTask(first);
        assert x in s.queue && first !in rest;
      }
    }
  }

  ghost predicate DrainedFrom(c: Config, s: State, r: State)
    requires Shape(c, s) && Shape(c, r)
  {
    forall i :: 0 <= i < |c.tasks| ==>
      if c.tasks[i] in s.queue then
        r.taskState[i] == StateAfter(s.context[i]) && r.context[i] == ContextAfter(c.tasks[i], s.context[i])
      else
        r.taskState[i] == s.taskState[i] && r.context[i] == s.context[i]
  }

  /** After `n` thread steps the scheduler is idle, having dispatched the queue of `s` in order. */
  ghost predicate Drains(c: Config, s: State, n: nat)
    requires Shape(c, s)
  {
    var r := ThreadSteps(c, s, n);
    Idle(r) && Dispatched(c, s, n) == s.queue && DrainedFrom(c, s, r)
  }

  lemma EpochEnds(c: Config, s: State)
    requires Inv(c, s) && s.at == LoopTop && !s.timingArrived && s.queue == []
    ensures Drains(c, s, 1)
  {
  }

  lemma DrainsAfterOne(c: Config, s: State, k: nat, r: State, n: nat)
    requires Shape(c, s) && s.queue != [] && r == ThreadSteps(c, s, k) && Drains(c, r, n)
    requires c.IsTask(s.queue[0]) && s.queue[0] !in r.queue
    requires r.queue == s.queue[1..] && Dispatched(c, s, k) == [s.queue[0]]
    requires var x := s.queue[0];
             && r.context == s.context[x.id := ContextAfter(x, s.context[x.id])]
             && r.taskState == s.taskState[x.id := StateAfter(s.context[x.id])]
    ensures Drains(c, s, k + n)
  {
    hide ThreadSteps, Dispatched, Idle, ContextAfter, StateAfter;
    StepsCompose(c, s, k, n);
    assert s.queue == [s.queue[0]] + r.queue;
    assert forall y :: y in s.queue <==> y == s.queue[0] || y in r.queue;
  }

  /**
   Without a further tick the inner loop ends: it dispatches every queued task exactly once, in
   queue order, lets each of them finish and changes no other task, and suspends the scheduler
   with nothing left. The condition can only fail for single-shot tasks.
   */
  lemma {:induction false} EpochDrains(c: Config, s: State)
    requires Inv(c, s) && s.at == LoopTop && !s.timingArrived && NoneGone(s.queue, s.context)
    ensures Drains(c, s, StepsFor(s.queue, s.context))
    decreases |s.queue|
  {
    hide Shape, Inv, ThreadStep, ThreadSteps, Dispatched, Idle, Drains, ContextAfter, StateAfter;
    QueueIds(c, s);
    if s.queue == [] {
      EpochEnds(c, s);
    } else {
      var rest := s.queue[1..];
      assert s.queue[0] in s.queue;
      var k := OneTask(c, s);
      var r := ThreadSteps(c, s, k);
      EpochDrains(c, r);
      StepsForLocal(rest, s.context, r.context);
      DrainsAfterOne(c, s, k, r, StepsFor(rest, r.context));
    }
  }

  /** Otherwise it does not end: the loop switches to the function that has returned. */
  lemma {:induction false} GoneTaskIsUndefined(c: Config, s: State) returns (n: nat)
    requires Inv(c, s) && s.at == LoopTop && !s.timingArrived && !NoneGone(s.queue, s.context)
    ensures ThreadSteps(c, s, n).at == Undefined
    decreases |s.queue|
  {
    hide Shape, Inv, ThreadStep, ThreadSteps, Dispatched, ContextAfter, StateAfter;
    QueueIds(c, s);
    var x := s.queue[0];
    assert x in s.queue && s.queue == [x] + s.queue[1..];
    if s.context[x.id] == Gone {
      n := 1;
      SwitchToGone(c, s);
    } else {
      var k := OneTask(c, s);
      var r := ThreadSteps(c, s, k);
      assert !NoneGone(r.queue, r.context);
      var m := GoneTaskIsUndefined(c, r);
      StepsCompose(c, s, k, m);
      n := k + m;
    }
  }

  lemma SwitchToGone(c: Config, s: State)
    requires Inv(c, s) && s.at == LoopTop && !s.timingArrived && s.queue != []
    requires c.IsTask(s.queue[0]) && s.context[s.queue[0].id] == Gone
    ensures ThreadSteps(c, s, 1).at == Undefined
  {
    hide QueueInv, TaskInv, JobInv, LocationInv;
    UnrollOne(c, s);
    SwitchToHead(c, s);
  }

  /** The queue after activation: sorted, without repetitions, and made of exactly the tasks it has to hold. */
  ghost predicate IsActivatedQueue(c: Config, s: State, q: seq<Task>)
    requires Shape(c, s)
  {
    && q == ActivatedQueue(c, s) && Sorted(q) && NoDuplicates(q)
    && forall y :: y in q <==> y in s.queue || (s.timingArrived && (y in CurrentPoint(c, s) || IsPreempted(s, y)))
  }

  /**
   The same from the tick that starts or interrupts the epoch: unless a deadline has been missed,
   the merged queue is dispatched in its sorted order and the scheduler is suspended.
   */
  lemma ActivatedEpochDrains(c: Config, s: State) returns (n: nat, q: seq<Task>)
    requires Inv(c, s) && s.at == LoopTop && !MissedDeadline(c, s) && NoneGone(ActivatedQueue(c, s), s.context)
    ensures IsActivatedQueue(c, s, q)
    ensures Idle(ThreadSteps(c, s, n)) && Dispatched(c, s, n) == q
  {
    hide QueueInv, TaskInv, JobInv, LocationInv, ThreadStep, ThreadSteps, Dispatched, Idle, StepsFor;
    var e := SettledStart(c, s);
    q := e.queue;
    EpochDrains(c, e);
    n := StepsFor(e.queue, e.context);
    StepsForPositive(e.queue, e.context);
    SameSteps(c, s, e, n);
  }

  lemma StepsForPositive(queue: seq<Task>, context: seq<Context>)
    requires forall x :: x in queue ==> x.id < |context|
    ensures StepsFor(queue, context) > 0
  {
  }

  /** The state at the loop top that already holds what the pending tick activates, with the same next step. */
  lemma SettledStart(c: Config, s: State) returns (e: State)
    requires Inv(c, s) && s.at == LoopTop && !MissedDeadline(c, s)
    ensures Inv(c, e) && e.at == LoopTop && !e.timingArrived && e.context == s.context
    ensures IsActivatedQueue(c, s, e.queue) && ThreadStep(c, e) == ThreadStep(c, s)
  {
    hide TaskInv, JobInv, LocationInv, ThreadStep, Activate;
    ActivateMid(c, s);
    var m := Activate(c, DisableTimingPreempt(s)).value;
    e := m.(priority := SCHEDULER_PRIORITY, current := None);
    SettledInv(c, m);
    SameFirstStep(c, s, m, e);
  }

  lemma SettledInv(c: Config, m: State)
    requires MidInv(c, m) && NoneRunning(c, m)
    ensures Inv(c, m.(priority := SCHEDULER_PRIORITY, current := None))
  {
  }

  lemma SameSteps(c: Config, s: State, e: State, n: nat)
    requires Shape(c, s) && Shape(c, e) && s.at == e.at == LoopTop && ThreadStep(c, s) == ThreadStep(c, e) && n > 0
    ensures ThreadSteps(c, s, n) == ThreadSteps(c, e, n) && Dispatched(c, s, n) == Dispatched(c, e, n)
  {
  }

  /** The first step is the same as from the loop top with the activation already made. */
  lemma SameFirstStep(c: Config, s: State, m: State, e: State)
    requires Inv(c, s) && s.at == LoopTop && Shape(c, m) && Shape(c, e)
    requires Activate(c, DisableTimingPreempt(s)) == Some(m) && OnlyActivated(s, m)
    requires e == m.(priority := SCHEDULER_PRIORITY, current := None)
    ensures ThreadStep(c, s) == ThreadStep(c, e)
  {
  }

  // ----- quiescence -----

  /**
   The scheduler thread cannot move: it has exited, or has switched to a function that has returned,
   or it waits with nothing queued, nobody current and no job open.
   */
  ghost predicate AtRest(c: Config, s: State)
    requires Shape(c, s)
  {
    !ThreadEnabled(s) &&
    (|| Stopped(s.at)
     || (s.at == Blocked && s.sched == SchedSuspended && s.queue == [] && s.current == None &&
         forall i :: 0 <= i < |c.tasks| ==> !Open(s.context[i])))
  }

  lemma IdleThenRest(c: Config, s: State)
    requires Inv(c, s) && s.at == BeforeWait
    ensures AtRest(c, ThreadStep(c, s))
  {
  }

  lemma {:induction false} StepsInv(c: Config, s: State, n: nat)
    requires Inv(c, s)
    ensures Inv(c, ThreadSteps(c, s, n))
    decreases n
  {
    if n > 0 {
      hide Inv, ThreadStep;
      ThreadInv(c, s);
      StepsInv(c, ThreadStep(c, s), n - 1);
    }
  }

  lemma ExitIsRest(c: Config, s: State)
    requires Inv(c, s) && s.at == LoopTop && MissedDeadline(c, s)
    ensures AtRest(c, ThreadSteps(c, s, 1))
  {
    hide QueueInv, TaskInv, JobInv, LocationInv, LoopIteration;
    LoopIterationInv(c, s);
    Unroll(c, s);
  }

  lemma OneMore(c: Config, s: State, n: nat)
    requires Inv(c, s) && ThreadSteps(c, s, n).at == BeforeWait
    ensures AtRest(c, ThreadSteps(c, s, n + 1))
  {
    hide Shape, QueueInv, TaskInv, JobInv, LocationInv, ThreadSteps, ThreadStep, AtRest, Switched;
    StepsInv(c, s, n);
    IdleThenRest(c, ThreadSteps(c, s, n));
    StepsCompose(c, s, n, 1);
    Unroll(c, ThreadSteps(c, s, n));
  }

  lemma QuietComesToRest(c: Config, s: State) returns (n: nat)
    requires Inv(c, s) && s.at == LoopTop && !s.timingArrived
    ensures n > 0 && AtRest(c, ThreadSteps(c, s, n))
  {
    hide Shape, QueueInv, TaskInv, JobInv, LocationInv, ThreadStep, NoneGone, StepsFor;
    QueueIds(c, s);
    if NoneGone(s.queue, s.context) {
      EpochDrains(c, s);
      n := StepsFor(s.queue, s.context);
      OneMore(c, s, n);
      n := n + 1;
    } else {
      n := GoneTaskIsUndefined(c, s);
    }
  }

  lemma LoopComesToRest(c: Config, s: State) returns (n: nat)
    requires Inv(c, s) && s.at == LoopTop
    ensures AtRest(c, ThreadSteps(c, s, n))
  {
    hide Shape, QueueInv, TaskInv, JobInv, LocationInv, ThreadSteps, ThreadStep, AtRest, MissedDeadline, Activate;
    if MissedDeadline(c, s) {
      n := 1;
      ExitIsRest(c, s);
    } else {
      var e := SettledStart(c, s);
      n := QuietComesToRest(c, e);
      SameSteps(c, s, e, n);
    }
  }

  /** The number of locations on the way to the top of the loop. */
  function Distance(at: Location): nat {
    match at
    case LoopTop => 0
    case AtEntry => 3
    case Entering => 2
    case _ => 1
  }

  lemma NextLocation(c: Config, s: State)
    requires Inv(c, s) && ThreadEnabled(s) && s.at != LoopTop && s.at != BeforeWait
    ensures ThreadStep(c, s).at in {Entering, Executing, LoopTop}
    ensures Distance(ThreadStep(c, s).at) < Distance(s.at)
  {
    hide QueueInv, TaskInv, JobInv;
    if s.at == Resumed {
      ResumeInv(c, s);
    }
  }

  lemma {:induction false} StepsToLoop(c: Config, s: State) returns (k: nat)
    requires Inv(c, s) && ThreadEnabled(s) && s.at != BeforeWait
    ensures var r := ThreadSteps(c, s, k); Inv(c, r) && r.at == LoopTop
    decreases Distance(s.at)
  {
    hide QueueInv, TaskInv, JobInv, LocationInv, ThreadStep, Distance;
    if s.at == LoopTop {
      k := 0;
    } else {
      ThreadInv(c, s);
      NextLocation(c, s);
      k := StepsToLoop(c, ThreadStep(c, s));
      k := k + 1;
    }
  }

  lemma RestFrom(c: Config, s: State) returns (n: nat)
    requires Inv(c, s) && s.at != BeforeWait && ThreadEnabled(s)
    ensures AtRest(c, ThreadSteps(c, s, n))
  {
    hide Shape, QueueInv, TaskInv, JobInv, LocationInv, ThreadSteps, ThreadStep, AtRest, ThreadEnabled;
    var k := StepsToLoop(c, s);
    var m := LoopComesToRest(c, ThreadSteps(c, s, k));
    StepsCompose(c, s, k, m);
    n := k + m;
  }

  lemma StoppedIsRest(c: Config, s: State)
    requires Inv(c, s) && !ThreadEnabled(s)
    ensures AtRest(c, s)
  {
  }

  /**
   No livelock: from every reachable state, whatever happened before, the scheduler thread comes to
   rest once ticks stop, with every job ended unless it exited on a missed deadline or switched to a
   function that had returned.
   */
  lemma ComesToRest(c: Config, acts: seq<Action>) returns (n: nat)
    requires c.Valid()
    ensures AtRest(c, ThreadSteps(c, Exec(c, acts), n))
  {
    hide Shape, QueueInv, TaskInv, JobInv, LocationInv, Exec, ThreadStep, AtRest, ThreadEnabled;
    var s := Exec(c, acts);
    InvAlways(c, acts);
    n := 0;
    if s.at == BeforeWait {
      OneMore(c, s, 0);
      n := 1;
    } else if !ThreadEnabled(s) {
      StoppedIsRest(c, s);
    } else {
      n := RestFrom(c, s);
    }
  }
}
