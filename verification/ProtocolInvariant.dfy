/** What holds in every state of every run of the scheduler. */
module ProtocolInvariant {
  import opened Tasks
  import opened QueueOrder
  import opened Protocol

  /** The queue is sorted, free of repetitions, and mirrored by the flags; queued tasks are READY. */
  ghost predicate QueueInv(c: Config, s: State)
    requires Shape(c, s)
  {
    && NoDuplicates(s.queue)
    && Sorted(s.queue)
    && (forall i :: 0 <= i < |c.tasks| ==> (s.inReadyQueue[i] <==> c.tasks[i] in s.queue))
    && (forall i :: 0 <= i < |c.tasks| ==> c.tasks[i] in s.queue ==> s.taskState[i] == TaskReady)
  }

  predicate IsCurrent(c: Config, s: State, i: nat)
    requires Shape(c, s) && i < |c.tasks|
  {
    s.current == Some(c.tasks[i])
  }

  /** The task's job has begun and not ended. */
  predicate OpenAt(c: Config, s: State, i: nat)
    requires Shape(c, s) && i < |c.tasks|
  {
    Open(s.context[i])
  }

  /**
   Only the current task can be RUNNING. A READY task is queued or about to run, or it is a
   single-shot task that was activated after its function had come to its end.
   */
  ghost predicate TaskInv(c: Config, s: State)
    requires Shape(c, s)
  {
    && (forall i :: 0 <= i < |c.tasks| && s.taskState[i] == TaskRunning ==>
          IsCurrent(c, s, i) && OpenAt(c, s, i) && c.tasks[i] !in s.queue && s.at in {Entering, Executing, LoopTop})
    && (forall i :: 0 <= i < |c.tasks| && s.taskState[i] == TaskReady ==>
          || c.tasks[i] in s.queue
          || (IsCurrent(c, s, i) && s.at in {AtEntry, Resumed, Returning})
          || s.context[i] == Gone)
    && (forall i :: 0 <= i < |c.tasks| && s.context[i] in {AtEnd, Gone} ==> c.tasks[i].taskType == BasicSingleShot)
  }

  /** An unfinished job belongs to a queued task or to the current one. */
  ghost predicate JobInv(c: Config, s: State)
    requires Shape(c, s)
  {
    forall i :: 0 <= i < |c.tasks| && OpenAt(c, s, i) ==>
      c.tasks[i] in s.queue ||
      (IsCurrent(c, s, i) &&
       (s.at in {Entering, Executing, Resumed} || (s.at == LoopTop && s.taskState[i] == TaskRunning)))
  }

  /** No queued task has to run before the current one. */
  ghost predicate BestIsCurrent(s: State) {
    s.current.Some? && forall x :: x in s.queue ==> !Before(x, s.current.value)
  }

  /** The scheduler thread has the maximal priority and has just switched to the best task. */
  ghost predicate Switching(s: State, ks: set<Context>) {
    && s.priority == SCHEDULE_MAX_PRIORITY && s.sched == SchedRunning && !s.timingArrived
    && BestIsCurrent(s) && CurrentIs(s, TaskReady, ks)
  }

  /** What each location implies for the scheduler's own fields. */
  ghost predicate LocationInv(c: Config, s: State)
    requires Shape(c, s)
  {
    && (s.preemptPending ==> s.at in {Entering, Executing} || s.signalMasked)
    && match s.at
       case BeforeWait =>
         s.queue == [] && s.current == None && s.priority == SCHEDULER_PRIORITY &&
         s.sched in {SchedInit, SchedSuspended, SchedResuming} && (s.sched == SchedInit ==> !s.timingArrived)
       case Blocked =>
         s.queue == [] && s.current == None && s.priority == SCHEDULER_PRIORITY &&
         s.sched in {SchedSuspended, SchedResuming} && (s.sched == SchedResuming ==> s.timingArrived)
       case LoopTop =>
         s.priority == SCHEDULER_PRIORITY && s.sched == SchedRunning &&
         (s.current.Some? ==> CurrentLeft(s, s.current.value))
       case AtEntry => Switching(s, {NeverRun, AtStart})
       case Entering =>
         s.priority == SCHEDULER_PRIORITY && s.sched == SchedWaiting && (s.preemptPending <==> s.timingArrived) &&
         BestIsCurrent(s) && CurrentIs(s, TaskRunning, {InEntry})
       case Executing =>
         s.priority == SCHEDULER_PRIORITY && s.sched == SchedWaiting &&
         (s.signalMasked || (s.preemptPending <==> s.timingArrived)) &&
         BestIsCurrent(s) && CurrentIs(s, TaskRunning, {InJob})
       case Resumed => Switching(s, {InJob, InEntry})
       case Returning => Switching(s, {AtEnd})
       case Exited => true
       case Undefined => true
  }

  ghost predicate CurrentIs(s: State, state: TaskState, ks: set<Context>) {
    s.current.Some? &&
    var x := s.current.value;
    x !in s.queue && x.id < |s.taskState| == |s.context| && s.taskState[x.id] == state && s.context[x.id] in ks
  }

  /**
   Back in the loop the current task has ended, or has been preempted because of a tick, or is a
   single-shot task whose function has returned.
   */
  ghost predicate CurrentLeft(s: State, x: Task) {
    x !in s.queue && x.id < |s.taskState| == |s.context| &&
    (|| s.taskState[x.id] == TaskSuspended
     || (s.taskState[x.id] == TaskRunning && s.timingArrived)
     || (s.taskState[x.id] == TaskReady && s.context[x.id] == Gone))
  }

  ghost predicate Inv(c: Config, s: State) {
    Shape(c, s) &&
    (!Stopped(s.at) ==> QueueInv(c, s) && TaskInv(c, s) && JobInv(c, s) && LocationInv(c, s))
  }

  lemma InitialInv(c: Config)
    requires c.Valid()
    ensures Inv(c, Initial(c))
  {
  }

  lemma TickInv(c: Config, s: State, table: nat)
    requires Inv(c, s) && TickEnabled(c, s, table)
    ensures Inv(c, TickStep(c, s, table))
  {
  }

  // ----- the activation block -----

  function MarkReady(states: seq<TaskState>, ts: seq<Task>): (r: seq<TaskState>)
    requires forall x :: x in ts ==> x.id < |states|
    ensures |r| == |states|
    decreases |ts|
  {
    if ts == [] then states
    else
      assert ts[0] in ts;
      MarkReady(states[ts[0].id := TaskReady], ts[1..])
  }

  function MarkQueued(flags: seq<bool>, ts: seq<Task>): (r: seq<bool>)
    requires forall x :: x in ts ==> x.id < |flags|
    ensures |r| == |flags|
    decreases |ts|
  {
    if ts == [] then flags
    else
      assert ts[0] in ts;
      MarkQueued(flags[ts[0].id := true], ts[1..])
  }

  ghost predicate SomeQueued(s: State, ts: seq<Task>) {
    exists x :: x in ts && x in s.queue
  }

  ghost predicate FlagsMatch(c: Config, s: State)
    requires Shape(c, s)
  {
    forall i :: 0 <= i < |c.tasks| ==> (s.inReadyQueue[i] <==> c.tasks[i] in s.queue)
  }

  /**
   Activating an expiry point exits if and only if one of its tasks was still queued; otherwise
   exactly its tasks become READY and are inserted, and nothing else changes.
   */
  lemma {:induction false} EnqueuePointEffect(c: Config, s: State, ts: seq<Task>)
    requires Shape(c, s) && FlagsMatch(c, s) && c.ValidPoint(ts)
    ensures EnqueuePoint(c, s, ts) == None <==> SomeQueued(s, ts)
    ensures !SomeQueued(s, ts) ==>
              EnqueuePoint(c, s, ts) == Some(s.(
                queue := InsertAll(s.queue, ts),
                taskState := MarkReady(s.taskState, ts),
                inReadyQueue := MarkQueued(s.inReadyQueue, ts)))
    decreases |ts|
  {
    if ts != [] {
      var x := ts[0];
      assert x in ts;
      assert ts == [x] + ts[1..];
      assert forall y :: y in ts <==> y == x || y in ts[1..];
      if x !in s.queue {
        var ready := MarkTask(c, s, x, TaskReady);
        var r := EnqueueCheck(c, ready, x);
        InsertMembers(s.queue, x);
        hide Insert, InsertPos, Sorted;
        assert FlagsMatch(c, r.value);
        assert x !in ts[1..];
        EnqueuePointEffect(c, r.value, ts[1..]);
        assert SomeQueued(s, ts) <==> SomeQueued(r.value, ts[1..]);
      }
    }
  }

  /** Between the exchange of timing_arrived and the pick. */
  ghost predicate MidInv(c: Config, s: State) {
    && Shape(c, s) && QueueInv(c, s)
    && s.at == LoopTop && s.sched == SchedRunning && s.priority == SCHEDULE_MAX_PRIORITY
    && (s.preemptPending ==> s.signalMasked)
    && (forall i :: 0 <= i < |c.tasks| && s.taskState[i] == TaskRunning ==>
          IsCurrent(c, s, i) && c.tasks[i] !in s.queue)
    && (forall i :: 0 <= i < |c.tasks| && s.taskState[i] == TaskReady ==>
          c.tasks[i] in s.queue || s.context[i] == Gone)
    && (forall i :: 0 <= i < |c.tasks| && OpenAt(c, s, i) ==>
          c.tasks[i] in s.queue || (IsCurrent(c, s, i) && s.taskState[i] == TaskRunning))
    && (forall i :: 0 <= i < |c.tasks| && s.context[i] in {AtEnd, Gone} ==> c.tasks[i].taskType == BasicSingleShot)
  }

  ghost predicate NoneRunning(c: Config, s: State)
    requires Shape(c, s)
  {
    forall i :: 0 <= i < |c.tasks| ==> s.taskState[i] != TaskRunning
  }

  lemma EnqueueOneMid(c: Config, s: State, x: Task)
    requires MidInv(c, s) && c.IsTask(x) && x !in s.queue
    ensures var r := EnqueueCheck(c, MarkTask(c, s, x, TaskReady), x);
            r.Some? && MidInv(c, r.value)
  {
    InsertMembers(s.queue, x);
    InsertNoDuplicates(s.queue, x);
    InsertSorted(s.queue, x);
    hide Insert, Sorted, NoDuplicates;
  }

  lemma {:induction false} EnqueuePointMid(c: Config, s: State, ts: seq<Task>)
    requires MidInv(c, s) && c.ValidPoint(ts) && !SomeQueued(s, ts)
    ensures var r := EnqueuePoint(c, s, ts);
            r.Some? && MidInv(c, r.value) && r.value.current == s.current && r.value.timingArrived == s.timingArrived
    decreases |ts|
  {
    if ts != [] {
      var x := ts[0];
      assert x in ts;
      assert ts == [x] + ts[1..];
      EnqueueOneMid(c, s, x);
      InsertMembers(s.queue, x);
      var r := EnqueueCheck(c, MarkTask(c, s, x, TaskReady), x).value;
      assert !SomeQueued(r, ts[1..]);
      hide Insert, MidInv;
      EnqueuePointMid(c, r, ts[1..]);
    }
  }

  /** Putting a preempted task back into the queue never exits, even if the same tick activated it. */
  lemma RequeueNeverExits(c: Config, s: State)
    requires MidInv(c, s)
    ensures Requeue(c, s).Some? && MidInv(c, Requeue(c, s).value) && NoneRunning(c, Requeue(c, s).value)
    ensures Requeue(c, s).value.timingArrived == s.timingArrived
  {
    if s.current.Some? && s.taskState[s.current.value.id] == TaskRunning {
      EnqueueOneMid(c, s, s.current.value);
    }
  }

  /** The scheduler exits in a loop iteration if and only if a tick activates a task that is still queued. */
  ghost predicate MissedDeadline(c: Config, s: State)
    requires Shape(c, s)
  {
    s.timingArrived && SomeQueued(s, CurrentPoint(c, s))
  }

  /** The task that a tick has just taken the CPU from. */
  predicate IsPreempted(s: State, x: Task) {
    s.current == Some(x) && x.id < |s.taskState| && s.taskState[x.id] == TaskRunning
  }

  lemma RequeueEffect(c: Config, s: State)
    requires MidInv(c, s)
    ensures var r := Requeue(c, s);
            r.Some? && forall y :: y in r.value.queue <==> y in s.queue || IsPreempted(s, y)
    ensures Requeue(c, s).value.queue ==
            if s.current.Some? && IsPreempted(s, s.current.value) then Insert(s.queue, s.current.value) else s.queue
    ensures var r := Requeue(c, s).value;
            r == s.(queue := r.queue, taskState := r.taskState, inReadyQueue := r.inReadyQueue)
  {
    RequeueNeverExits(c, s);
    if s.current.Some? {
      InsertMembers(s.queue, s.current.value);
    }
  }

  /** Apart from queue, task states and flags the activation block only clears timing_arrived. */
  ghost predicate OnlyActivated(s: State, m: State) {
    m == s.(priority := SCHEDULE_MAX_PRIORITY, timingArrived := false,
            queue := m.queue, taskState := m.taskState, inReadyQueue := m.inReadyQueue)
  }

  /**
   The queue after activation: the tasks of the point inserted in their order, then the preempted
   task unless it is one of them.
   */
  function ActivatedQueue(c: Config, s: State): seq<Task>
    requires Shape(c, s)
  {
    if !s.timingArrived then s.queue
    else
      var q := InsertAll(s.queue, CurrentPoint(c, s));
      if s.current.Some? && IsPreempted(s, s.current.value) && s.current.value !in CurrentPoint(c, s)
      then Insert(q, s.current.value) else q
  }

  lemma LoopTopMid(c: Config, s: State)
    requires Inv(c, s) && s.at == LoopTop
    ensures Shape(c, s) && FlagsMatch(c, s)
    ensures !s.timingArrived ==> MidInv(c, DisableTimingPreempt(s)) && NoneRunning(c, DisableTimingPreempt(s))
    ensures s.timingArrived ==> MidInv(c, DisableTimingPreempt(s).(timingArrived := false))
  {
    hide Sorted, NoDuplicates;
  }

  lemma ActivateMid(c: Config, s: State)
    requires Inv(c, s) && s.at == LoopTop
    ensures Activate(c, DisableTimingPreempt(s)) == None <==> MissedDeadline(c, s)
    ensures !MissedDeadline(c, s) ==>
              var m := Activate(c, DisableTimingPreempt(s)).value;
              MidInv(c, m) && NoneRunning(c, m) && OnlyActivated(s, m) && m.queue == ActivatedQueue(c, s) &&
              forall y :: y in m.queue <==>
                y in s.queue || (s.timingArrived && (y in CurrentPoint(c, s) || IsPreempted(s, y)))
  {
    hide QueueInv, TaskInv, JobInv, LocationInv, MidInv, NoneRunning, InsertAll, Insert, EnqueueCheck, MarkReady,
      MarkQueued, FlagsMatch;
    LoopTopMid(c, s);
    var s0 := DisableTimingPreempt(s);
    if s.timingArrived {
      var s1 := s0.(timingArrived := false);
      var ts := CurrentPoint(c, s0);
      assert ts == CurrentPoint(c, s);
      SameFlags(c, s, s1);
      EnqueuePointEffect(c, s1, ts);
      assert SomeQueued(s1, ts) <==> SomeQueued(s, ts);
      if !SomeQueued(s1, ts) {
        EnqueuePointMid(c, s1, ts);
        var s2 := EnqueuePoint(c, s1, ts).value;
        RequeueNeverExits(c, s2);
        RequeueEffect(c, s2);
        InsertAllMembers(s.queue, ts);
        StillPreempted(c, s1, ts);
      }
    }
  }

  lemma SameFlags(c: Config, s: State, r: State)
    requires Shape(c, s) && Shape(c, r) && FlagsMatch(c, s) && r.queue == s.queue && r.inReadyQueue == s.inReadyQueue
    ensures FlagsMatch(c, r)
  {
  }

  /** Activation makes the tasks of the point READY, so a preempted task stays RUNNING only if it is not among them. */
  lemma StillPreempted(c: Config, s: State, ts: seq<Task>)
    requires MidInv(c, s) && c.ValidPoint(ts) && !SomeQueued(s, ts)
    ensures EnqueuePoint(c, s, ts).Some?
    ensures forall y :: IsPreempted(EnqueuePoint(c, s, ts).value, y) <==> IsPreempted(s, y) && y !in ts
  {
    EnqueuePointEffect(c, s, ts);
    MarkReadyAt(c, s.taskState, ts);
  }

  lemma {:induction false} MarkReadyAt(c: Config, states: seq<TaskState>, ts: seq<Task>)
    requires c.Valid() && |states| == |c.tasks| && forall x :: x in ts ==> c.IsTask(x)
    ensures forall x :: x in ts ==> x.id < |states|
    ensures forall i :: 0 <= i < |states| ==>
              MarkReady(states, ts)[i] == if c.tasks[i] in ts then TaskReady else states[i]
    decreases |ts|
  {
    assert forall x :: x in ts ==> c.IsTask(x);
    if ts != [] {
      assert ts[0] in ts && ts == [ts[0]] + ts[1..];
      MarkReadyAt(c, states[ts[0].id := TaskReady], ts[1..]);
    }
  }

  lemma PickInv(c: Config, s: State)
    requires MidInv(c, s) && NoneRunning(c, s) && !s.timingArrived
    ensures Inv(c, Pick(c, s)) && Pick(c, s).at != Exited
  {
    hide NoDuplicates;
    if s.queue != [] {
      TakeFirstQueue(c, s);
    }
  }

  lemma TakeFirstQueue(c: Config, s: State)
    requires Shape(c, s) && QueueInv(c, s) && s.queue != []
    ensures QueueInv(c, TakeFirst(c, s)) && s.queue[0] !in s.queue[1..]
    ensures forall y :: y in s.queue <==> y == s.queue[0] || y in s.queue[1..]
    ensures forall y :: y in s.queue[1..] ==> !Before(y, s.queue[0])
  {
    assert s.queue == [s.queue[0]] + s.queue[1..];
  }

  lemma LoopIterationInv(c: Config, s: State)
    requires Inv(c, s) && s.at == LoopTop
    ensures Inv(c, LoopIteration(c, s))
    ensures LoopIteration(c, s).at == Exited <==> MissedDeadline(c, s)
  {
    hide Pick, Activate, MidInv, QueueInv, TaskInv, JobInv, LocationInv, NoneRunning, MissedDeadline;
    ActivateMid(c, s);
    if !MissedDeadline(c, s) {
      PickInv(c, Activate(c, DisableTimingPreempt(s)).value);
    }
  }

  lemma EntryInv(c: Config, s: State)
    requires Inv(c, s) && s.at == AtEntry
    ensures Inv(c, Entry(c, s))
  {
    hide Sorted, NoDuplicates, Before;
  }

  lemma TerminateInv(c: Config, s: State)
    requires Inv(c, s) && s.at == Executing && !Interrupted(s)
    ensures Inv(c, Terminate(c, s))
  {
  }

  lemma InterruptInv(c: Config, s: State)
    requires Inv(c, s) && s.at in {Entering, Executing} && Interrupted(s)
    ensures Inv(c, Interrupt(c, s))
  {
  }

  lemma FinishEntryInv(c: Config, s: State)
    requires Inv(c, s) && s.at == Entering && !Interrupted(s)
    ensures Inv(c, FinishEntry(c, s))
  {
  }

  /** A signal that the resumed handler's return lets through finds the scheduler RUNNING and is ignored. */
  lemma ResumeInv(c: Config, s: State)
    requires Inv(c, s) && s.at == Resumed
    ensures Resume(c, s) == Terminate(c, Unmask(c, s))
    ensures Inv(c, Resume(c, s))
  {
  }

  lemma ReturnInv(c: Config, s: State)
    requires Inv(c, s) && s.at == Returning
    ensures Inv(c, Return(c, s))
  {
  }

  lemma WaitInv(c: Config, s: State)
    requires Inv(c, s) && s.at in {BeforeWait, Blocked}
    ensures Inv(c, ThreadStep(c, s))
  {
  }

  lemma ThreadInv(c: Config, s: State)
    requires Inv(c, s)
    ensures Inv(c, ThreadStep(c, s))
  {
    hide QueueInv, TaskInv, JobInv, LoopIteration, Entry, FinishEntry, Terminate, Interrupt, Resume, Return;
    match s.at
    case LoopTop => LoopIterationInv(c, s);
    case AtEntry => EntryInv(c, s);
    case Entering =>
      if Interrupted(s) {
        InterruptInv(c, s);
      } else {
        FinishEntryInv(c, s);
      }
    case Executing =>
      if Interrupted(s) {
        InterruptInv(c, s);
      } else {
        TerminateInv(c, s);
      }
    case Resumed => ResumeInv(c, s);
    case Returning => ReturnInv(c, s);
    case BeforeWait => WaitInv(c, s);
    case Blocked => WaitInv(c, s);
    case _ =>
  }

  lemma StepInv(c: Config, s: State, a: Action)
    requires Inv(c, s)
    ensures Inv(c, Step(c, s, a))
  {
    match a
    case Thread => ThreadInv(c, s);
    case Tick(table) =>
      if TickEnabled(c, s, table) {
        TickInv(c, s, table);
      }
  }

  /** The invariant holds after every run, however ticks and thread steps interleave. */
  lemma {:induction false} InvAlways(c: Config, acts: seq<Action>)
    requires c.Valid()
    ensures Inv(c, Exec(c, acts))
  {
    if acts == [] {
      InitialInv(c);
    } else {
      var n := |acts| - 1;
      InvAlways(c, acts[..n]);
      StepInv(c, Exec(c, acts[..n]), acts[n]);
    }
  }

  /** The task has been preempted and has not been resumed to its end. */
  predicate HeldBack(c: Config, s: State, i: nat)
    requires Shape(c, s)
  {
    i < |c.tasks| && OpenAt(c, s, i) && !(s.at in {Entering, Executing} && IsCurrent(c, s, i))
  }

  predicate SomeHeldBack(c: Config, s: State)
    requires Shape(c, s)
  {
    exists i :: 0 <= i < |c.tasks| && HeldBack(c, s, i)
  }

  lemma LoopIterationKeeps(c: Config, s: State)
    requires Inv(c, s) && s.at == LoopTop
    ensures var r := LoopIteration(c, s);
            && r.context == s.context && r.signalMasked == s.signalMasked && r.preemptPending == s.preemptPending
            && r.at in {AtEntry, Resumed, Returning, BeforeWait, Exited, Undefined}
            && r.sched == (if r.at == BeforeWait then SchedSuspended else s.sched)
  {
    hide QueueInv, MidInv, TaskInv, JobInv, LocationInv, Activate, MissedDeadline, NoneRunning;
    ActivateMid(c, s);
  }
}
