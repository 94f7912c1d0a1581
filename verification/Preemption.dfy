/**
 Which ticks interrupt the running task. A preemption masks its own signal until the task is resumed, so
 preemptions do not nest, with one exception: the first `entry` of a task lowers the priority before it
 restores the mask. A tick in that stretch interrupts whatever prev_set says, and the mask that it leaves
 behind can outlast every resumption.
 */
module Preemption {
  import opened Tasks
  import opened Protocol
  import opened ProtocolInvariant
  import opened RunLog

  /** Held back by a preemption in its own function, so that its resumption clears the mask. */
  ghost predicate HeldInJob(c: Config, s: State, i: nat)
    requires Shape(c, s)
  {
    HeldBack(c, s, i) && s.context[i] == InJob
  }

  /** At most one task is held back in its own function, and the signal is masked while there is one. */
  ghost predicate MaskInv(c: Config, s: State)
    requires Shape(c, s)
  {
    && (forall i :: HeldInJob(c, s, i) ==> s.signalMasked)
    && (forall i, j :: HeldInJob(c, s, i) && HeldInJob(c, s, j) ==> i == j)
  }

  /** prev_set masks the preempt signal although nothing is held back whose resumption would clear it. */
  ghost predicate PreemptionLost(c: Config, s: State)
    requires Shape(c, s)
  {
    s.signalMasked && forall i :: !HeldInJob(c, s, i)
  }

  // ----- what one step does to the tasks held back -----

  predicate Preempts(s: State) {
    s.at in {Entering, Executing} && Interrupted(s)
  }

  lemma CurrentId(c: Config, s: State)
    requires Shape(c, s) && s.current.Some?
    ensures s.current.value.id < |c.tasks|
    ensures forall i: nat :: i < |c.tasks| ==> (IsCurrent(c, s, i) <==> i == s.current.value.id)
  {
  }

  /** A preemption holds back the current task, in its own function unless it was still in its first `entry`. */
  lemma HeldPreempt(c: Config, s: State)
    requires Inv(c, s) && Preempts(s)
    ensures Shape(c, s) && s.current.Some?
    ensures var r, k := ThreadStep(c, s), s.current.value.id;
            && r.signalMasked && r.at == LoopTop && !HeldBack(c, s, k)
            && (forall i: nat :: HeldBack(c, r, i) <==> HeldBack(c, s, i) || i == k)
            && (forall i: nat :: HeldInJob(c, r, i) <==> HeldInJob(c, s, i) || (i == k && s.at == Executing))
  {
    hide QueueInv, TaskInv, JobInv;
    CurrentId(c, s);
  }

  /** A resumption releases the current task; the mask is cleared unless that task was in its first `entry`. */
  lemma HeldResume(c: Config, s: State)
    requires Inv(c, s) && s.at == Resumed
    ensures Shape(c, s) && s.current.Some?
    ensures var r, k := ThreadStep(c, s), s.current.value.id;
            && HeldBack(c, s, k) && r.at == LoopTop
            && r.signalMasked == (s.signalMasked && !HeldInJob(c, s, k))
            && (forall i: nat :: HeldBack(c, r, i) <==> HeldBack(c, s, i) && i != k)
            && (forall i: nat :: HeldInJob(c, r, i) <==> HeldInJob(c, s, i) && i != k)
  {
    hide QueueInv, TaskInv, JobInv;
    CurrentId(c, s);
    ResumeInv(c, s);
  }

  lemma HeldLoop(c: Config, s: State)
    requires Inv(c, s) && s.at == LoopTop
    ensures var r := ThreadStep(c, s);
            && r.signalMasked == s.signalMasked && r.at != Entering
            && (forall i: nat :: HeldBack(c, r, i) <==> HeldBack(c, s, i))
            && (forall i: nat :: HeldInJob(c, r, i) <==> HeldInJob(c, s, i))
  {
    hide QueueInv, TaskInv, JobInv, LocationInv, LoopIteration;
    LoopIterationKeeps(c, s);
  }

  /** A write to the current task's context that holds it back neither before nor after changes nothing else. */
  lemma HeldByContext(c: Config, s: State, r: State)
    requires Shape(c, s) && Shape(c, r) && s.current.Some? && r.current == s.current
    requires var k := s.current.value.id;
             k < |s.context| == |r.context| && r.context == s.context[k := r.context[k]] &&
             !HeldBack(c, s, k) && !HeldBack(c, r, k)
    ensures forall i: nat :: HeldBack(c, r, i) <==> HeldBack(c, s, i)
    ensures forall i: nat :: HeldInJob(c, r, i) <==> HeldInJob(c, s, i)
  {
    var k := s.current.value.id;
    CurrentId(c, s);
    CurrentId(c, r);
    forall i: nat
      ensures HeldBack(c, r, i) <==> HeldBack(c, s, i)
      ensures HeldInJob(c, r, i) <==> HeldInJob(c, s, i)
    {
      if i < |c.tasks| && i != k {
        assert r.context[i] == s.context[i];
      }
    }
  }

  lemma TaskStepContext(c: Config, s: State)
    requires Inv(c, s) && !Preempts(s) && s.at in {AtEntry, Entering, Executing, Returning}
    ensures Shape(c, s) && s.current.Some?
    ensures var r, k := ThreadStep(c, s), s.current.value.id;
            && r.signalMasked == s.signalMasked && (r.at == Entering ==> !r.preemptPending) && r.current == s.current
            && k < |s.context| == |r.context| && r.context == s.context[k := r.context[k]]
            && !HeldBack(c, s, k) && !HeldBack(c, r, k)
  {
    hide QueueInv, TaskInv, JobInv, BestIsCurrent;
    CurrentId(c, s);
  }

  lemma HeldOther(c: Config, s: State)
    requires Inv(c, s) && !Preempts(s) && s.at != Resumed
    ensures var r := ThreadStep(c, s);
            && r.signalMasked == s.signalMasked && (r.at == Entering ==> !r.preemptPending)
            && (forall i: nat :: HeldBack(c, r, i) <==> HeldBack(c, s, i))
            && (forall i: nat :: HeldInJob(c, r, i) <==> HeldInJob(c, s, i))
  {
    if s.at == LoopTop {
      HeldLoop(c, s);
    } else if s.at in {AtEntry, Entering, Executing, Returning} {
      hide Inv, ThreadStep, HeldBack, HeldInJob, Preempts;
      TaskStepContext(c, s);
      HeldByContext(c, s, ThreadStep(c, s));
    } else {
      HeldWaiting(c, s);
    }
  }

  lemma HeldWaiting(c: Config, s: State)
    requires Inv(c, s) && s.at in {BeforeWait, Blocked, Exited, Undefined}
    ensures var r := ThreadStep(c, s);
            && r.signalMasked == s.signalMasked && r.at != Entering
            && (forall i: nat :: HeldBack(c, r, i) <==> HeldBack(c, s, i))
            && (forall i: nat :: HeldInJob(c, r, i) <==> HeldInJob(c, s, i))
  {
    hide QueueInv, TaskInv, JobInv, LocationInv;
  }

  // ----- the mask -----

  /** A tick has arrived in a first `entry` with prev_set free of the signal, and has not interrupted yet. */
  predicate AboutToLose(s: State) {
    s.at == Entering && s.preemptPending && !s.signalMasked
  }

  lemma PreemptsWhen(s: State)
    ensures Preempts(s) <==> (s.at == Entering && s.preemptPending) ||
                             (s.at == Executing && s.preemptPending && !s.signalMasked)
    ensures AboutToLose(s) ==> Preempts(s)
  {
  }

  lemma MaskThread(c: Config, s: State)
    requires Inv(c, s) && MaskInv(c, s)
    ensures MaskInv(c, ThreadStep(c, s))
    ensures PreemptionLost(c, ThreadStep(c, s)) <==> PreemptionLost(c, s) || AboutToLose(s)
    ensures !AboutToLose(ThreadStep(c, s))
  {
    hide Inv, ThreadStep, HeldBack, HeldInJob, Preempts;
    PreemptsWhen(s);
    if Preempts(s) {
      HeldPreempt(c, s);
      assert s.at == Executing ==> HeldInJob(c, ThreadStep(c, s), s.current.value.id);
    } else if s.at == Resumed {
      HeldResume(c, s);
    } else {
      HeldOther(c, s);
    }
  }

  lemma TickHeld(c: Config, s: State, table: nat)
    requires Shape(c, s) && table < |c.tables|
    ensures var r := TickStep(c, s, table);
            && r.signalMasked == s.signalMasked && r.at == s.at
            && (forall i: nat :: HeldBack(c, r, i) <==> HeldBack(c, s, i))
            && (forall i: nat :: HeldInJob(c, r, i) <==> HeldInJob(c, s, i))
  {
  }

  /** Some tick has fallen into a first `entry` while prev_set was free of the signal. */
  ghost predicate LosingTick(ticks: seq<TickRecord>) {
    exists j :: 0 <= j < |ticks| && ticks[j].inFirstEntry && ticks[j].signalFree
  }

  ghost predicate LossInv(c: Config, s: State, ticks: seq<TickRecord>)
    requires Shape(c, s)
  {
    MaskInv(c, s) && (PreemptionLost(c, s) || AboutToLose(s) <==> LosingTick(ticks))
  }

  lemma LossTick(c: Config, s: State, log: Log, table: nat)
    requires Inv(c, s) && LogShape(c, log) && LossInv(c, s, log.ticks) && TickEnabled(c, s, table)
    ensures LossInv(c, TickStep(c, s, table), LogTick(c, s, log, table).ticks)
  {
    hide QueueInv, TaskInv, JobInv, HeldInJob, SomeHeldBack, Shape;
    TickHeld(c, s, table);
    var ticks, after := log.ticks, LogTick(c, s, log, table).ticks;
    assert after == ticks + [after[|ticks|]];
    assert LosingTick(after) <==> LosingTick(ticks) || (s.at == Entering && !s.signalMasked) by {
      LosingTickAppend(ticks, after[|ticks|]);
    }
  }

  lemma LosingTickAppend(ticks: seq<TickRecord>, r: TickRecord)
    ensures LosingTick(ticks + [r]) <==> LosingTick(ticks) || (r.inFirstEntry && r.signalFree)
  {
    var after := ticks + [r];
    assert after[|ticks|] == r;
    assert forall j :: 0 <= j < |ticks| ==> after[j] == ticks[j];
  }

  lemma {:induction false} LossAlways(c: Config, acts: seq<Action>)
    requires c.Valid()
    ensures LossInv(c, Exec(c, acts), ExecLog(c, acts).ticks)
  {
    hide Inv, MaskInv, PreemptionLost, AboutToLose, LosingTick, ThreadStep, LogThread, LogTick;
    if acts == [] {
      NothingLost(c);
    } else {
      var n := |acts| - 1;
      var s, log := Exec(c, acts[..n]), ExecLog(c, acts[..n]);
      LossAlways(c, acts[..n]);
      InvAlways(c, acts[..n]);
      match acts[n]
      case Thread => MaskThread(c, s);
      case Tick(table) =>
        if TickEnabled(c, s, table) {
          LossTick(c, s, log, table);
        }
    }
  }

  lemma NothingLost(c: Config)
    requires c.Valid()
    ensures LossInv(c, Initial(c), [])
  {
  }

  /**
   Preemption is lost for good if and only if some tick fell into a first `entry` while prev_set was
   free of the signal: that interruption masks the signal, and the resumption restores prev_set as it is.
   */
  lemma PreemptionLostIff(c: Config, acts: seq<Action>)
    requires c.Valid() && Exec(c, acts).at != Entering
    ensures PreemptionLost(c, Exec(c, acts)) <==> LosingTick(ExecLog(c, acts).ticks)
  {
    LossAlways(c, acts);
  }

  /** Once lost, preemption stays lost, whatever happens. */
  lemma LostForever(c: Config, s: State, a: Action)
    requires Inv(c, s) && MaskInv(c, s) && PreemptionLost(c, s)
    ensures PreemptionLost(c, Step(c, s, a))
  {
    hide Inv, ThreadStep, TickStep, HeldInJob;
    match a
    case Thread => MaskThread(c, s);
    case Tick(table) =>
      if TickEnabled(c, s, table) {
        InvShape(c, s);
        TickHeld(c, s, table);
      }
  }

  lemma InvShape(c: Config, s: State)
    requires Inv(c, s)
    ensures Shape(c, s)
  {
  }

  /**
   A tick interrupts the running task if and only if the task is still in its first `entry`, or neither is
   another task held back in its own function nor has preemption been lost. Otherwise the task runs to its
   end first.
   */
  lemma TickInterruptsIff(c: Config, acts: seq<Action>)
    requires c.Valid() && Exec(c, acts).at in {Entering, Executing} && Exec(c, acts).timingArrived
    ensures var s := Exec(c, acts);
            var interrupts := s.at == Entering || (!PreemptionLost(c, s) && forall i :: !HeldInJob(c, s, i));
            && s.current.Some? && s.current.value.id < |s.context|
            && var r, k := ThreadStep(c, s), s.current.value.id;
               && r.at == LoopTop && r.sched == SchedRunning && r.timingArrived
               && r.taskState[k] == (if interrupts then TaskRunning else TaskSuspended)
               && (Open(r.context[k]) <==> interrupts)
    ensures Exec(c, acts).at == Executing ==>
              (PreemptionLost(c, Exec(c, acts)) <==> LosingTick(ExecLog(c, acts).ticks))
  {
    hide QueueInv, TaskInv, JobInv, HeldInJob, LosingTick;
    InvAlways(c, acts);
    LossAlways(c, acts);
  }

  // ----- nesting -----

  /** Some tick has fallen into a first `entry` while another task was held back. */
  ghost predicate NestedTick(ticks: seq<TickRecord>) {
    exists j :: 0 <= j < |ticks| && ticks[j].inFirstEntry && ticks[j].nested
  }

  ghost predicate OneHeld(c: Config, s: State)
    requires Shape(c, s)
  {
    && (forall i, j :: HeldBack(c, s, i) && HeldBack(c, s, j) ==> i == j)
    && (forall i :: HeldBack(c, s, i) ==> s.signalMasked && !(s.at == Entering && s.preemptPending))
  }

  lemma OneHeldThread(c: Config, s: State)
    requires Inv(c, s) && OneHeld(c, s)
    ensures OneHeld(c, ThreadStep(c, s))
  {
    hide Inv, ThreadStep, HeldBack, Preempts;
    PreemptsWhen(s);
    if Preempts(s) {
      HeldPreempt(c, s);
    } else if s.at == Resumed {
      HeldResume(c, s);
    } else {
      HeldOther(c, s);
    }
  }

  lemma OneHeldTick(c: Config, s: State, table: nat)
    requires Inv(c, s) && OneHeld(c, s) && TickEnabled(c, s, table) && !(s.at == Entering && SomeHeldBack(c, s))
    ensures OneHeld(c, TickStep(c, s, table))
  {
    TickHeld(c, s, table);
  }

  lemma NestedTickAppend(ticks: seq<TickRecord>, r: TickRecord)
    ensures NestedTick(ticks + [r]) <==> NestedTick(ticks) || (r.inFirstEntry && r.nested)
  {
    var after := ticks + [r];
    assert after[|ticks|] == r;
    assert forall j :: 0 <= j < |ticks| ==> after[j] == ticks[j];
  }

  /**
   In every run in which no tick falls into a first `entry` while another task is held back, at most one
   task is ever held back, and prev_set masks the preempt signal as long as there is one.
   */
  lemma {:induction false} OnePreemptedTask(c: Config, acts: seq<Action>)
    requires c.Valid() && !NestedTick(ExecLog(c, acts).ticks)
    ensures OneHeld(c, Exec(c, acts))
  {
    hide Inv, OneHeld, NestedTick, ThreadStep, TickStep, LogThread, SomeHeldBack;
    if acts == [] {
      NoneHeld(c);
    } else {
      var n := |acts| - 1;
      var s, log := Exec(c, acts[..n]), ExecLog(c, acts[..n]);
      InvAlways(c, acts[..n]);
      match acts[n]
      case Thread =>
        OnePreemptedTask(c, acts[..n]);
        OneHeldThread(c, s);
      case Tick(table) =>
        if TickEnabled(c, s, table) {
          var ticks := ExecLog(c, acts).ticks;
          NestedTickAppend(log.ticks, ticks[|log.ticks|]);
          OnePreemptedTask(c, acts[..n]);
          OneHeldTick(c, s, table);
        } else {
          OnePreemptedTask(c, acts[..n]);
        }
    }
  }

  lemma NoneHeld(c: Config)
    requires c.Valid()
    ensures OneHeld(c, Initial(c))
  {
  }

  /** The premise is exact: after such a tick, the next thread step holds back a second task. */
  lemma NestedTickHoldsTwo(c: Config, s: State, table: nat)
    requires Inv(c, s) && TickEnabled(c, s, table) && s.at == Entering && SomeHeldBack(c, s)
    ensures !OneHeld(c, ThreadStep(c, TickStep(c, s, table)))
  {
    hide QueueInv, TaskInv, JobInv, LocationInv, ThreadStep, HeldBack;
    TickInv(c, s, table);
    TickHeld(c, s, table);
    WaitingWhenEntering(c, s);
    HeldPreempt(c, TickStep(c, s, table));
    var i :| 0 <= i < |c.tasks| && HeldBack(c, s, i);
    assert HeldBack(c, ThreadStep(c, TickStep(c, s, table)), s.current.value.id);
  }

  lemma WaitingWhenEntering(c: Config, s: State)
    requires Inv(c, s) && s.at == Entering
    ensures s.sched == SchedWaiting && s.current.Some?
  {
  }

  /** Without any tick in a first `entry`, the signal is masked exactly while a task is held back. */
  lemma MaskedIffHeld(c: Config, acts: seq<Action>)
    requires c.Valid() && forall j :: 0 <= j < |ExecLog(c, acts).ticks| ==> !ExecLog(c, acts).ticks[j].inFirstEntry
    ensures Exec(c, acts).signalMasked <==> SomeHeldBack(c, Exec(c, acts))
  {
    hide Exec, ExecLog, HeldBack;
    LossAlways(c, acts);
    OnePreemptedTask(c, acts);
    var s := Exec(c, acts);
    if s.signalMasked {
      var i :| HeldInJob(c, s, i);
      HeldIndex(c, s, i);
    }
  }

  lemma HeldIndex(c: Config, s: State, i: nat)
    requires Shape(c, s) && HeldBack(c, s, i)
    ensures i < |c.tasks|
  {
  }
}
