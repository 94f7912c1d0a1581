/**
 A log kept beside each run, and what it shows: which ticks are handed over to the scheduler
 thread, and that no job is lost or invented.
 */
module RunLog {
  import opened Tasks
  import opened Divisibility
  import opened Protocol
  import opened ProtocolInvariant

  datatype PointRef = PointRef(table: nat, ep: nat)

  /**
   One tick: the point it stands for, whether timing_arrived was still set, whether it fell between
   the lowering of the priority at line 222 and the lock of the mutex at line 136, and whether it fell into
   the corresponding stretch of a task's first `entry`, with prev_set free of the preempt signal or with
   another task held back.
   */
  datatype TickRecord = TickRecord(point: PointRef, overran: bool, inWindow: bool,
                                   inFirstEntry: bool, signalFree: bool, nested: bool)

  datatype Log = Log(
    ticks: seq<TickRecord>,
    enqueued: seq<PointRef>,
    activations: seq<nat>,
    merges: seq<nat>, // activations inside a job that is still open
    lapses: seq<nat>, // activations of a single-shot task whose one job is over
    entries: seq<nat>,
    terminations: seq<nat>
  )

  ghost predicate LogShape(c: Config, log: Log) {
    |log.activations| == |log.merges| == |log.lapses| == |log.entries| == |log.terminations| == |c.tasks|
  }

  function EmptyLog(c: Config): (log: Log)
    ensures LogShape(c, log)
  {
    var zeros := seq(|c.tasks|, _ => 0);
    Log([], [], zeros, zeros, zeros, zeros, zeros)
  }

  /** Count one for every task of `ts` that `pick` selects. */
  function Bump(c: Config, counts: seq<nat>, ts: seq<Task>, pick: seq<bool>): (r: seq<nat>)
    requires |counts| == |c.tasks| == |pick|
    ensures |r| == |c.tasks|
    ensures forall i :: 0 <= i < |r| ==> r[i] == counts[i] + if c.tasks[i] in ts && pick[i] then 1 else 0
  {
    seq(|counts|, i requires 0 <= i < |counts| => counts[i] + if c.tasks[i] in ts && pick[i] then 1 else 0)
  }

  /** The tasks whose saved context is one of `kinds`. */
  function Where(context: seq<Context>, kinds: set<Context>): (pick: seq<bool>)
    ensures |pick| == |context|
    ensures forall i :: 0 <= i < |pick| ==> (pick[i] <==> context[i] in kinds)
  {
    seq(|context|, i requires 0 <= i < |context| => context[i] in kinds)
  }

  function All(c: Config): seq<bool> {
    seq(|c.tasks|, _ => true)
  }

  function CurrentRef(c: Config, s: State): PointRef
    requires Shape(c, s)
  {
    PointRef(s.currentTable, CurrentEp(c, s))
  }

  function LogThread(c: Config, s: State, log: Log): (r: Log)
    requires Shape(c, s) && LogShape(c, log)
    ensures LogShape(c, r) && r.ticks == log.ticks
  {
    match s.at
    case LoopTop =>
      if s.timingArrived && LoopIteration(c, s).at != Exited then
        var ts := CurrentPoint(c, s);
        log.(enqueued := log.enqueued + [CurrentRef(c, s)],
             activations := Bump(c, log.activations, ts, All(c)),
             merges := Bump(c, log.merges, ts, Where(s.context, {InJob, InEntry})),
             lapses := Bump(c, log.lapses, ts, Where(s.context, {AtEnd, Gone})))
      else log
    case AtEntry => log.(entries := Bump(c, log.entries, [s.current.value], All(c)))
    case Entering => log
    case Executing =>
      if Interrupted(s) then log else log.(terminations := Bump(c, log.terminations, [s.current.value], All(c)))
    case Resumed => log.(terminations := Bump(c, log.terminations, [s.current.value], All(c)))
    case _ => log
  }

  function LogTick(c: Config, s: State, log: Log, table: nat): (r: Log)
    requires Shape(c, s) && LogShape(c, log) && table < |c.tables|
    ensures LogShape(c, r)
  {
    log.(ticks := log.ticks + [TickRecord(PointRef(table, s.nextEp[table]), s.timingArrived, s.at == BeforeWait,
                                             s.at == Entering, !s.signalMasked, SomeHeldBack(c, s))])
  }

  function LogStep(c: Config, s: State, log: Log, a: Action): (r: Log)
    requires Shape(c, s) && LogShape(c, log)
    ensures LogShape(c, r)
  {
    match a
    case Thread => LogThread(c, s, log)
    case Tick(table) => if TickEnabled(c, s, table) then LogTick(c, s, log, table) else log
  }

  function ExecLog(c: Config, acts: seq<Action>): (log: Log)
    requires c.Valid()
    ensures LogShape(c, log)
  {
    if acts == [] then EmptyLog(c)
    else
      var n := |acts| - 1;
      LogStep(c, Exec(c, acts[..n]), ExecLog(c, acts[..n]), acts[n])
  }

  // ----- handing ticks over -----

  /** The points of the ticks that were not overwritten by their successor. */
  function Delivered(ticks: seq<TickRecord>): (r: seq<PointRef>)
    ensures ticks != [] ==> r != [] && r[|r| - 1] == ticks[|ticks| - 1].point
  {
    if ticks == [] then []
    else
      var n := |ticks| - 1;
      var before := Delivered(ticks[..n]);
      (if ticks[n].overran && n > 0 then before[..|before| - 1] else before) + [ticks[n].point]
  }

  function PointsOf(ticks: seq<TickRecord>): (r: seq<PointRef>)
    ensures |r| == |ticks|
  {
    seq(|ticks|, i requires 0 <= i < |ticks| => ticks[i].point)
  }

  function Overruns(ticks: seq<TickRecord>): nat {
    if ticks == [] then 0
    else Overruns(ticks[..|ticks| - 1]) + if ticks[|ticks| - 1].overran then 1 else 0
  }

  function Pending(s: State, ticks: seq<TickRecord>): seq<PointRef> {
    if s.timingArrived && ticks != [] then [ticks[|ticks| - 1].point] else []
  }

  ghost predicate HandoffInv(c: Config, s: State, log: Log)
    requires Shape(c, s)
  {
    && (log.ticks != [] ==> log.ticks[|log.ticks| - 1].point == CurrentRef(c, s))
    && (s.timingArrived ==> log.ticks != [])
    && Delivered(log.ticks) == log.enqueued + Pending(s, log.ticks)
    && (log.ticks != [] ==> !log.ticks[0].overran)
  }

  lemma CurrentAfterTick(c: Config, s: State, table: nat)
    requires Shape(c, s) && table < |c.tables|
    ensures CurrentRef(c, TickStep(c, s, table)) == PointRef(table, s.nextEp[table])
  {
    hide Shape, Config.Valid;
    TablePositive(c, s, table);
    var n, e := |c.tables[table]|, s.nextEp[table];
    if e + 1 == n {
      DivModUnique(e + 1, n, 1, 0);
    } else {
      DivModUnique(e + 1, n, 0, e + 1);
    }
  }

  lemma TablePositive(c: Config, s: State, table: nat)
    requires Shape(c, s) && table < |c.tables|
    ensures |c.tables| == |s.nextEp| && s.nextEp[table] < |c.tables[table]|
  {
  }

  lemma HandoffTick(c: Config, s: State, log: Log, table: nat)
    requires Shape(c, s) && LogShape(c, log) && HandoffInv(c, s, log) && TickEnabled(c, s, table)
    ensures HandoffInv(c, TickStep(c, s, table), LogTick(c, s, log, table))
  {
    CurrentAfterTick(c, s, table);
    var ticks := LogTick(c, s, log, table).ticks;
    assert ticks[..|ticks| - 1] == log.ticks;
    if s.timingArrived {
      var d := Delivered(log.ticks);
      assert d[..|d| - 1] == log.enqueued;
    }
  }

  lemma LoopIterationFrame(c: Config, s: State)
    requires Inv(c, s) && s.at == LoopTop
    ensures var r := LoopIteration(c, s);
            r.nextEp == s.nextEp && r.currentTable == s.currentTable && (r.at == Exited || !r.timingArrived) &&
            (r.at == Exited ==> r == s.(at := Exited)) && (r.at == Exited ==> s.timingArrived)
  {
    hide MidInv, QueueInv, TaskInv, JobInv, LocationInv, Activate, NoneRunning;
    LoopIterationInv(c, s);
    ActivateMid(c, s);
  }

  /** Outside the top of the loop a thread step touches neither the tables nor the tick that is waiting. */
  lemma ThreadFrame(c: Config, s: State)
    requires Inv(c, s) && s.at != LoopTop
    ensures var r := ThreadStep(c, s);
            r.nextEp == s.nextEp && r.currentTable == s.currentTable && r.timingArrived == s.timingArrived
  {
    hide QueueInv, TaskInv, JobInv, LoopIteration, BestIsCurrent;
    if s.at == Resumed {
      ResumeInv(c, s);
    }
  }

  lemma LogFrame(c: Config, s: State, log: Log)
    requires Shape(c, s) && LogShape(c, log) && s.at != LoopTop
    ensures LogThread(c, s, log).enqueued == log.enqueued && LogThread(c, s, log).ticks == log.ticks
  {
  }

  lemma LogLoop(c: Config, s: State, log: Log)
    requires Shape(c, s) && LogShape(c, log) && s.at == LoopTop
    ensures LogThread(c, s, log).ticks == log.ticks
    ensures LogThread(c, s, log).enqueued == log.enqueued +
            if s.timingArrived && LoopIteration(c, s).at != Exited then [CurrentRef(c, s)] else []
  {
  }

  lemma SameRef(c: Config, s: State, r: State)
    requires Shape(c, s) && Shape(c, r) && r.nextEp == s.nextEp && r.currentTable == s.currentTable
    ensures CurrentRef(c, r) == CurrentRef(c, s)
  {
  }

  lemma HandoffThread(c: Config, s: State, log: Log)
    requires Inv(c, s) && LogShape(c, log) && HandoffInv(c, s, log)
    ensures HandoffInv(c, ThreadStep(c, s), LogThread(c, s, log))
  {
    hide QueueInv, TaskInv, JobInv, LocationInv, LoopIteration, Delivered, LogThread, CurrentRef, Shape;
    if s.at == LoopTop {
      LoopIterationFrame(c, s);
      LogLoop(c, s, log);
      SameRef(c, s, LoopIteration(c, s));
    } else {
      hide ThreadStep;
      ThreadFrame(c, s);
      LogFrame(c, s, log);
      SameRef(c, s, ThreadStep(c, s));
    }
  }

  lemma {:induction false} HandoffAlways(c: Config, acts: seq<Action>)
    requires c.Valid()
    ensures HandoffInv(c, Exec(c, acts), ExecLog(c, acts))
  {
    if acts != [] {
      var n := |acts| - 1;
      HandoffAlways(c, acts[..n]);
      InvAlways(c, acts[..n]);
      var s, log := Exec(c, acts[..n]), ExecLog(c, acts[..n]);
      match acts[n]
      case Thread => HandoffThread(c, s, log);
      case Tick(table) =>
        if TickEnabled(c, s, table) {
          HandoffTick(c, s, log, table);
        }
    }
  }

  lemma {:induction false} DeliveredLength(ticks: seq<TickRecord>)
    requires ticks != [] ==> !ticks[0].overran
    ensures |Delivered(ticks)| == |ticks| - Overruns(ticks)
  {
    if ticks != [] {
      var before := ticks[..|ticks| - 1];
      assert before != [] ==> before[0] == ticks[0];
      DeliveredLength(before);
      assert before == [] ==> Delivered(before) == [];
    }
  }

  lemma {:induction false} AllDelivered(ticks: seq<TickRecord>)
    requires Overruns(ticks) == 0
    ensures Delivered(ticks) == PointsOf(ticks)
  {
    if ticks != [] {
      var n := |ticks| - 1;
      AllDelivered(ticks[..n]);
      assert PointsOf(ticks) == PointsOf(ticks[..n]) + [ticks[n].point];
    }
  }

  /**
   The points enqueued by the scheduler thread, with the one still pending, are the points of all
   ticks in order, if and only if no tick arrived while timing_arrived was still set. In every
   run exactly the overwritten ticks are missing, and each enqueue takes the latest tick.
   */
  lemma ExactlyOnceHandoff(c: Config, acts: seq<Action>)
    requires c.Valid()
    ensures var s, log := Exec(c, acts), ExecLog(c, acts);
            && (log.enqueued + Pending(s, log.ticks) == PointsOf(log.ticks) <==> Overruns(log.ticks) == 0)
            && log.enqueued + Pending(s, log.ticks) == Delivered(log.ticks)
            && |log.enqueued| + |Pending(s, log.ticks)| + Overruns(log.ticks) == |log.ticks|
            && (s.timingArrived ==> log.ticks != [] && CurrentRef(c, s) == log.ticks[|log.ticks| - 1].point)
  {
    hide Exec, ExecLog, Delivered, Overruns;
    HandoffAlways(c, acts);
    DeliveredLength(ExecLog(c, acts).ticks);
    if Overruns(ExecLog(c, acts).ticks) == 0 {
      AllDelivered(ExecLog(c, acts).ticks);
    }
  }

  lemma ExecAppend(c: Config, acts: seq<Action>, a: Action)
    requires c.Valid()
    ensures Exec(c, acts + [a]) == Step(c, Exec(c, acts), a)
    ensures ExecLog(c, acts + [a]) == LogStep(c, Exec(c, acts), ExecLog(c, acts), a)
  {
  }

  lemma OverrunsAppend(ticks: seq<TickRecord>, r: TickRecord)
    ensures Overruns(ticks + [r]) == Overruns(ticks) + if r.overran then 1 else 0
  {
  }

  /** Ticks are processed only after the first thread step, one by one. */
  lemma {:induction false} TicksTakeLonger(c: Config, acts: seq<Action>)
    requires c.Valid()
    ensures if Exec(c, acts).sched == SchedInit then ExecLog(c, acts).ticks == []
            else |ExecLog(c, acts).ticks| < |acts|
  {
    if acts != [] {
      var n := |acts| - 1;
      TicksTakeLonger(c, acts[..n]);
      InvAlways(c, acts[..n]);
      if Exec(c, acts[..n]).sched != SchedInit {
        StaysStarted(c, Exec(c, acts[..n]), acts[n]);
      }
    }
  }

  lemma StaysStarted(c: Config, s: State, a: Action)
    requires Inv(c, s) && s.sched != SchedInit
    ensures Step(c, s, a).sched != SchedInit
  {
    hide QueueInv, TaskInv, JobInv, LocationInv, LoopIteration;
    if a.Thread? && s.at == LoopTop {
      LoopIterationKeeps(c, s);
    }
  }

  lemma ShortTicksNoOverrun(ticks: seq<TickRecord>)
    requires |ticks| < 2 && (ticks != [] ==> !ticks[0].overran)
    ensures Overruns(ticks) == 0
  {
    NoOverruns();
    if ticks != [] {
      OverrunsAppend([], ticks[0]);
      assert ticks == [] + [ticks[0]];
    }
  }

  lemma NoOverruns()
    ensures Overruns([]) == 0
  {
  }

  // ----- when ticks happen -----

  /** What each location means for the timing thread, in numbers. */
  lemma PriorityAt(c: Config, s: State)
    requires Inv(c, s) && !Stopped(s.at)
    ensures s.priority == if s.at in {AtEntry, Resumed, Returning} then 99 else 50
  {
  }

  /** A tick is processed exactly where the scheduler thread does not hold the maximal priority. */
  lemma TickEnabledIff(c: Config, s: State, t: nat)
    requires Inv(c, s) && t < |c.tables|
    ensures TickEnabled(c, s, t) <==>
            s.sched != SchedInit && s.at in {BeforeWait, Blocked, LoopTop, Entering, Executing}
  {
    hide QueueInv, TaskInv, JobInv;
    if !Stopped(s.at) {
      PriorityAt(c, s);
    }
  }

  /** What one processed tick does: the table moves on, the scheduler is resumed or its task signalled. */
  ghost predicate TickEffect(c: Config, s: State, r: State, t: nat) {
    && t < |s.nextEp| == |r.nextEp| == |c.tables|
    && r.timingArrived && r.currentTable == t
    && r.nextEp[t] == (if s.nextEp[t] + 1 == |c.tables[t]| then 0 else s.nextEp[t] + 1)
    && r.sched == (if s.sched == SchedSuspended then SchedResuming else s.sched)
    && (r.preemptPending <==> s.preemptPending || s.sched == SchedWaiting)
    && r.at == s.at && r.queue == s.queue && r.taskState == s.taskState && r.context == s.context
  }

  lemma TickHasEffect(c: Config, s: State, t: nat)
    requires Shape(c, s) && t < |c.tables|
    ensures TickEffect(c, s, TickStep(c, s, t), t)
  {
    hide Config.Valid;
    TablePositive(c, s, t);
    NextOf(s.nextEp[t], |c.tables[t]|);
  }

  /** One tick has been recorded: the point it stands for and whether it overwrote another. */
  ghost predicate TickRecorded(s: State, before: seq<TickRecord>, after: seq<TickRecord>, t: nat) {
    && |after| == |before| + 1 && after[..|before|] == before && t < |s.nextEp|
    && after[|before|].point == PointRef(t, s.nextEp[t]) && after[|before|].overran == s.timingArrived
  }

  lemma TickIsRecorded(c: Config, s: State, log: Log, t: nat)
    requires Shape(c, s) && LogShape(c, log) && t < |c.tables|
    ensures TickRecorded(s, log.ticks, LogTick(c, s, log, t).ticks, t)
  {
    hide SomeHeldBack, Config.Valid;
  }

  /**
   After any run, one more tick of a table is processed if and only if initialisation is over and the
   scheduler thread is outside its brackets of maximal priority. It is then recorded, moves the index of
   its table, is noted for the scheduler thread, resumes it from SUSPENDED and signals it in WAITING.
   */
  lemma TickHappensIff(c: Config, acts: seq<Action>, t: nat)
    requires c.Valid() && t < |c.tables|
    ensures var s, r := Exec(c, acts), Exec(c, acts + [Tick(t)]);
            var before, after := ExecLog(c, acts).ticks, ExecLog(c, acts + [Tick(t)]).ticks;
            if s.sched != SchedInit && s.at in {BeforeWait, Blocked, LoopTop, Entering, Executing}
            then TickRecorded(s, before, after, t) && TickEffect(c, s, r, t)
            else after == before && r == s
  {
    hide Exec, ExecLog, Inv, Config.Valid, TickStep, LogTick, TickEnabled, TickEffect, TickRecorded;
    var s, log := Exec(c, acts), ExecLog(c, acts);
    InvAlways(c, acts);
    TickEnabledIff(c, s, t);
    ExecAppend(c, acts, Tick(t));
    TickHasEffect(c, s, t);
    TickIsRecorded(c, s, log, t);
  }

  lemma NextOf(e: nat, n: nat)
    requires e < n
    ensures (e + 1) % n == if e + 1 == n then 0 else e + 1
  {
    if e + 1 == n {
      DivModUnique(e + 1, n, 1, 0);
    } else {
      DivModUnique(e + 1, n, 0, e + 1);
    }
  }

  lemma FirstWait(c: Config)
    requires c.Valid()
    ensures var s, log := Exec(c, [Thread]), ExecLog(c, [Thread]);
            s.at == Blocked && s.sched == SchedSuspended && !s.timingArrived && log.ticks == []
  {
    hide Shape, Config.Valid, LoopIteration;
    ExecAppend(c, [], Thread);
    assert [] + [Thread] == [Thread];
  }

  lemma OverwrittenTick(c: Config, t: nat)
    requires c.Valid() && t < |c.tables|
    ensures var acts := [Thread] + [Tick(t)] + [Tick(t)];
            var s, log := Exec(c, acts), ExecLog(c, acts);
            |log.ticks| == 2 && Overruns(log.ticks) == 1 && log.enqueued + Pending(s, log.ticks) == [log.ticks[1].point]
  {
    hide Exec, ExecLog, Overruns, Config.Valid;
    var acts := [Thread] + [Tick(t)] + [Tick(t)];
    var log := ExecLog(c, acts);
    FirstWait(c);
    TickHappensIff(c, [Thread], t);
    TickHappensIff(c, [Thread] + [Tick(t)], t);
    var r, r' := log.ticks[0], log.ticks[1];
    assert ExecLog(c, [Thread] + [Tick(t)]).ticks == [] + [r];
    assert log.ticks == [] + [r] + [r'];
    NoOverruns();
    OverrunsAppend([], r);
    OverrunsAppend([] + [r], r');
    ExactlyOnceHandoff(c, acts);
    assert log.enqueued == [];
  }

  /**
   The shortest run that loses a tick: a second one overwrites it before the scheduler thread has woken
   up. No run of fewer than three actions loses any.
   */
  lemma CoalescedTicks(c: Config, t: nat)
    requires c.Valid() && t < |c.tables|
    ensures var acts := [Thread] + [Tick(t)] + [Tick(t)];
            var s, log := Exec(c, acts), ExecLog(c, acts);
            |log.ticks| == 2 && Overruns(log.ticks) == 1 && log.enqueued + Pending(s, log.ticks) == [log.ticks[1].point]
    ensures forall acts: seq<Action> :: |acts| < 3 ==> Overruns(ExecLog(c, acts).ticks) == 0
  {
    OverwrittenTick(c, t);
    forall acts: seq<Action> | |acts| < 3
      ensures Overruns(ExecLog(c, acts).ticks) == 0
    {
      TicksTakeLonger(c, acts);
      HandoffAlways(c, acts);
      ShortTicksNoOverrun(ExecLog(c, acts).ticks);
    }
  }

  /** A tick that finds the thread blocked and SUSPENDED is served: two thread steps later its point is enqueued. */
  lemma SuspendedThreadServes(c: Config, acts: seq<Action>, t: nat)
    requires c.Valid() && t < |c.tables|
    requires Exec(c, acts).at == Blocked && Exec(c, acts).sched == SchedSuspended
    ensures var s, log := Exec(c, acts), ExecLog(c, acts);
            var more := acts + [Tick(t)] + [Thread] + [Thread];
            var r, after := Exec(c, more), ExecLog(c, more);
            && after.enqueued == log.enqueued + [PointRef(t, s.nextEp[t])] && !r.timingArrived && r.at != Exited
  {
    hide Shape, QueueInv, TaskInv, JobInv, LoopIteration, SomeHeldBack, CurrentRef;
    var s := Exec(c, acts);
    InvAlways(c, acts);
    TickEnabledIff(c, s, t);
    ExecAppend(c, acts, Tick(t));
    ExecAppend(c, acts + [Tick(t)], Thread);
    ExecAppend(c, acts + [Tick(t)] + [Thread], Thread);
    InvAlways(c, acts + [Tick(t)]);
    InvAlways(c, acts + [Tick(t)] + [Thread]);
    var r1 := TickStep(c, s, t);
    var r2 := ThreadStep(c, r1);
    CurrentAfterTick(c, s, t);
    SameRef(c, r1, r2);
    LoopIterationFrame(c, r2);
    LoopIterationInv(c, r2);
    NothingQueued(c, r2);
  }

  lemma NothingQueued(c: Config, s: State)
    requires Shape(c, s) && s.queue == []
    ensures !MissedDeadline(c, s)
  {
  }

  // ----- the window between line 222 and line 136 -----

  /** Blocked with a tick on record and nobody to wake the scheduler thread for it. */
  predicate Stranded(s: State) {
    s.at == Blocked && s.timingArrived && s.sched != SchedResuming
  }

  ghost predicate WindowInv(s: State, ticks: seq<TickRecord>) {
    && (forall j :: 0 <= j < |ticks| - 1 && ticks[j].inWindow ==> ticks[j + 1].overran)
    && (ticks != [] && ticks[|ticks| - 1].inWindow ==> s.timingArrived && (s.at == BeforeWait || Stranded(s)))
    && (s.at == BeforeWait && s.timingArrived ==> ticks != [] && ticks[|ticks| - 1].inWindow)
    && (Stranded(s) ==> ticks != [] && ticks[|ticks| - 1].inWindow)
  }

  lemma WindowThread(c: Config, s: State, ticks: seq<TickRecord>)
    requires Inv(c, s) && WindowInv(s, ticks)
    ensures WindowInv(ThreadStep(c, s), ticks)
  {
    hide QueueInv, TaskInv, JobInv, LoopIteration, Config.Valid;
    if s.at == LoopTop {
      LoopIterationKeeps(c, s);
      LoopIterationFrame(c, s);
    } else if s.at == Resumed {
      ResumeInv(c, s);
    }
  }

  lemma WindowTick(c: Config, s: State, log: Log, table: nat)
    requires Inv(c, s) && LogShape(c, log) && WindowInv(s, log.ticks) && TickEnabled(c, s, table)
    ensures WindowInv(TickStep(c, s, table), LogTick(c, s, log, table).ticks)
  {
    hide QueueInv, TaskInv, JobInv, SomeHeldBack, Config.Valid;
  }

  lemma WindowStep(c: Config, s: State, log: Log, a: Action)
    requires Inv(c, s) && LogShape(c, log) && WindowInv(s, log.ticks)
    ensures WindowInv(Step(c, s, a), LogStep(c, s, log, a).ticks)
  {
    hide WindowInv, ThreadStep, TickStep, LogThread, LogTick;
    match a
    case Thread => WindowThread(c, s, log.ticks);
    case Tick(table) =>
      if TickEnabled(c, s, table) {
        WindowTick(c, s, log, table);
      }
  }

  lemma {:induction false} WindowAlways(c: Config, acts: seq<Action>)
    requires c.Valid()
    ensures WindowInv(Exec(c, acts), ExecLog(c, acts).ticks)
  {
    if acts != [] {
      var n := |acts| - 1;
      WindowAlways(c, acts[..n]);
      InvAlways(c, acts[..n]);
      WindowStep(c, Exec(c, acts[..n]), ExecLog(c, acts[..n]), acts[n]);
    }
  }

  /**
   A blocked scheduler thread has a tick waiting that will not wake it if and only if the last
   tick fell into the window, in which the thread runs at low priority with SUSPENDED stored and without the
   mutex; otherwise a waiting tick means that it is being resumed.
   */
  lemma StrandedIffWindowTick(c: Config, acts: seq<Action>)
    requires c.Valid() && Exec(c, acts).at == Blocked
    ensures var s, ticks := Exec(c, acts), ExecLog(c, acts).ticks;
            && (Stranded(s) <==> ticks != [] && ticks[|ticks| - 1].inWindow)
            && (s.timingArrived ==> ticks != [] && (ticks[|ticks| - 1].inWindow || s.sched == SchedResuming))
            && (s.sched == SchedResuming ==> s.timingArrived)
  {
    hide Exec, ExecLog, QueueInv, TaskInv, JobInv;
    WindowAlways(c, acts);
    HandoffAlways(c, acts);
    InvAlways(c, acts);
  }

  function ThreadSteps(c: Config, s: State, n: nat): (r: State)
    requires Shape(c, s)
    ensures Shape(c, r)
    decreases n
  {
    if n == 0 then s else ThreadSteps(c, ThreadStep(c, s), n - 1)
  }

  /** A tick in the window strands the scheduler thread for good: without another tick it never runs again. */
  lemma {:induction false} WindowTickStrands(c: Config, s: State, table: nat, n: nat)
    requires Inv(c, s) && s.at == BeforeWait && TickEnabled(c, s, table) && n > 0
    ensures Stranded(ThreadSteps(c, TickStep(c, s, table), n))
  {
    var b := ThreadStep(c, TickStep(c, s, table));
    assert Stranded(b);
    StrandedForever(c, b, n - 1);
  }

  lemma {:induction false} StrandedForever(c: Config, s: State, n: nat)
    requires Shape(c, s) && Stranded(s)
    ensures ThreadSteps(c, s, n) == s
    decreases n
  {
    if n > 0 {
      StrandedForever(c, s, n - 1);
    }
  }

  /** A tick in the window is never handled: it stays pending until the next tick overwrites it. */
  lemma WindowTickNeverHandled(c: Config, acts: seq<Action>, j: nat)
    requires c.Valid() && j < |ExecLog(c, acts).ticks| && ExecLog(c, acts).ticks[j].inWindow
    ensures var s, ticks := Exec(c, acts), ExecLog(c, acts).ticks;
            if j + 1 < |ticks| then ticks[j + 1].overran
            else s.timingArrived && (s.at == BeforeWait || Stranded(s))
  {
    WindowAlways(c, acts);
  }

  /** When the loop suspends the scheduler, nothing is queued and no tick is waiting. */
  lemma SuspendedWithNothingWaiting(c: Config, acts: seq<Action>)
    requires c.Valid() && Exec(c, acts).at == LoopTop && ThreadStep(c, Exec(c, acts)).at == BeforeWait
    ensures var r := ThreadStep(c, Exec(c, acts));
            r.sched == SchedSuspended && r.queue == [] && !r.timingArrived && r.current == None
  {
    var s := Exec(c, acts);
    InvAlways(c, acts);
    LoopIterationInv(c, s);
    LoopIterationFrame(c, s);
  }
}
