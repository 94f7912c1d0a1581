/**
 The three layers together: in every run in which the scheduler thread keeps up with the timer, a
 task of period p is activated at exactly the ticks whose time is a multiple of p, and each
 activation is accounted for by a job. The time base is that of the table's type: a round takes the
 duration on a periodic table, and ends at the last point on a single-shot one.
 */
module EndToEnd {
  import opened Tasks
  import opened Divisibility
  import opened UnrolledGcd
  import opened TableDuration
  import opened TaskGrouping
  import opened ExpiryPoints
  import opened PeriodicRelease
  import opened ScheduleTables
  import opened Protocol
  import opened ProtocolInvariant
  import opened RunLog
  import opened Jobs
  import opened ReadyQueues
  import opened Schedulers
  import opened TableSchedulerInit

  // ----- the numbering of ticks -----

  function TicksOfTable(ticks: seq<TickRecord>, t: nat): nat {
    if ticks == [] then 0
    else TicksOfTable(ticks[..|ticks| - 1], t) + One(ticks[|ticks| - 1].point.table == t)
  }

  /** The next point of each table is the number of its ticks modulo the number of its points. */
  ghost predicate NextNumbered(c: Config, nextEp: seq<nat>, ticks: seq<TickRecord>) {
    && |nextEp| == |c.tables| && (forall t :: 0 <= t < |c.tables| ==> |c.tables[t]| > 0)
    && forall t :: 0 <= t < |c.tables| ==> nextEp[t] == TicksOfTable(ticks, t) % |c.tables[t]|
  }

  /** The j-th tick, if it is the m-th of its table, stands for point m modulo the number of points. */
  predicate RecordNumbered(c: Config, ticks: seq<TickRecord>, j: nat)
    requires j < |ticks|
  {
    var p := ticks[j].point;
    p.table < |c.tables| && |c.tables[p.table]| > 0 &&
    p.ep == TicksOfTable(ticks[..j], p.table) % |c.tables[p.table]|
  }

  ghost predicate RecordsNumbered(c: Config, ticks: seq<TickRecord>) {
    forall j :: 0 <= j < |ticks| ==> RecordNumbered(c, ticks, j)
  }

  ghost predicate Numbered(c: Config, s: State, ticks: seq<TickRecord>) {
    NextNumbered(c, s.nextEp, ticks) && RecordsNumbered(c, ticks)
  }

  lemma TicksAppend(ticks: seq<TickRecord>, r: TickRecord, t: nat)
    ensures TicksOfTable(ticks + [r], t) == TicksOfTable(ticks, t) + One(r.point.table == t)
  {
    assert (ticks + [r])[..|ticks|] == ticks;
  }

  lemma RecordsAppend(c: Config, ticks: seq<TickRecord>, r: TickRecord)
    requires RecordsNumbered(c, ticks) && r.point.table < |c.tables| && |c.tables[r.point.table]| > 0
    requires r.point.ep == TicksOfTable(ticks, r.point.table) % |c.tables[r.point.table]|
    ensures RecordsNumbered(c, ticks + [r])
  {
    hide TicksOfTable;
    var after := ticks + [r];
    forall j | 0 <= j < |after|
      ensures RecordNumbered(c, after, j)
    {
      assert after[..j] == ticks[..j];
      if j < |ticks| {
        assert RecordNumbered(c, ticks, j);
      } else {
        assert ticks[..j] == ticks;
      }
    }
  }

  lemma NextAppend(c: Config, nextEp: seq<nat>, ticks: seq<TickRecord>, r: TickRecord)
    requires NextNumbered(c, nextEp, ticks) && r.point.table < |c.tables|
    ensures var t := r.point.table;
            NextNumbered(c, nextEp[t := (nextEp[t] + 1) % |c.tables[t]|], ticks + [r])
  {
    hide TicksOfTable;
    var table := r.point.table;
    NextIndex(|c.tables[table]|, TicksOfTable(ticks, table));
    forall t | 0 <= t < |c.tables|
      ensures TicksOfTable(ticks + [r], t) == TicksOfTable(ticks, t) + One(table == t)
    {
      TicksAppend(ticks, r, t);
    }
  }

  lemma TickTaken(c: Config, s: State, log: Log, table: nat)
    requires Shape(c, s) && LogShape(c, log) && table < |c.tables|
    ensures |s.nextEp| == |c.tables| && |c.tables[table]| > 0
    ensures TickStep(c, s, table).nextEp == s.nextEp[table := (s.nextEp[table] + 1) % |c.tables[table]|]
    ensures exists r ::
              LogTick(c, s, log, table).ticks == log.ticks + [r] && r.point == PointRef(table, s.nextEp[table])
  {
    var after := LogTick(c, s, log, table).ticks;
    assert after == log.ticks + [after[|log.ticks|]];
  }

  lemma NumberedTick(c: Config, s: State, log: Log, table: nat)
    requires Shape(c, s) && LogShape(c, log) && Numbered(c, s, log.ticks) && TickEnabled(c, s, table)
    ensures Numbered(c, TickStep(c, s, table), LogTick(c, s, log, table).ticks)
  {
    hide Shape, TickStep, LogTick, RecordsNumbered;
    TickTaken(c, s, log, table);
    var r :| LogTick(c, s, log, table).ticks == log.ticks + [r] && r.point == PointRef(table, s.nextEp[table]);
    NextAppend(c, s.nextEp, log.ticks, r);
    RecordsAppend(c, log.ticks, r);
  }

  lemma InitialNumbered(c: Config)
    requires c.Valid()
    ensures Numbered(c, Initial(c), [])
  {
    assert forall t :: 0 <= t < |c.tables| ==> 0 % |c.tables[t]| == 0;
  }

  lemma NumberedThread(c: Config, s: State, log: Log)
    requires Inv(c, s) && LogShape(c, log) && Numbered(c, s, log.ticks)
    ensures Numbered(c, ThreadStep(c, s), LogThread(c, s, log).ticks)
  {
    hide LoopIteration, QueueInv, TaskInv, JobInv, LocationInv, TicksOfTable, LogThread;
    if s.at == LoopTop {
      LoopIterationFrame(c, s);
    }
    assert ThreadStep(c, s).nextEp == s.nextEp;
  }

  lemma {:induction false} NumberedAlways(c: Config, acts: seq<Action>)
    requires c.Valid()
    ensures Numbered(c, Exec(c, acts), ExecLog(c, acts).ticks)
  {
    hide Numbered, ThreadStep, TickStep, LogThread, LogTick, Inv;
    if acts == [] {
      InitialNumbered(c);
    } else {
      var n := |acts| - 1;
      var s, log := Exec(c, acts[..n]), ExecLog(c, acts[..n]);
      NumberedAlways(c, acts[..n]);
      InvAlways(c, acts[..n]);
      match acts[n]
      case Thread => NumberedThread(c, s, log);
      case Tick(table) =>
        if TickEnabled(c, s, table) {
          NumberedTick(c, s, log, table);
        }
    }
  }

  /** The timer armed for the k-th tick holds the time of that tick exactly. */
  lemma TimerOfTick(ts: seq<Task>, d: nat, points: seq<ExpiryPoint>, start: TimeSpec, k: nat)
    requires IsTable(ts, d, points) && |points| > 0
    ensures var span := RoundSpan(ts, d, points);
            var t := TimerAfter(points, span, start, k);
            t.sec * 1_000_000_000 + t.nsec ==
            start.sec * 1_000_000_000 + start.nsec + 1_000_000 * TickTime(points, span, k)
  {
    var span := RoundSpan(ts, d, points);
    TimerDriftFree(points, span, start, k);
    TableHasPoints(ts, d, points);
    TickIndex(points, span, 0, 0);
  }

  /** The m-th tick of a table: the timer value it was armed with, and the task it stands for a release of. */
  ghost predicate TickOnSchedule(ts: seq<Task>, d: nat, points: seq<ExpiryPoint>, ep: nat, m: nat, x: Task)
    requires |points| > 0
  {
    var time := TickTime(points, RoundSpan(ts, d, points), m);
    && ep < |points|
    && (x in points[ep].tasks <==> Due(x, time))
    && forall start: TimeSpec ::
         TotalNs(TimerAfter(points, RoundSpan(ts, d, points), start, m)) == TotalNs(start) + MsToNs(time)
  }

  /**
   In every run, on every table on whose round the task's period fits: the m-th tick of the table stands
   for a release of the task if and only if the m-th tick time is a multiple of the period, and the timer
   armed for it holds that time.
   */
  lemma EveryTickIsPeriodic(c: Config, acts: seq<Action>, j: nat, ts: seq<Task>, d: nat, x: Task)
    requires c.Valid() && j < |ExecLog(c, acts).ticks|
    requires var t := ExecLog(c, acts).ticks[j].point.table;
             t < |c.tables| && IsTable(ts, d, c.tables[t]) && x in ts && Due(x, RoundSpan(ts, d, c.tables[t]))
    ensures var ticks := ExecLog(c, acts).ticks;
            var p := ticks[j].point;
            TickOnSchedule(ts, d, c.tables[p.table], p.ep, TicksOfTable(ticks[..j], p.table), x)
  {
    hide Exec, ExecLog;
    NumberedAlways(c, acts);
    var ticks := ExecLog(c, acts).ticks;
    assert RecordNumbered(c, ticks, j);
    var p := ticks[j].point;
    var points, m := c.tables[p.table], TicksOfTable(ticks[..j], p.table);
    ReleaseAtTick(ts, d, points, RoundSpan(ts, d, points), x, m);
    forall start: TimeSpec
      ensures TotalNs(TimerAfter(points, RoundSpan(ts, d, points), start, m)) ==
              TotalNs(start) + MsToNs(TickTime(points, RoundSpan(ts, d, points), m))
    {
      TimerOfTick(ts, d, points, start, m);
    }
  }

  // ----- activations -----

  /** How many of the enqueued points list `x`. */
  function CountListed(c: Config, refs: seq<PointRef>, x: Task): nat
    requires forall r :: r in refs ==> r.table < |c.tables| && r.ep < |c.tables[r.table]|
  {
    if refs == [] then 0
    else
      var n := |refs| - 1;
      assert refs[n] in refs;
      CountListed(c, refs[..n], x) + One(x in c.tables[refs[n].table][refs[n].ep].tasks)
  }

  ghost predicate RefsOk(c: Config, refs: seq<PointRef>) {
    forall r :: r in refs ==> r.table < |c.tables| && r.ep < |c.tables[r.table]|
  }

  ghost predicate ActivationsCounted(c: Config, log: Log)
    requires LogShape(c, log)
  {
    RefsOk(c, log.enqueued) &&
    forall i :: 0 <= i < |c.tasks| ==> log.activations[i] == CountListed(c, log.enqueued, c.tasks[i])
  }

  lemma CountedThread(c: Config, s: State, log: Log)
    requires Shape(c, s) && LogShape(c, log) && ActivationsCounted(c, log)
    ensures ActivationsCounted(c, LogThread(c, s, log))
  {
    hide LoopIteration, Shape, Config.Valid;
    var after := LogThread(c, s, log);
    if s.at == LoopTop && after != log {
      CurrentRefOk(c, s);
      assert after.enqueued[..|log.enqueued|] == log.enqueued;
    }
  }

  lemma CurrentRefOk(c: Config, s: State)
    requires Shape(c, s)
    ensures var ref := CurrentRef(c, s);
            && ref.table < |c.tables| && ref.ep < |c.tables[ref.table]|
            && CurrentPoint(c, s) == c.tables[ref.table][ref.ep].tasks
  {
  }

  lemma {:induction false} CountedAlways(c: Config, acts: seq<Action>)
    requires c.Valid()
    ensures ActivationsCounted(c, ExecLog(c, acts))
  {
    if acts != [] {
      var n := |acts| - 1;
      CountedAlways(c, acts[..n]);
      if acts[n] == Thread {
        CountedThread(c, Exec(c, acts[..n]), ExecLog(c, acts[..n]));
      }
    }
  }

  // ----- one table -----

  /** The system of one schedule table that holds all tasks. */
  function OneTable(tasks: seq<Task>, d: nat): Config
    requires PositivePeriods(tasks)
  {
    Config(tasks, [Points(tasks, d)])
  }

  lemma OneTableValid(tasks: seq<Task>, d: nat)
    requires ValidTasks(tasks) && tasks != [] && d > 0
    ensures PositivePeriods(tasks) && OneTable(tasks, d).Valid() && IsTable(tasks, d, Points(tasks, d))
  {
    var c := OneTable(tasks, d);
    PointsAreExpiryTable(tasks, d);
    FirstPoint(tasks, d, Points(tasks, d));
    forall e | 0 <= e < |c.tables[0]|
      ensures c.ValidPoint(c.tables[0][e].tasks)
    {
      var p := Points(tasks, d)[e];
      assert IsDueList(tasks, p.offset, p.tasks);
      forall x | x in p.tasks
        ensures c.IsTask(x)
      {
        var i :| 0 <= i < |tasks| && tasks[i] == x;
      }
    }
  }

  lemma {:induction false} SingleTableTicks(ticks: seq<TickRecord>)
    requires forall j :: 0 <= j < |ticks| ==> ticks[j].point.table == 0
    ensures TicksOfTable(ticks, 0) == |ticks|
  {
    if ticks != [] {
      SingleTableTicks(ticks[..|ticks| - 1]);
    }
  }

  /** With one table and no overrun, the k-th point enqueued is point k modulo the number of points. */
  lemma EnqueuedInTurn(c: Config, acts: seq<Action>, k: nat)
    requires c.Valid() && |c.tables| == 1 && Overruns(ExecLog(c, acts).ticks) == 0
    requires k < |ExecLog(c, acts).enqueued|
    ensures ExecLog(c, acts).enqueued[k] == PointRef(0, k % |c.tables[0]|)
  {
    hide Exec, ExecLog, Delivered, Overruns;
    var log := ExecLog(c, acts);
    ExactlyOnceHandoff(c, acts);
    NumberedAlways(c, acts);
    assert log.enqueued[k] == PointsOf(log.ticks)[k];
    assert RecordNumbered(c, log.ticks, k);
    forall j | 0 <= j < k
      ensures log.ticks[..k][j].point.table == 0
    {
      assert RecordNumbered(c, log.ticks, j);
    }
    SingleTableTicks(log.ticks[..k]);
  }

  lemma {:induction false} ListedIsReleases(c: Config, refs: seq<PointRef>, x: Task)
    requires c.Valid() && |c.tables| == 1 && RefsOk(c, refs)
    requires forall k :: 0 <= k < |refs| ==> refs[k] == PointRef(0, k % |c.tables[0]|)
    ensures CountListed(c, refs, x) == Releases(c.tables[0], x, |refs|)
  {
    if refs != [] {
      ListedIsReleases(c, refs[..|refs| - 1], x);
    }
  }

  /**
   The k-th hand-over is of an existing point, which lists `x` exactly when the k-th tick time is a
   multiple of its period.
   */
  ghost predicate ActivatedOnSchedule(points: seq<ExpiryPoint>, span: int, refs: seq<PointRef>, x: Task)
    requires |points| > 0
  {
    forall k :: 0 <= k < |refs| ==>
      refs[k].table == 0 && refs[k].ep < |points| &&
      (x in points[refs[k].ep].tasks <==> Due(x, TickTime(points, span, k)))
  }

  /** `time` is reached by `k` ticks and not by more. */
  predicate ReachedBy(points: seq<ExpiryPoint>, d: nat, k: nat, time: nat)
    requires |points| > 0
  {
    k > 0 && TickTime(points, d, k - 1) <= time < TickTime(points, d, k)
  }

  /** The activations of `x` by `k` hand-overs, in closed form. */
  ghost predicate CountOnSchedule(ts: seq<Task>, d: nat, points: seq<ExpiryPoint>, x: Task, k: nat, count: nat)
    requires |points| > 0 && x.period > 0
  {
    if IsPeriodicTable(ts) then
      forall time: nat :: ReachedBy(points, d, k, time) ==> count == time / x.period + 1
    else
      k > 0 ==> count == TickTime(points, RoundSpan(ts, d, points), k - 1) / x.period + 1 + (k - 1) / |points|
  }

  lemma ReleasesOnSchedule(ts: seq<Task>, d: nat, points: seq<ExpiryPoint>, x: Task, k: nat)
    requires IsTable(ts, d, points) && |points| > 0 && x in ts && Due(x, RoundSpan(ts, d, points))
    ensures CountOnSchedule(ts, d, points, x, k, Releases(points, x, k))
  {
    hide TickTime, IsTable, Releases;
    if IsPeriodicTable(ts) {
      forall time: nat | ReachedBy(points, d, k, time)
        ensures Releases(points, x, k) == time / x.period + 1
      {
        TickTimeNatural(ts, d, points, k - 1);
        ReleaseCount(ts, d, points, x, k - 1, time);
      }
    } else if k > 0 {
      RestartingReleaseCount(ts, d, points, RoundSpan(ts, d, points), x, k - 1);
    }
  }

  /** What the activations of task `i` became. */
  ghost function Accounted(c: Config, s: State, log: Log, i: nat): nat
    requires Shape(c, s) && LogShape(c, log) && i < |c.tasks|
  {
    log.entries[i] + log.merges[i] + log.lapses[i] + One(Fresh(c, s, i))
  }

  /**
   The main theorem. In every run of a one-table system in which no tick arrives while
   timing_arrived is still set, for every task on whose period the rounds of the table fit: the k-th
   hand-over activates the task if and only if the k-th tick time is a multiple of its period. On a
   periodic table it has been activated floor(T / p) + 1 times by any time T up to which the
   hand-overs reach; on a single-shot table once more for each time the table has started over.
   Each of these activations began a job of its own, is waiting to begin it, was merged into a job
   still open, or came after the only job of a single-shot task.
   */
  lemma PeriodicActivation(c: Config, d: nat, acts: seq<Action>, i: nat)
    requires c.Valid() && |c.tables| == 1 && IsTable(c.tasks, d, c.tables[0])
    requires i < |c.tasks| && Due(c.tasks[i], RoundSpan(c.tasks, d, c.tables[0]))
    requires Overruns(ExecLog(c, acts).ticks) == 0
    ensures var points, s, log, x := c.tables[0], Exec(c, acts), ExecLog(c, acts), c.tasks[i];
            && ActivatedOnSchedule(points, RoundSpan(c.tasks, d, points), log.enqueued, x)
            && CountOnSchedule(c.tasks, d, points, x, |log.enqueued|, Accounted(c, s, log, i))
            && (if x.taskType == BasicSingleShot then log.entries[i] <= 1 else log.lapses[i] == 0)
  {
    hide Exec, ExecLog, TickTime, Overruns, Delay;
    var points, refs, x := c.tables[0], ExecLog(c, acts).enqueued, c.tasks[i];
    CountedAlways(c, acts);
    JobConservation(c, acts);
    SingleShotRunsOnce(c, acts);
    forall k | 0 <= k < |refs|
      ensures refs[k] == PointRef(0, k % |points|)
      ensures x in points[refs[k].ep].tasks <==> Due(x, TickTime(points, RoundSpan(c.tasks, d, points), k))
    {
      EnqueuedInTurn(c, acts, k);
      ReleaseAtTick(c.tasks, d, points, RoundSpan(c.tasks, d, points), x, k);
    }
    ListedIsReleases(c, refs, x);
    ReleasesOnSchedule(c.tasks, d, points, x, |refs|);
  }

  // ----- which configurations meet the condition -----

  /** Over the least common multiple of its periods a table serves all its tasks if and only if it is periodic. */
  lemma ExactSpan(ts: seq<Task>, d: nat, points: seq<ExpiryPoint>)
    requires IsTable(ts, d, points) && |points| > 0 && IsLcm(d, Periods(ts))
    ensures (forall x :: x in ts ==> ReleasedPeriodically(points, RoundSpan(ts, d, points), x)) <==>
            IsPeriodicTable(ts)
    ensures IsPeriodicTable(ts) ==> forall x :: x in ts ==> Due(x, RoundSpan(ts, d, points))
  {
    hide ReleasedPeriodically, IsTable, RoundSpan;
    var span := RoundSpan(ts, d, points);
    RoundSpanBounds(ts, d, points);
    PeriodsDue(ts, span);
    PeriodsDue(ts, d);
    forall x | x in ts
      ensures ReleasedPeriodically(points, span, x) <==> span > 0 && Due(x, span)
    {
      ReleasedPeriodicallyIff(ts, d, points, x);
    }
    if IsPeriodicTable(ts) {
      PeriodicSpan(ts, d, points);
    }
    if !IsPeriodicTable(ts) && span > 0 && AllDivide(Periods(ts), span) {
      DividesAtMost(d, span);
      assert false;
    }
    FirstTask(ts, d, points);
  }

  lemma PeriodicSpan(ts: seq<Task>, d: nat, points: seq<ExpiryPoint>)
    requires |points| > 0 && IsPeriodicTable(ts)
    ensures RoundSpan(ts, d, points) == d
  {
  }

  lemma FirstTask(ts: seq<Task>, d: nat, points: seq<ExpiryPoint>)
    requires IsTable(ts, d, points)
    ensures ts != [] && ts[0] in ts && d > 0
  {
  }

  lemma PeriodsDue(ts: seq<Task>, span: int)
    requires span >= 0
    ensures (forall x :: x in ts ==> Due(x, span)) <==> AllDivide(Periods(ts), span)
  {
    PeriodsDivide(ts, span);
    assert forall x: Task :: Due(x, span) <==> Divides(x.period, span);
  }

  /**
   Over the duration that the source computes, while every step of its fold stays within eight
   divisions, a one-table system releases every task at exactly the multiples of its period if and only
   if its table is periodic; the main theorem then applies to every task.
   */
  lemma ComputedDurationServesAll(tasks: seq<Task>)
    requires ValidTasks(tasks) && tasks != []
    requires Positive(Periods(tasks)) && StepsExact(Periods(tasks))
    ensures PositivePeriods(tasks)
    ensures var d := Duration(Periods(tasks)); var c := OneTable(tasks, d);
            && c.Valid() && IsTable(c.tasks, d, c.tables[0]) && |c.tables[0]| > 0
            && ((forall x :: x in tasks ==> ReleasedPeriodically(c.tables[0], RoundSpan(tasks, d, c.tables[0]), x)) <==>
                tasks[0].taskType == BasicPeriodic)
            && (tasks[0].taskType == BasicPeriodic ==>
                  forall x :: x in tasks ==> Due(x, RoundSpan(tasks, d, c.tables[0])))
  {
    hide Duration, StepsExact, IsTable, IsLcm, Config.Valid, Points, RoundSpan, ReleasedPeriodically;
    var ps := Periods(tasks);
    OneTableValid(tasks, Duration(ps));
    DurationIsLcm(ps);
    TableHasPoints(tasks, Duration(ps), Points(tasks, Duration(ps)));
    ExactSpan(tasks, Duration(ps), Points(tasks, Duration(ps)));
  }

  /**
   The macro's range seen from the timer: when the periods before the last one fold exactly, the periodic
   table built over the computed duration releases every task periodically if and only if the last step of
   the fold stays within eight divisions.
   */
  lemma EightDivisionsDecide(tasks: seq<Task>, d: nat, points: seq<ExpiryPoint>)
    requires tasks != [] && tasks[0].taskType == BasicPeriodic && PositivePeriods(tasks)
    requires var ps := Periods(tasks);
             Positive(ps) && StepsExact(ps[..|ps| - 1]) && d == Duration(ps) && IsTable(tasks, d, points)
    ensures |points| > 0
    ensures (forall x :: x in tasks ==> ReleasedPeriodically(points, RoundSpan(tasks, d, points), x)) <==>
            WithinEightDivisions(Duration(Periods(tasks)[..|tasks| - 1]), tasks[|tasks| - 1].period)
  {
    hide ReleasedPeriodically, WithinEightDivisions, IsTable, Duration, StepsExact;
    var ps := Periods(tasks);
    var n := |ps| - 1;
    TableHasPoints(tasks, d, points);
    DurationIsLcm(ps[..n]);
    DurationStep(ps[..n], ps[n]);
    assert ps == ps[..n] + [ps[n]];
    forall x | x in tasks
      ensures ReleasedPeriodically(points, d, x) <==> Due(x, d)
    {
      ReleasedPeriodicallyIff(tasks, d, points, x);
      RoundSpanBounds(tasks, d, points);
    }
    PeriodsDue(tasks, d);
  }

  lemma PeriodsDivide(tasks: seq<Task>, d: nat)
    ensures AllDivide(Periods(tasks), d) <==> forall x :: x in tasks ==> Divides(x.period, d)
  {
    if forall x :: x in tasks ==> Divides(x.period, d) {
      assert forall i :: 0 <= i < |tasks| ==> tasks[i] in tasks;
    }
  }

  /**
   On every periodic table over a computed duration, exact or not, it is the smallest period alone that
   decides whether the single carry suffices and whether the delays fit a 32-bit int.
   */
  lemma SmallestPeriodDecides(tasks: seq<Task>, d: nat, points: seq<ExpiryPoint>)
    requires tasks != [] && tasks[0].taskType == BasicPeriodic
    requires Positive(Periods(tasks)) && d == Duration(Periods(tasks))
    requires IsTable(tasks, d, points)
    ensures |points| > 0
    ensures StaysNormalised(points, d) <==> SomePeriodAtMost(tasks, 1000)
    ensures (forall i :: 0 <= i < |points| ==> 0 <= 1_000_000 * Delay(points, d, i) < 0x8000_0000)
            <==> SomePeriodAtMost(tasks, 2147)
  {
    hide Duration, IsTable, Delay, StaysNormalised;
    DurationAtLeast(Periods(tasks), 0);
    assert tasks[0] in tasks && tasks[0].period <= d;
    PeriodsDecide(tasks, d, 1000);
    PeriodsDecide(tasks, d, 2147);
    StaysNormalisedIff(tasks, d, points);
    ArmedDelayFits(tasks, d, points);
  }

  // ----- down to the heap -----

  predicate OneTableOnly(tasks: seq<Task>) {
    forall i :: 0 <= i < |tasks| ==> tasks[i].tableId == 0
  }

  lemma {:induction false} AllInOneTable(tasks: seq<Task>)
    requires OneTableOnly(tasks)
    ensures TableTasks(tasks, 0) == tasks
  {
    if tasks != [] {
      AllInOneTable(tasks[..|tasks| - 1]);
    }
  }

  /** What initialisation builds from tasks of a single table meets the premises of the main theorem. */
  lemma CreatedMeetsPremises(tasks: seq<Task>, tables: seq<ScheduleTable>)
    requires ValidTasks(tasks) && tasks != [] && OneTableOnly(tasks) && IsTableCount(tasks, |tables|) && |tables| > 0
    requires forall t :: 0 <= t < |tables| ==> IsInitialTable(tasks, t, tables[t])
    ensures |tables| == 1 && Positive(Periods(tasks))
    ensures IsTable(tasks, Duration(Periods(tasks)), tables[0].eps)
    ensures tables[0].Valid() && tables[0].Span() == RoundSpan(tasks, Duration(Periods(tasks)), tables[0].eps)
  {
    AllInOneTable(tasks);
    PeriodsPositive(tasks, 0);
    hide TableTasks, IsTable, Duration;
    assert IsInitialTable(tasks, 0, tables[0]);
  }

  lemma OneTableContiguous(tasks: seq<Task>)
    requires OneTableOnly(tasks)
    ensures ContiguousTables(tasks)
  {
    AllInOneTable(tasks);
  }

  /** The conclusion of the main theorem for every task on whose period the rounds fit. */
  ghost predicate AllOnSchedule(c: Config, d: nat, acts: seq<Action>)
    requires c.Valid() && |c.tables| == 1 && IsTable(c.tasks, d, c.tables[0])
  {
    var points, s, log := c.tables[0], Exec(c, acts), ExecLog(c, acts);
    forall i :: 0 <= i < |c.tasks| && Due(c.tasks[i], RoundSpan(c.tasks, d, points)) ==>
      && ActivatedOnSchedule(points, RoundSpan(c.tasks, d, points), log.enqueued, c.tasks[i])
      && CountOnSchedule(c.tasks, d, points, c.tasks[i], |log.enqueued|, Accounted(c, s, log, i))
  }

  lemma AllTasksOnSchedule(c: Config, d: nat, acts: seq<Action>)
    requires c.Valid() && |c.tables| == 1 && IsTable(c.tasks, d, c.tables[0])
    requires Overruns(ExecLog(c, acts).ticks) == 0
    ensures AllOnSchedule(c, d, acts)
  {
    hide Exec, ExecLog, ActivatedOnSchedule, CountOnSchedule, Accounted, IsTable, Config.Valid;
    var points, s, log := c.tables[0], Exec(c, acts), ExecLog(c, acts);
    forall i | 0 <= i < |c.tasks| && Due(c.tasks[i], RoundSpan(c.tasks, d, points))
      ensures ActivatedOnSchedule(points, RoundSpan(c.tasks, d, points), log.enqueued, c.tasks[i])
      ensures CountOnSchedule(c.tasks, d, points, c.tasks[i], |log.enqueued|, Accounted(c, s, log, i))
    {
      PeriodicActivation(c, d, acts, i);
    }
  }

  /** The system that is created and started for tasks of one table meets the premises of the main theorem. */
  ghost predicate Started(scheduler: Scheduler, tasks: seq<Task>, now: TimeSpec)
    reads scheduler.tables
  {
    var c := scheduler.Cfg();
    && c.Valid() && c.tasks == tasks && |c.tables| == |scheduler.tables| == 1
    && Positive(Periods(tasks)) && IsTable(tasks, Duration(Periods(tasks)), c.tables[0])
    && scheduler.tables[0].Armed() && TotalNs(scheduler.tables[0].start) == TotalNs(now) + 1
  }

  method CreateAndStart(nodes: seq<Node>, now: TimeSpec) returns (scheduler: Scheduler)
    requires nodes != [] && ValidTasks(TasksOf(nodes)) && OneTableOnly(TasksOf(nodes))
    requires forall n :: n in nodes ==> n.taskState == TaskInit && !n.inReadyQueue
    ensures fresh(scheduler) && fresh(scheduler.readyQueue) && fresh(scheduler.readyQueue.head)
    ensures scheduler.tasks == nodes && forall t :: 0 <= t < |scheduler.tables| ==> fresh(scheduler.tables[t])
    ensures Started(scheduler, TasksOf(nodes), now)
    ensures scheduler.Valid() && scheduler.view == Initial(scheduler.Cfg())
  {
    hide IsTable, Duration, Config.Valid, Initial, Scheduler.HeapOk, ValidTasks, ContiguousTables, IsTableCount;
    OneTableContiguous(TasksOf(nodes));
    scheduler := CreateScheduler(nodes);
    CreatedMeetsPremises(TasksOf(nodes), scheduler.tables);
    StartTables(scheduler.tables, [now]);
  }

  /**
   All layers on the heap: create the scheduler for tasks of one table, start its timer, and perform any
   run. Unless it exits on a missed deadline, the heap stands for the state that the run reaches, the timer
   holds the time of the coming tick exactly, and without overruns every task is activated on schedule.
   */
  method RunOneTable(nodes: seq<Node>, now: TimeSpec, acts: seq<Action>) returns (scheduler: Scheduler, exits: bool)
    requires nodes != [] && ValidTasks(TasksOf(nodes)) && OneTableOnly(TasksOf(nodes))
    requires forall n :: n in nodes ==> n.taskState == TaskInit && !n.inReadyQueue
    modifies nodes
    ensures Started(scheduler, TasksOf(nodes), now)
    ensures var c := scheduler.Cfg();
            && (exits <==> Exec(c, acts).at == Exited)
            && (!exits ==> scheduler.Valid() && scheduler.view == Exec(c, acts))
            && (Overruns(ExecLog(c, acts).ticks) == 0 ==> AllOnSchedule(c, Duration(Periods(c.tasks)), acts))
    ensures var table := scheduler.tables[0];
            && |table.eps| > 0
            && table.newTimer.sec * 1_000_000_000 + table.newTimer.nsec ==
               now.sec * 1_000_000_000 + now.nsec + 1 + 1_000_000 * TickTime(table.eps, table.Span(), table.ticks)
  {
    hide AllOnSchedule, Exec, ExecLog, Overruns, IsTable, Duration, Config.Valid, Initial, Scheduler.Valid,
      ScheduleTable.Valid, ScheduleTable.Armed, ValidTasks, TickTime;
    scheduler := CreateAndStart(nodes, now);
    exits := scheduler.Run(acts);
    TimerFacts(scheduler.tables[0]);
    if Overruns(ExecLog(scheduler.Cfg(), acts).ticks) == 0 {
      AllTasksOnSchedule(scheduler.Cfg(), Duration(Periods(TasksOf(nodes))), acts);
    }
  }

  lemma TimerFacts(table: ScheduleTable)
    requires table.Armed()
    ensures |table.eps| > 0
    ensures table.newTimer.sec * 1_000_000_000 + table.newTimer.nsec ==
            TotalNs(table.start) + 1_000_000 * TickTime(table.eps, table.Span(), table.ticks)
  {
    table.ArmedIsDriftFree();
  }
}
