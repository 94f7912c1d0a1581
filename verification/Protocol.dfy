/**
 The scheduler thread and the timing thread of one CPU as a step system. A thread step is the
 stretch of scheduler.c between two points at which the timing thread can run; a tick is one
 complete process_tick.
 */
module Protocol {
  import opened Tasks
  import opened ExpiryPoints
  import opened QueueOrder

  const SCHEDULE_MAX_PRIORITY := 99
  const SCHEDULE_TIMING_PRIORITY := 90
  const SCHEDULER_PRIORITY := 50

  datatype SchedState = SchedInit | SchedSuspended | SchedResuming | SchedRunning | SchedWaiting

  /** Where the scheduler thread stands. */
  datatype Location =
    | BeforeWait // about to enter scheduler_wait_resume
    | Blocked    // on the resume condition
    | LoopTop    // about to disable timing preemption
    | AtEntry    // switched to a task that is about to run `entry`
    | Entering   // in the first `entry` of a task, with the priority lowered and the mask not yet restored
    | Executing  // in the task's own function, preemptible
    | Resumed    // back inside interrupt_task of a task that had been preempted
    | Returning  // behind the last statement of a single-shot task's function
    | Exited     // exit(-1) on a missed deadline
    | Undefined  // switched to a context whose function has returned, which C gives no meaning to

  /** Where a task's saved context will continue. */
  datatype Context =
    | NeverRun // at the first call of `entry`, with the mask of initialisation, which blocks nothing
    | AtStart  // at a later call of `entry`, with the mask of `terminate`, which blocks the preempt signal
    | InEntry  // in the first `entry`, before the mask is restored
    | InJob    // in the task's own function
    | AtEnd    // behind the one `terminate` of a single-shot task
    | Gone     // nowhere: the function has returned

  /** Switching to the context begins a job. */
  predicate Unbegun(k: Context) { k == NeverRun || k == AtStart }

  /** The context lies inside a job. */
  predicate Open(k: Context) { k == InEntry || k == InJob }

  /** The fixed task array and, per schedule table, its expiry points. */
  datatype Config = Config(tasks: seq<Task>, tables: seq<seq<ExpiryPoint>>) {
    predicate IsTask(x: Task) {
      x.id < |tasks| && tasks[x.id] == x
    }

    ghost predicate Valid() {
      && (forall i :: 0 <= i < |tasks| ==> tasks[i].id == i)
      && |tables| > 0
      && (forall t :: 0 <= t < |tables| ==> |tables[t]| > 0)
      && (forall t, e :: 0 <= t < |tables| && 0 <= e < |tables[t]| ==> ValidPoint(tables[t][e].tasks))
    }

    ghost predicate ValidPoint(ts: seq<Task>) {
      NoDuplicates(ts) && forall x :: x in ts ==> IsTask(x)
    }
  }

  /** The mutable fields of struct scheduler, struct table_scheduler, the tasks and the saved contexts. */
  datatype State = State(
    sched: SchedState,
    timingArrived: bool,
    current: Option<Task>,
    queue: seq<Task>,
    taskState: seq<TaskState>,
    inReadyQueue: seq<bool>,
    context: seq<Context>,
    nextEp: seq<nat>,
    currentTable: nat,
    priority: int,
    preemptPending: bool, // the preempt signal has been sent and not delivered
    signalMasked: bool,   // prev_set, the mask that enabling preemption restores, blocks that signal
    at: Location
  )

  /** Array sizes and references that the C types and the control flow guarantee. */
  ghost predicate Shape(c: Config, s: State) {
    && c.Valid()
    && |s.taskState| == |s.inReadyQueue| == |s.context| == |c.tasks|
    && |s.nextEp| == |c.tables| && s.currentTable < |c.tables|
    && (forall t :: 0 <= t < |s.nextEp| ==> s.nextEp[t] < |c.tables[t]|)
    && (forall x :: x in s.queue ==> c.IsTask(x))
    && (s.current.Some? ==> c.IsTask(s.current.value))
    && (s.at in {AtEntry, Entering, Executing, Resumed, Returning} ==> s.current.Some?)
  }

  function Initial(c: Config): (s: State)
    requires c.Valid()
    ensures Shape(c, s)
  {
    State(
      SchedInit, false, None, [],
      seq(|c.tasks|, _ => TaskInit), seq(|c.tasks|, _ => false), seq(|c.tasks|, _ => NeverRun),
      seq(|c.tables|, _ => 0), 0, SCHEDULER_PRIORITY, false, false, BeforeWait)
  }

  function DisableTimingPreempt(s: State): State { s.(priority := SCHEDULE_MAX_PRIORITY) }

  function EnableTimingPreempt(s: State): State { s.(priority := SCHEDULER_PRIORITY) }

  /** The index of the expiry point that the last update of the timer left behind. */
  function CurrentEp(c: Config, s: State): (e: nat)
    requires Shape(c, s)
    ensures e < |c.tables[s.currentTable]|
  {
    var next := s.nextEp[s.currentTable];
    if next - 1 >= 0 then next - 1 else |c.tables[s.currentTable]| - 1
  }

  function CurrentPoint(c: Config, s: State): (ts: seq<Task>)
    requires Shape(c, s)
    ensures c.ValidPoint(ts)
  {
    c.tables[s.currentTable][CurrentEp(c, s)].tasks
  }

  /** task_enqueue_check; None is the exit. */
  function EnqueueCheck(c: Config, s: State, x: Task): (r: Option<State>)
    requires Shape(c, s) && c.IsTask(x)
    ensures r.Some? ==> Shape(c, r.value)
  {
    if s.inReadyQueue[x.id] then None
    else
      InsertMembers(s.queue, x);
      Some(s.(inReadyQueue := s.inReadyQueue[x.id := true], queue := Insert(s.queue, x)))
  }

  function MarkTask(c: Config, s: State, x: Task, state: TaskState): (r: State)
    requires Shape(c, s) && c.IsTask(x)
    ensures Shape(c, r)
  {
    s.(taskState := s.taskState[x.id := state])
  }

  /** table_scheduler_expiry_point_enqueue over the tasks of one point. */
  function EnqueuePoint(c: Config, s: State, ts: seq<Task>): (r: Option<State>)
    requires Shape(c, s) && forall x :: x in ts ==> c.IsTask(x)
    ensures r.Some? ==> Shape(c, r.value)
    decreases |ts|
  {
    if ts == [] then Some(s)
    else
      assert ts[0] in ts && c.IsTask(ts[0]);
      match EnqueueCheck(c, MarkTask(c, s, ts[0], TaskReady), ts[0])
      case None => None
      case Some(s') => EnqueuePoint(c, s', ts[1..])
  }

  /** The re-queuing of a task that was preempted while running. */
  function Requeue(c: Config, s: State): (r: Option<State>)
    requires Shape(c, s)
    ensures r.Some? ==> Shape(c, r.value)
  {
    if s.current.Some? && s.taskState[s.current.value.id] == TaskRunning then
      EnqueueCheck(c, MarkTask(c, s, s.current.value, TaskReady), s.current.value)
    else Some(s)
  }

  /** Everything the loop does when timing_arrived was set. */
  function Activate(c: Config, s: State): (r: Option<State>)
    requires Shape(c, s)
    ensures r.Some? ==> Shape(c, r.value)
  {
    if !s.timingArrived then Some(s)
    else
      match EnqueuePoint(c, s.(timingArrived := false), CurrentPoint(c, s))
      case None => None
      case Some(s') => Requeue(c, s')
  }

  /** task_dequeue of a queue that is not empty. */
  function TakeFirst(c: Config, s: State): (r: State)
    requires Shape(c, s) && s.queue != []
    ensures Shape(c, r) && c.IsTask(s.queue[0])
  {
    assert s.queue[0] in s.queue;
    s.(queue := s.queue[1..], inReadyQueue := s.inReadyQueue[s.queue[0].id := false])
  }

  /** Where the scheduler thread is after switching to a saved context. */
  function Destination(k: Context): Location {
    match k
    case NeverRun => AtEntry
    case AtStart => AtEntry
    case InEntry => Resumed
    case InJob => Resumed
    case AtEnd => Returning
    case Gone => Undefined
  }

  /** pick_next_task, then switch_to or the end of the epoch. */
  function Pick(c: Config, s: State): (r: State)
    requires Shape(c, s)
    ensures Shape(c, r)
  {
    if s.queue == [] then
      EnableTimingPreempt(s.(current := None, sched := SchedSuspended, at := BeforeWait))
    else
      var x := s.queue[0];
      TakeFirst(c, s).(current := Some(x), at := Destination(s.context[x.id]))
  }

  /** One pass of the inner loop of scheduler_thread up to the switch. */
  function LoopIteration(c: Config, s: State): (r: State)
    requires Shape(c, s)
    ensures Shape(c, r)
  {
    match Activate(c, DisableTimingPreempt(s))
    case None => s.(at := Exited)
    case Some(s') => Pick(c, s')
  }

  /**
   `entry` up to the lowering of the priority, which on a later call also covers the restored mask: there
   the preempt signal has been blocked until then. Switching to a context that has never run unblocks the
   signal at once; one that was pending finds the scheduler RUNNING and is ignored.
   */
  function Entry(c: Config, s: State): (r: State)
    requires Shape(c, s) && s.current.Some?
    ensures Shape(c, r)
  {
    var i := s.current.value.id;
    var s' := EnableTimingPreempt(s.(sched := SchedWaiting, taskState := s.taskState[i := TaskRunning]));
    if s.context[i] == NeverRun then
      s'.(context := s.context[i := InEntry], preemptPending := false, at := Entering)
    else
      s'.(context := s.context[i := InJob], at := Executing)
  }

  /** The restored mask at the end of a first `entry`. */
  function FinishEntry(c: Config, s: State): (r: State)
    requires Shape(c, s) && s.current.Some?
    ensures Shape(c, r)
  {
    s.(context := s.context[s.current.value.id := InJob], at := Executing)
  }

  /** What `terminate` saves: a periodic task loops back to `entry`, a single-shot task's function ends. */
  function EndOf(x: Task): Context {
    if x.taskType == BasicPeriodic then AtStart else AtEnd
  }

  /** terminate, and the way back through switch_to to the top of the loop. */
  function Terminate(c: Config, s: State): (r: State)
    requires Shape(c, s) && s.current.Some?
    ensures Shape(c, r)
  {
    var i := s.current.value.id;
    EnableTimingPreempt(DisableTimingPreempt(s).(
      taskState := s.taskState[i := TaskSuspended], context := s.context[i := EndOf(s.current.value)],
      sched := SchedRunning, at := LoopTop))
  }

  /**
   The signal handler, and the way back through switch_to to the top of the loop. The signal is
   blocked while its handler runs, so this is the mask that disabling preemption there records.
   */
  function Interrupt(c: Config, s: State): (r: State)
    requires Shape(c, s)
    ensures Shape(c, r)
  {
    var s' := s.(preemptPending := false);
    if s.sched == SchedWaiting then
      EnableTimingPreempt(DisableTimingPreempt(s').(signalMasked := true, sched := SchedRunning, at := LoopTop))
    else s'
  }

  /** The preempt signal reaches the running task. */
  predicate Interrupted(s: State) {
    s.preemptPending && (s.at == Entering || !s.signalMasked)
  }

  /**
   The handler of a preempted task returns, which unblocks the signal; one that was pending has been
   ignored. A task that was preempted in its first `entry` then restores whatever prev_set holds by now.
   */
  function Unmask(c: Config, s: State): (r: State)
    requires Shape(c, s) && s.current.Some?
    ensures Shape(c, r) && r.current == s.current
  {
    s.(signalMasked := s.signalMasked && s.context[s.current.value.id] == InEntry, preemptPending := false)
  }

  /** A preempted task goes on behind its handler and runs to its end. */
  function Resume(c: Config, s: State): (r: State)
    requires Shape(c, s) && s.current.Some?
    ensures Shape(c, r)
  {
    if s.preemptPending && s.sched == SchedWaiting then Interrupt(c, s)
    else Terminate(c, Unmask(c, s))
  }

  /** The function of a single-shot task returns to the scheduler context through uc_link. */
  function Return(c: Config, s: State): (r: State)
    requires Shape(c, s) && s.current.Some?
    ensures Shape(c, r)
  {
    EnableTimingPreempt(s.(context := s.context[s.current.value.id := Gone], at := LoopTop))
  }

  /** The scheduler thread takes no further step. */
  predicate Stopped(at: Location) { at == Exited || at == Undefined }

  predicate ThreadEnabled(s: State) {
    !Stopped(s.at) && (s.at == Blocked ==> s.sched == SchedResuming)
  }

  /** The next stretch of the scheduler thread, which is deterministic. */
  function ThreadStep(c: Config, s: State): (r: State)
    requires Shape(c, s)
    ensures Shape(c, r)
  {
    match s.at
    case BeforeWait => s.(sched := SchedSuspended, at := Blocked)
    case Blocked => if s.sched == SchedResuming then s.(sched := SchedRunning, at := LoopTop) else s
    case LoopTop => LoopIteration(c, s)
    case AtEntry => Entry(c, s)
    case Entering => if Interrupted(s) then Interrupt(c, s) else FinishEntry(c, s)
    case Executing => if Interrupted(s) then Interrupt(c, s) else Terminate(c, s)
    case Resumed => Resume(c, s)
    case Returning => Return(c, s)
    case _ => s
  }

  /** The timers run once initialisation is over, and the timing thread needs the CPU. */
  predicate TickEnabled(c: Config, s: State, table: nat) {
    table < |c.tables| && s.priority < SCHEDULE_TIMING_PRIORITY && s.sched != SchedInit && !Stopped(s.at)
  }

  /** process_tick for one table. */
  function TickStep(c: Config, s: State, table: nat): (r: State)
    requires Shape(c, s) && table < |c.tables|
    ensures Shape(c, r)
  {
    s.(nextEp := s.nextEp[table := (s.nextEp[table] + 1) % |c.tables[table]|],
       currentTable := table,
       timingArrived := true,
       sched := if s.sched == SchedSuspended then SchedResuming else s.sched,
       preemptPending := s.preemptPending || s.sched == SchedWaiting)
  }

  datatype Action = Thread | Tick(table: nat)

  /** Actions that are not enabled leave the state alone. */
  function Step(c: Config, s: State, a: Action): (r: State)
    requires Shape(c, s)
    ensures Shape(c, r)
  {
    match a
    case Thread => ThreadStep(c, s)
    case Tick(table) => if TickEnabled(c, s, table) then TickStep(c, s, table) else s
  }

  /** The state after a run; every interleaving of the two threads is such a run. */
  function Exec(c: Config, acts: seq<Action>): (s: State)
    requires c.Valid()
    ensures Shape(c, s)
  {
    if acts == [] then Initial(c)
    else Step(c, Exec(c, acts[..|acts| - 1]), acts[|acts| - 1])
  }
}
