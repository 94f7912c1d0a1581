/**
 struct scheduler on the heap: the methods of scheduler.c and table_scheduler.c, working on the
 linked ready queue, the task structures and the schedule tables, refine the steps of Protocol.
 */
module Schedulers {
  import opened Tasks
  import opened ExpiryPoints
  import opened QueueOrder
  import opened ReadyQueues
  import opened ScheduleTables
  import opened Protocol
  import opened ProtocolInvariant
  import opened RunLog
  import opened Jobs

  function PointsOfTables(tables: seq<ScheduleTable>): (r: seq<seq<ExpiryPoint>>)
    ensures |r| == |tables|
    ensures forall t :: 0 <= t < |tables| ==> r[t] == tables[t].eps
  {
    seq(|tables|, t requires 0 <= t < |tables| => tables[t].eps)
  }

  /** The state after a pick from the queue `q`. */
  ghost predicate Picked(s: State, q: seq<Task>) {
    !s.timingArrived &&
    if q == [] then Idle(s)
    else
      && s.current == Some(q[0]) && s.queue == q[1..]
      && q[0].id < |s.context| && s.at == Destination(s.context[q[0].id])
  }

  lemma QuietSteps(c: Config, s: State)
    requires Inv(c, s) && !s.timingArrived
    ensures Shape(c, s)
    ensures s.at == AtEntry ==> s.current.Some? && ThreadStep(c, s) == Entry(c, s)
    ensures s.at == Entering ==> s.current.Some? && ThreadStep(c, s) == FinishEntry(c, s)
    ensures s.at == Executing ==> s.current.Some? && ThreadStep(c, s) == Terminate(c, s)
  {
    hide QueueInv, TaskInv, JobInv;
  }

  lemma RunFacts(c: Config, s: State)
    requires Inv(c, s) && s.at in {AtEntry, Resumed, Returning} && !s.timingArrived
    ensures Shape(c, s) && s.current.Some? && s.current.value.id < |s.context|
    ensures var k := s.context[s.current.value.id]; var r := AfterRun(c, s, k);
            && s.at == Destination(k)
            && Inv(c, r) && r.at == LoopTop && r.queue == s.queue && !r.timingArrived
            && ContextChangedFor(s, r.context)
            && (s.at == AtEntry ==>
                  var e := Entry(c, s);
                  var f := if k == NeverRun then FinishEntry(c, e) else e;
                  e.at == (if k == NeverRun then Entering else Executing) && f.at == Executing && r == Terminate(c, f))
            && (s.at != AtEntry ==> r == ThreadStep(c, s))
  {
    hide QueueInv, TaskInv, JobInv, ThreadStep, Entry, FinishEntry, Terminate;
    var k := s.context[s.current.value.id];
    SwitchedRuns(c, s, k);
    if s.at == AtEntry {
      BeginsJob(c, s);
      QuietSteps(c, s);
      var e := ThreadStep(c, s);
      QuietSteps(c, e);
      if k == NeverRun {
        FinishesEntry(c, e);
        QuietSteps(c, ThreadStep(c, e));
      }
    }
  }

  lemma ExitsOnlyInLoop(c: Config, s: State, a: Action)
    requires Inv(c, s) && s.at != Exited
    ensures Shape(c, s)
    ensures Step(c, s, a).at == Exited ==> a == Thread && s.at == LoopTop
  {
    hide QueueInv, TaskInv, JobInv, LoopIteration;
    if s.at == Resumed {
      ResumeInv(c, s);
    }
  }

  lemma InitialFacts(c: Config)
    requires c.Valid()
    ensures Shape(c, Initial(c)) && Inv(c, Initial(c)) && Initial(c).at == BeforeWait && Exec(c, []) == Initial(c)
  {
    InitialInv(c);
  }

  lemma ExitStays(c: Config, s: State, a: Action)
    requires Shape(c, s) && s.at == Exited
    ensures Step(c, s, a) == s
  {
  }

  lemma {:induction false} ExitIsFinal(c: Config, acts: seq<Action>, i: nat)
    requires c.Valid() && i <= |acts| && Exec(c, acts[..i]).at == Exited
    ensures Exec(c, acts).at == Exited
    decreases |acts|
  {
    hide Step;
    if i == |acts| {
      assert acts[..i] == acts;
    } else {
      var n := |acts| - 1;
      assert acts[..n][..i] == acts[..i];
      ExitIsFinal(c, acts[..n], i);
      ExitStays(c, Exec(c, acts[..n]), acts[n]);
    }
  }

  /** How an epoch without further ticks ends. */
  datatype Outcome = Suspended | DeadlineExit | DeadContext

  /** Only the context of the current task of `s` may differ. */
  ghost predicate ContextChangedFor(s: State, context: seq<Context>) {
    && s.current.Some? && |context| == |s.context|
    && forall i :: 0 <= i < |context| && i != s.current.value.id ==> context[i] == s.context[i]
  }

  /** The tasks of `queue` still have the contexts of `k`. */
  ghost predicate Untouched(queue: seq<Task>, k: seq<Context>, context: seq<Context>) {
    |k| == |context| && forall x :: x in queue ==> x.id < |k| && context[x.id] == k[x.id]
  }

  /** `run` is the part of the queue up to and including the first task whose function has returned. */
  ghost predicate UpToFirstGone(queue: seq<Task>, k: seq<Context>, run: seq<Task>) {
    && 0 < |run| <= |queue| && run == queue[..|run|]
    && NoneGone(run[..|run| - 1], k)
    && run[|run| - 1].id < |k| && k[run[|run| - 1].id] == Gone
  }

  /** The view once the index of one table has moved on. */
  function SteppedView(c: Config, s: State, t: nat): (r: State)
    requires Shape(c, s) && t < |c.tables| == |s.nextEp| && |c.tables[t]| > 0
    ensures Shape(c, r)
  {
    s.(nextEp := s.nextEp[t := (s.nextEp[t] + 1) % |c.tables[t]|])
  }

  lemma LoopParts(c: Config, s: State)
    requires Shape(c, s)
    ensures Shape(c, Protocol.DisableTimingPreempt(s))
    ensures match Activate(c, Protocol.DisableTimingPreempt(s))
            case None => LoopIteration(c, s).at == Exited
            case Some(m) => LoopIteration(c, s) == Pick(c, m) && LoopIteration(c, s).at != Exited
  {
  }

  lemma QuietIteration(c: Config, s: State)
    requires Inv(c, s) && s.at == LoopTop && !s.timingArrived
    ensures Shape(c, s)
    ensures var r := LoopIteration(c, s);
            Inv(c, r) && r.at != Exited && Picked(r, s.queue) && r.context == s.context
  {
    LoopIterationInv(c, s);
    hide QueueInv, TaskInv, JobInv, LocationInv;
  }

  lemma FirstIteration(c: Config, s: State) returns (q: seq<Task>)
    requires Inv(c, s) && s.at == LoopTop
    ensures Shape(c, s)
    ensures LoopIteration(c, s).at == Exited <==> MissedDeadline(c, s)
    ensures var r := LoopIteration(c, s);
            r.at != Exited ==>
              Inv(c, r) && Picked(r, q) && IsActivatedQueue(c, s, q) && Untouched(q, s.context, r.context)
  {
    hide TaskInv, JobInv, LocationInv, NoneRunning, Activate, MissedDeadline, ActivatedQueue;
    LoopIterationInv(c, s);
    ActivateMid(c, s);
    q := if MissedDeadline(c, s) then [] else Activate(c, DisableTimingPreempt(s)).value.queue;
    if !MissedDeadline(c, s) {
      PickedFirst(c, Activate(c, DisableTimingPreempt(s)).value);
    }
  }

  lemma PickedFirst(c: Config, m: State)
    requires Shape(c, m) && !m.timingArrived
    ensures Picked(Pick(c, m), m.queue) && Pick(c, m).context == m.context
    ensures Untouched(m.queue, m.context, m.context)
  {
    assert m.queue != [] ==> m.queue[0] in m.queue;
  }

  lemma FoundGone(q: seq<Task>, k: seq<Context>, run: seq<Task>)
    requires 0 < |run| <= |q| && run == q[..|run|] && NoneGone(run[..|run| - 1], k)
    requires run[|run| - 1].id < |k| && k[run[|run| - 1].id] == Gone
    ensures UpToFirstGone(q, k, run) && !NoneGone(q, k)
  {
    assert q[|run| - 1] in q;
  }

  lemma NextNotGone(c: Config, s: State, rest: seq<Task>, k: seq<Context>)
    requires Shape(c, s) && rest != [] && Picked(s, rest) && Untouched(rest, k, s.context)
    ensures s.current == Some(rest[0]) && rest[0].id < |k| == |s.context| && k[rest[0].id] == s.context[rest[0].id]
    ensures s.context[rest[0].id] != Gone ==> s.at in {AtEntry, Resumed, Returning}
  {
    assert rest[0] in rest;
  }

  lemma ActivatedQueueIs(c: Config, s: State, q: seq<Task>)
    requires Shape(c, s) && IsActivatedQueue(c, s, q)
    ensures q == ActivatedQueue(c, s)
  {
  }

  /** Running the chosen task leaves the contexts of the tasks behind it alone. */
  lemma RestUntouched(c: Config, s: State, rest: seq<Task>, k: seq<Context>, context: seq<Context>)
    requires Inv(c, s) && !Stopped(s.at) && rest != [] && Picked(s, rest) && Untouched(rest, k, s.context)
    requires ContextChangedFor(s, context)
    ensures Untouched(rest[1..], k, context)
  {
    var x := rest[0];
    assert rest == [x] + s.queue;
    forall y | y in s.queue
      ensures y.id != x.id
    {
      assert c.IsTask(y) && c.IsTask(x) && x !in s.queue;
    }
  }

  class Scheduler {
    const tasks: seq<Node>
    const tables: seq<ScheduleTable>
    const readyQueue: ReadyQueue
    var state: SchedState
    var timingArrived: bool
    var currentTask: Node?
    var currentTableId: nat
    var context: seq<Context>
    var priority: int
    var preemptPending: bool
    var signalMasked: bool
    /** Where the scheduler thread stands, which in C is its program counter. */
    var at: Location
    /** The state of the step system that this heap stands for. */
    ghost var view: State

    ghost function Cfg(): Config {
      Config(TasksOf(tasks), PointsOfTables(tables))
    }

    ghost predicate FieldsOk()
      reads this
    {
      && Shape(Cfg(), view)
      && view.sched == state && view.timingArrived == timingArrived
      && view.current == (if currentTask == null then None else Some(currentTask.task))
      && (currentTask != null ==> currentTask in tasks)
      && view.context == context && view.currentTable == currentTableId
      && view.at == at && view.priority == priority
      && view.preemptPending == preemptPending && view.signalMasked == signalMasked
    }

    ghost predicate StatesOk(states: seq<TaskState>)
      reads tasks`taskState
    {
      |states| == |tasks| && forall i :: 0 <= i < |tasks| ==> tasks[i].taskState == states[i]
    }

    ghost predicate QueueOk(queue: seq<Task>, flags: seq<bool>)
      reads readyQueue, readyQueue.head`next, readyQueue.head`prev
      reads readyQueue.elems`next, readyQueue.elems`prev, readyQueue.elems`inReadyQueue, tasks`inReadyQueue
    {
      && readyQueue.Valid() && readyQueue.Contents() == queue
      && readyQueue.head !in tasks
      && (forall n :: n in readyQueue.elems ==> n in tasks)
      && |flags| == |tasks|
      && forall i :: 0 <= i < |tasks| ==>
           tasks[i].inReadyQueue == flags[i] == (tasks[i] in readyQueue.elems)
    }

    ghost predicate TablesOk(indices: seq<nat>)
      reads tables`nextEpIndex, tables`ticks
    {
      NoDuplicates(tables) && |indices| == |tables| &&
      forall t :: 0 <= t < |tables| ==> tables[t].Valid() && tables[t].nextEpIndex == indices[t]
    }

    /** The part of the heap behind the scheduler's own fields. */
    ghost predicate HeapOk(states: seq<TaskState>, queue: seq<Task>, flags: seq<bool>, indices: seq<nat>)
      reads readyQueue, readyQueue.head`next, readyQueue.head`prev
      reads readyQueue.elems`next, readyQueue.elems`prev, readyQueue.elems`inReadyQueue
      reads tasks`inReadyQueue, tasks`taskState, tables`nextEpIndex, tables`ticks
    {
      StatesOk(states) && QueueOk(queue, flags) && TablesOk(indices)
    }

    ghost predicate Valid()
      reads this, readyQueue, readyQueue.head`next, readyQueue.head`prev
      reads readyQueue.elems`next, readyQueue.elems`prev, readyQueue.elems`inReadyQueue
      reads tasks`inReadyQueue, tasks`taskState, tables`nextEpIndex, tables`ticks
    {
      FieldsOk() && HeapOk(view.taskState, view.queue, view.inReadyQueue, view.nextEp)
    }

    /** init_scheduler, on freshly loaded tasks and freshly built tables. */
    constructor (nodes: seq<Node>, tables: seq<ScheduleTable>)
      requires Config(TasksOf(nodes), PointsOfTables(tables)).Valid() && NoDuplicates(tables)
      requires forall n :: n in nodes ==> n.taskState == TaskInit && !n.inReadyQueue
      requires forall t :: 0 <= t < |tables| ==> tables[t].Valid() && tables[t].nextEpIndex == 0
      ensures Valid() && this.tasks == nodes && this.tables == tables && view == Initial(Cfg())
      ensures fresh(readyQueue) && fresh(readyQueue.head)
    {
      this.tasks := nodes;
      this.tables := tables;
      readyQueue := new ReadyQueue();
      state := SchedInit;
      timingArrived := false;
      currentTask := null;
      currentTableId := 0;
      context := seq(|nodes|, _ => NeverRun);
      at := BeforeWait;
      priority := SCHEDULER_PRIORITY;
      preemptPending := false;
      signalMasked := false;
      new;
      view := Initial(Cfg());
    }

    lemma NodeOf(n: Node)
      requires Shape(Cfg(), view) && n in tasks
      ensures n.task.id < |tasks| && tasks[n.task.id] == n && Cfg().IsTask(n.task)
    {
    }

    lemma TaskStateOfCurrent()
      requires Valid() && currentTask != null
      ensures Cfg().IsTask(currentTask.task) && currentTask.task.id < |view.taskState|
      ensures currentTask.taskState == view.taskState[currentTask.task.id]
    {
    }

    ghost predicate CurrentOk()
      reads this
    {
      && currentTask != null && currentTask in tasks && view.current == Some(currentTask.task)
      && currentTask.task.id < |tasks| == |context| == |view.context| == |view.taskState|
    }

    /** What Valid says about the scheduler's own fields at the points where there is a current task. */
    lemma CurrentNode()
      requires Valid() && (currentTask != null || at in {AtEntry, Entering, Executing, Resumed, Returning})
      ensures CurrentOk() && Shape(Cfg(), view)
      ensures view.at == at && view.sched == state && view.context == context
    {
    }

    lemma Distinct(k: nat)
      requires Shape(Cfg(), view) && k < |tasks|
      ensures forall i :: 0 <= i < |tasks| && i != k ==> tasks[i] != tasks[k]
    {
    }

    /** Writing one task's state touches nothing else. */
    method SetTaskState(node: Node, taskState: TaskState)
      requires Shape(Cfg(), view) && node in tasks
      requires HeapOk(view.taskState, view.queue, view.inReadyQueue, view.nextEp)
      modifies node`taskState
      ensures node.task.id < |tasks| == |view.taskState|
      ensures HeapOk(view.taskState[node.task.id := taskState], view.queue, view.inReadyQueue, view.nextEp)
    {
      hide QueueOk, TablesOk, Config.Valid;
      NodeOf(node);
      Distinct(node.task.id);
      node.taskState := taskState;
    }

    // ----- single writes, each with the same write to the view -----

    method StoreState(value: SchedState)
      requires Valid()
      modifies `state, `view
      ensures Valid() && view == old(view).(sched := value)
    {
      hide HeapOk, Cfg;
      state := value;
      view := view.(sched := value);
    }

    method DisableTimingPreempt()
      requires Valid()
      modifies `priority, `view
      ensures Valid() && view == Protocol.DisableTimingPreempt(old(view))
    {
      hide HeapOk, Cfg;
      priority := SCHEDULE_MAX_PRIORITY;
      view := Protocol.DisableTimingPreempt(view);
    }

    method EnableTimingPreempt()
      requires Valid()
      modifies `priority, `view
      ensures Valid() && view == Protocol.EnableTimingPreempt(old(view))
    {
      hide HeapOk, Cfg;
      priority := SCHEDULER_PRIORITY;
      view := Protocol.EnableTimingPreempt(view);
    }

    method StorePending(value: bool)
      requires Valid()
      modifies `preemptPending, `view
      ensures Valid() && view == old(view).(preemptPending := value)
    {
      hide HeapOk, Cfg;
      preemptPending := value;
      view := view.(preemptPending := value);
    }

    method StoreMask(value: bool)
      requires Valid()
      modifies `signalMasked, `view
      ensures Valid() && view == old(view).(signalMasked := value)
    {
      hide HeapOk, Cfg;
      signalMasked := value;
      view := view.(signalMasked := value);
    }

    method StoreTimingArrived(value: bool)
      requires Valid()
      modifies `timingArrived, `view
      ensures Valid() && view == old(view).(timingArrived := value)
    {
      hide HeapOk, Cfg;
      timingArrived := value;
      view := view.(timingArrived := value);
    }

    method MoveTo(value: Location)
      requires Valid() && (value in {AtEntry, Entering, Executing, Resumed, Returning} ==> currentTask != null)
      modifies `at, `view
      ensures Valid() && at == value && view == old(view).(at := value)
    {
      hide HeapOk, Cfg;
      at := value;
      view := view.(at := value);
    }

    /** Where the saved context of the current task will continue. */
    method SaveContext(value: Context)
      requires Valid() && currentTask != null
      modifies `context, `view
      ensures CurrentOk() && Valid()
      ensures view == old(view).(context := old(view).context[currentTask.task.id := value])
    {
      hide HeapOk, Config.Valid;
      CurrentNode();
      context := context[currentTask.task.id := value];
      view := view.(context := view.context[currentTask.task.id := value]);
    }

    method StoreTaskState(value: TaskState)
      requires Valid() && currentTask != null
      modifies `view, tasks`taskState
      ensures CurrentOk() && Valid()
      ensures view == old(view).(taskState := old(view).taskState[currentTask.task.id := value])
    {
      hide HeapOk, Config.Valid;
      CurrentNode();
      SetTaskState(currentTask, value);
      view := view.(taskState := view.taskState[currentTask.task.id := value]);
    }

    // ----- the steps of a task -----

    /** `entry` of the current task, up to the lowered priority in its first run and to its end in any other. */
    method EnterTask()
      requires Valid() && at == AtEntry
      modifies `state, `context, `priority, `preemptPending, `at, `view, tasks`taskState
      ensures Valid() && view == Entry(Cfg(), old(view))
    {
      hide Valid, Shape, Cfg;
      CurrentNode();
      var first := context[currentTask.task.id] == NeverRun;
      if first {
        StorePending(false);
      }
      StoreState(SchedWaiting);
      StoreTaskState(TaskRunning);
      EnableTimingPreempt();
      if first {
        SaveContext(InEntry);
        MoveTo(Entering);
      } else {
        SaveContext(InJob);
        MoveTo(Executing);
      }
    }

    /** The restored mask at the end of a first `entry`. */
    method FinishFirstEntry()
      requires Valid() && at == Entering
      modifies `context, `at, `view
      ensures Valid() && view == FinishEntry(Cfg(), old(view))
    {
      hide Valid, Shape, Cfg;
      CurrentNode();
      SaveContext(InJob);
      MoveTo(Executing);
    }

    /** `terminate` of the current task, up to the top of the loop. */
    method TerminateTask()
      requires Valid() && at in {Executing, Resumed}
      modifies `state, `context, `priority, `at, `view, tasks`taskState
      ensures Valid() && view == Terminate(Cfg(), old(view))
    {
      hide Valid, Shape, Cfg;
      CurrentNode();
      DisableTimingPreempt();
      StoreTaskState(TaskSuspended);
      StoreState(SchedRunning);
      SaveContext(EndOf(currentTask.task));
      EnableTimingPreempt();
      MoveTo(LoopTop);
    }

    /** The signal handler interrupt_task, up to the top of the loop. */
    method InterruptTask()
      requires Valid() && at in {Entering, Executing}
      modifies `state, `priority, `preemptPending, `signalMasked, `at, `view
      ensures Valid() && view == Interrupt(Cfg(), old(view))
    {
      hide Valid, Shape, Cfg;
      CurrentNode();
      StorePending(false);
      if state == SchedWaiting {
        DisableTimingPreempt();
        StoreMask(true);
        StoreState(SchedRunning);
        EnableTimingPreempt();
        MoveTo(LoopTop);
      }
    }

    /** The return out of interrupt_task, and the mask that the rest of a first `entry` restores. */
    method LeaveHandler()
      requires Valid() && at == Resumed
      modifies `preemptPending, `signalMasked, `view
      ensures view.current.Some? && Valid() && view == Unmask(Cfg(), old(view)) && at == Resumed
    {
      hide Valid, Shape, Cfg;
      CurrentNode();
      if context[currentTask.task.id] != InEntry {
        StoreMask(false);
      }
      StorePending(false);
    }

    /** The rest of a preempted task, from its return out of interrupt_task to the top of the loop. */
    method ResumeTask()
      requires Valid() && Inv(Cfg(), view) && at == Resumed
      modifies `state, `context, `priority, `preemptPending, `signalMasked, `at, `view, tasks`taskState
      ensures Valid() && view == ThreadStep(Cfg(), old(view))
    {
      hide Valid, Shape, Cfg, Inv, Unmask, Terminate;
      CurrentNode();
      ResumeInv(Cfg(), view);
      LeaveHandler();
      TerminateTask();
    }

    /** The return of a single-shot task's function through uc_link. */
    method ReturnTask()
      requires Valid() && at == Returning
      modifies `context, `priority, `at, `view
      ensures Valid() && view == ThreadStep(Cfg(), old(view))
    {
      hide Valid, Shape, Cfg;
      CurrentNode();
      SaveContext(Gone);
      EnableTimingPreempt();
      MoveTo(LoopTop);
    }

    /** scheduler_wait_resume up to the wait on the resume condition. */
    method BeginWait()
      requires Valid() && at == BeforeWait
      modifies `state, `at, `view
      ensures Valid() && view == ThreadStep(Cfg(), old(view))
    {
      hide HeapOk, Shape, Cfg;
      StoreState(SchedSuspended);
      MoveTo(Blocked);
    }

    /** The rest of scheduler_wait_resume, once resume_scheduler_thread has been called. */
    method EndWait()
      requires Valid() && at == Blocked && state == SchedResuming
      modifies `state, `at, `view
      ensures Valid() && view == ThreadStep(Cfg(), old(view))
    {
      hide HeapOk, Shape, Cfg;
      StoreState(SchedRunning);
      MoveTo(LoopTop);
    }

    // ----- the ready queue -----

    /** task_enqueue_check on the linked queue, seen from the task array. */
    method EnqueueNode(node: Node) returns (exits: bool)
      requires Shape(Cfg(), view) && node in tasks
      requires HeapOk(view.taskState, view.queue, view.inReadyQueue, view.nextEp)
      modifies readyQueue`elems, readyQueue.head`next, readyQueue.head`prev
      modifies tasks`next, tasks`prev, tasks`inReadyQueue
      ensures node.task.id < |view.inReadyQueue| && exits == view.inReadyQueue[node.task.id]
      ensures if exits then HeapOk(view.taskState, view.queue, view.inReadyQueue, view.nextEp)
              else HeapOk(view.taskState, Insert(view.queue, node.task),
                          view.inReadyQueue[node.task.id := true], view.nextEp)
    {
      hide StatesOk, TablesOk, ReadyQueue.Valid, Insert, Config.Valid;
      NodeOf(node);
      Distinct(node.task.id);
      assert forall i :: 0 <= i < |readyQueue.elems| ==> readyQueue.elems[i] in tasks;
      exits := readyQueue.EnqueueCheck(node);
    }

    method TaskEnqueueCheck(node: Node) returns (exits: bool)
      requires Valid() && node in tasks
      modifies `view, readyQueue`elems, readyQueue.head`next, readyQueue.head`prev
      modifies tasks`next, tasks`prev, tasks`inReadyQueue
      ensures Valid() && Cfg().IsTask(node.task)
      ensures exits <==> EnqueueCheck(Cfg(), old(view), node.task) == None
      ensures view == if exits then old(view) else EnqueueCheck(Cfg(), old(view), node.task).value
    {
      hide HeapOk, Insert, Shape, Cfg;
      NodeOf(node);
      exits := EnqueueNode(node);
      if !exits {
        view := EnqueueCheck(Cfg(), view, node.task).value;
      }
    }

    /** Make a task READY and enqueue it. */
    method ReadyAndEnqueue(node: Node) returns (exits: bool)
      requires Valid() && node in tasks
      modifies `view, readyQueue`elems, readyQueue.head`next, readyQueue.head`prev
      modifies tasks`next, tasks`prev, tasks`inReadyQueue, tasks`taskState
      ensures Valid() && Cfg().IsTask(node.task)
      ensures var r := EnqueueCheck(Cfg(), MarkTask(Cfg(), old(view), node.task, TaskReady), node.task);
              if exits then r == None && view == MarkTask(Cfg(), old(view), node.task, TaskReady) else r == Some(view)
    {
      hide HeapOk, EnqueueCheck, Shape;
      NodeOf(node);
      SetTaskState(node, TaskReady);
      view := MarkTask(Cfg(), view, node.task, TaskReady);
      exits := TaskEnqueueCheck(node);
    }

    lemma TableOf(t: nat)
      requires TablesOk(view.nextEp) && Shape(Cfg(), view) && t < |tables|
      ensures tables[t].nextEpIndex == view.nextEp[t] && tables[t].eps == Cfg().tables[t]
      ensures tables[t].numEps == |tables[t].eps| > 0
      ensures forall u :: 0 <= u < |tables| && u != t ==> tables[u] != tables[t]
    {
    }

    method CurrentPointTasks() returns (point: seq<Task>)
      requires Valid()
      ensures Shape(Cfg(), view) && point == CurrentPoint(Cfg(), view)
    {
      var table := tables[currentTableId];
      TableOf(currentTableId);
      var currentEpIndex := if table.nextEpIndex - 1 >= 0 then table.nextEpIndex - 1 else table.numEps - 1;
      point := table.eps[currentEpIndex].tasks;
    }

    /** table_scheduler_expiry_point_enqueue for the table whose timer expired last. */
    method ExpiryPointEnqueue() returns (exits: bool)
      requires Valid()
      modifies `view, readyQueue`elems, readyQueue.head`next, readyQueue.head`prev
      modifies tasks`next, tasks`prev, tasks`inReadyQueue, tasks`taskState
      ensures !exits ==> Valid()
      ensures exits <==> EnqueuePoint(Cfg(), old(view), CurrentPoint(Cfg(), old(view))) == None
      ensures !exits ==> Some(view) == EnqueuePoint(Cfg(), old(view), CurrentPoint(Cfg(), old(view)))
    {
      hide Valid, EnqueueCheck, Shape, Config.Valid, NoDuplicates;
      ghost var c := Cfg();
      var point := CurrentPointTasks();
      for j := 0 to |point|
        invariant Valid() && c.ValidPoint(point) && Shape(c, view)
        invariant EnqueuePoint(c, old(view), point) == EnqueuePoint(c, view, point[j..])
      {
        var x := point[j];
        assert point[j..][0] == x && point[j..][1..] == point[j + 1..];
        assert x in point && c.IsTask(x);
        assert tasks[x.id].task == c.tasks[x.id];
        exits := ReadyAndEnqueue(tasks[x.id]);
        if exits {
          return;
        }
      }
      exits := false;
    }

    /** The requeuing of a preempted task in scheduler_thread. */
    method RequeuePreempted() returns (exits: bool)
      requires Valid()
      modifies `view, readyQueue`elems, readyQueue.head`next, readyQueue.head`prev
      modifies tasks`next, tasks`prev, tasks`inReadyQueue, tasks`taskState
      ensures !exits ==> Valid()
      ensures exits <==> Requeue(Cfg(), old(view)) == None
      ensures !exits ==> Some(view) == Requeue(Cfg(), old(view))
    {
      hide HeapOk, EnqueueCheck, MarkTask, Shape;
      exits := false;
      if currentTask != null {
        TaskStateOfCurrent();
        if currentTask.taskState == TaskRunning {
          exits := ReadyAndEnqueue(currentTask);
        }
      }
    }

    /** The block of scheduler_thread under timing_arrived. */
    method ActivateTasks() returns (exits: bool)
      requires Valid()
      modifies `timingArrived, `view, readyQueue`elems, readyQueue.head`next, readyQueue.head`prev
      modifies tasks`next, tasks`prev, tasks`inReadyQueue, tasks`taskState
      ensures !exits ==> Valid()
      ensures exits <==> Activate(Cfg(), old(view)) == None
      ensures !exits ==> Some(view) == Activate(Cfg(), old(view))
    {
      hide HeapOk, EnqueuePoint, Requeue, Config.Valid;
      exits := false;
      if timingArrived {
        StoreTimingArrived(false);
        exits := ExpiryPointEnqueue();
        if !exits {
          exits := RequeuePreempted();
        }
      }
    }

    /** task_dequeue on the linked queue, seen from the task array. */
    method DequeueNode() returns (node: Node?)
      requires Shape(Cfg(), view)
      requires HeapOk(view.taskState, view.queue, view.inReadyQueue, view.nextEp)
      modifies readyQueue`elems, readyQueue.head`next, readyQueue.head`prev
      modifies tasks`next, tasks`prev, tasks`inReadyQueue
      ensures if view.queue == [] then
                node == null && HeapOk(view.taskState, view.queue, view.inReadyQueue, view.nextEp)
              else node != null && node in tasks &&
                   node.task == view.queue[0] && node.task.id < |view.inReadyQueue| &&
                   HeapOk(view.taskState, view.queue[1..], view.inReadyQueue[node.task.id := false], view.nextEp)
    {
      hide StatesOk, TablesOk, ReadyQueue.Valid, Config.Valid, Shape, TasksOf, Cfg;
      assert forall i :: 0 <= i < |readyQueue.elems| ==> readyQueue.elems[i] in tasks;
      ghost var before := readyQueue.elems;
      node := readyQueue.Dequeue();
      if node != null {
        NodeOf(node);
        Distinct(node.task.id);
        assert before == [node] + readyQueue.elems;
        assert readyQueue.Contents() == view.queue[1..];
      }
    }

    method DequeueTask() returns (node: Node?)
      requires Valid()
      modifies `view, readyQueue`elems, readyQueue.head`next, readyQueue.head`prev
      modifies tasks`next, tasks`prev, tasks`inReadyQueue
      ensures Valid()
      ensures if old(view).queue == [] then node == null && view == old(view)
              else node != null && node in tasks &&
                   node.task == old(view).queue[0] && view == TakeFirst(Cfg(), old(view))
    {
      hide HeapOk, Shape, Cfg;
      node := DequeueNode();
      if node != null {
        view := TakeFirst(Cfg(), view);
      }
    }

    method StoreCurrent(node: Node?)
      requires Valid() && at == LoopTop && (node != null ==> node in tasks)
      modifies `currentTask, `view
      ensures Valid() && currentTask == node
      ensures view == old(view).(current := if node == null then None else Some(node.task))
    {
      hide HeapOk;
      currentTask := node;
      view := view.(current := if node == null then None else Some(node.task));
    }

    /** pick_next_task and what the loop makes of its answer. */
    method PickNextTask()
      requires Valid() && at == LoopTop
      modifies `currentTask, `state, `priority, `at, `view
      modifies readyQueue`elems, readyQueue.head`next, readyQueue.head`prev
      modifies tasks`next, tasks`prev, tasks`inReadyQueue
      ensures Valid() && view == Pick(Cfg(), old(view))
    {
      hide Valid, Shape, Cfg;
      var node := DequeueTask();
      StoreCurrent(node);
      if currentTask == null {
        StoreState(SchedSuspended);
        EnableTimingPreempt();
        MoveTo(BeforeWait);
      } else {
        CurrentNode();
        MoveTo(Destination(context[currentTask.task.id]));
      }
    }

    /** One pass of the inner loop of scheduler_thread up to the switch to the chosen task. */
    method RunLoopIteration() returns (exits: bool)
      requires Valid() && at == LoopTop
      modifies `timingArrived, `currentTask, `state, `priority, `at, `view
      modifies readyQueue`elems, readyQueue.head`next, readyQueue.head`prev
      modifies tasks`next, tasks`prev, tasks`inReadyQueue, tasks`taskState
      ensures exits <==> LoopIteration(Cfg(), old(view)).at == Exited
      ensures !exits ==> Valid() && view == LoopIteration(Cfg(), old(view))
    {
      hide HeapOk, Activate, Pick, LoopIteration, Shape;
      LoopParts(Cfg(), view);
      DisableTimingPreempt();
      exits := ActivateTasks();
      if !exits {
        PickNextTask();
      }
    }

    /** A chosen task runs to its end, from where its saved context stands. */
    method RunTask()
      requires Valid() && Inv(Cfg(), view) && at in {AtEntry, Resumed, Returning} && !timingArrived
      modifies `state, `context, `priority, `preemptPending, `signalMasked, `at, `view, tasks`taskState
      ensures Valid() && Inv(Cfg(), view) && at == LoopTop
      ensures view.queue == old(view).queue && !view.timingArrived
      ensures ContextChangedFor(old(view), view.context)
    {
      hide Valid, Inv, Shape, Cfg, ThreadStep, Entry, FinishEntry, Terminate, AfterRun;
      CurrentNode();
      FieldFacts();
      RunFacts(Cfg(), view);
      if at == AtEntry {
        EnterTask();
        FieldFacts();
        if at == Entering {
          FinishFirstEntry();
          FieldFacts();
        }
        TerminateTask();
      } else if at == Resumed {
        ResumeTask();
      } else {
        ReturnTask();
      }
      FieldFacts();
    }

    /** The chosen task runs to its end and the loop picks the next one. */
    method NextInQueue()
      requires Valid() && Inv(Cfg(), view) && at in {AtEntry, Resumed, Returning} && !timingArrived
      modifies `timingArrived, `currentTask, `state, `context, `priority, `preemptPending, `signalMasked, `at, `view
      modifies readyQueue`elems, readyQueue.head`next, readyQueue.head`prev
      modifies tasks`next, tasks`prev, tasks`inReadyQueue, tasks`taskState
      ensures Valid() && Inv(Cfg(), view) && Picked(view, old(view).queue)
      ensures ContextChangedFor(old(view), view.context)
    {
      hide Valid, Inv, Shape, Cfg, LoopIteration, ContextChangedFor;
      RunTask();
      FieldFacts();
      QuietIteration(Cfg(), view);
      var exits := RunLoopIteration();
    }

    predicate CurrentIsGone()
      requires currentTask != null && currentTask.task.id < |context|
      reads `currentTask, `context
    {
      context[currentTask.task.id] == Gone
    }

    /**
     The inner loop of scheduler_thread from its first switch on. The test for a context whose function has
     returned is not in the source, which has no defined behaviour beyond it.
     */
    method RunPicked(ghost q: seq<Task>, ghost k: seq<Context>) returns (gone: bool, ghost dispatched: seq<Task>)
      requires Valid() && Inv(Cfg(), view) && Picked(view, q) && Untouched(q, k, view.context)
      modifies `timingArrived, `currentTask, `state, `context, `priority, `preemptPending, `signalMasked, `at, `view
      modifies readyQueue`elems, readyQueue.head`next, readyQueue.head`prev
      modifies tasks`next, tasks`prev, tasks`inReadyQueue, tasks`taskState
      ensures gone <==> !NoneGone(q, k)
      ensures gone ==> UpToFirstGone(q, k, dispatched)
      ensures !gone ==> Valid() && Idle(view) && dispatched == q
    {
      hide HeapOk, Inv, Shape, Cfg, LoopIteration, ContextChangedFor, UpToFirstGone, Untouched;
      ghost var c := Cfg();
      dispatched := [];
      while CurrentChosen()
        invariant c == Cfg() && Valid() && Inv(c, view)
        invariant |dispatched| <= |q| && dispatched == q[..|dispatched|] && Picked(view, q[|dispatched|..])
        invariant NoneGone(dispatched, k) && Untouched(q[|dispatched|..], k, view.context)
        decreases |q| - |dispatched|
      {
        ghost var rest := q[|dispatched|..];
        NextNotGone(c, view, rest, k);
        assert q[..|dispatched| + 1] == dispatched + [rest[0]];
        dispatched := dispatched + [view.current.value];
        if CurrentIsGone() {
          FoundGone(q, k, dispatched);
          return true, dispatched;
        }
        ghost var before := view;
        NextInQueue();
        RestUntouched(c, before, rest, k, view.context);
      }
      assert dispatched == q;
      gone := false;
    }

    /** The inner loop of scheduler_thread over one epoch in which no further tick arrives. */
    method RunEpoch() returns (outcome: Outcome, ghost dispatched: seq<Task>)
      requires Valid() && Inv(Cfg(), view) && view.at == LoopTop
      modifies `timingArrived, `currentTask, `state, `context, `priority, `preemptPending, `signalMasked, `at, `view
      modifies readyQueue`elems, readyQueue.head`next, readyQueue.head`prev
      modifies tasks`next, tasks`prev, tasks`inReadyQueue, tasks`taskState
      ensures Shape(Cfg(), old(view))
      ensures outcome == DeadlineExit <==> MissedDeadline(Cfg(), old(view))
      ensures outcome == Suspended <==>
              !MissedDeadline(Cfg(), old(view)) && NoneGone(ActivatedQueue(Cfg(), old(view)), old(view).context)
      ensures outcome == Suspended ==> Valid() && Idle(view) && IsActivatedQueue(Cfg(), old(view), dispatched)
      ensures outcome == DeadContext ==>
              UpToFirstGone(ActivatedQueue(Cfg(), old(view)), old(view).context, dispatched)
    {
      hide HeapOk, Inv, Shape, Cfg, IsActivatedQueue, MissedDeadline, LoopIteration, ActivatedQueue,
        UpToFirstGone, Untouched, Picked, Idle, NoneGone;
      ghost var q := FirstIteration(Cfg(), view);
      ghost var k := view.context;
      dispatched := [];
      var exits := RunLoopIteration();
      if exits {
        outcome := DeadlineExit;
      } else {
        ActivatedQueueIs(Cfg(), old(view), q);
        var gone;
        gone, dispatched := RunPicked(q, k);
        outcome := if gone then DeadContext else Suspended;
      }
    }

    predicate CurrentChosen()
      reads `currentTask
    {
      currentTask != null
    }

    /** table_scheuler_update_timer of one table. */
    method UpdateTable(t: nat)
      requires t < |tables| && Shape(Cfg(), view)
      requires HeapOk(view.taskState, view.queue, view.inReadyQueue, view.nextEp)
      modifies tables`nextEpIndex, tables`newTimer, tables`ticks
      ensures t < |Cfg().tables| == |view.nextEp| && |Cfg().tables[t]| > 0
      ensures HeapOk(view.taskState, view.queue, view.inReadyQueue,
                     view.nextEp[t := (view.nextEp[t] + 1) % |Cfg().tables[t]|])
      ensures forall u :: 0 <= u < |tables| && old(tables[u].Armed()) ==> tables[u].Armed()
      ensures forall u :: 0 <= u < |tables| && u != t ==> tables[u].newTimer == old(tables[u].newTimer)
      ensures forall u :: 0 <= u < |tables| ==> tables[u].ticks == old(tables[u].ticks) + if u == t then 1 else 0
    {
      hide StatesOk, QueueOk, Config.Valid, NoDuplicates, ScheduleTable.Valid, ScheduleTable.Armed;
      TableOf(t);
      tables[t].UpdateTimer();
    }

    method StoreTable(t: nat)
      requires Valid() && t < |tables|
      modifies `currentTableId, `view
      ensures Valid() && view == old(view).(currentTable := t)
    {
      hide HeapOk;
      currentTableId := t;
      view := view.(currentTable := t);
    }

    /** The part of process_tick that concerns the table whose timer has expired. */
    method StepTable(t: nat)
      requires Valid() && t < |tables|
      modifies `currentTableId, `view, tables`nextEpIndex, tables`newTimer, tables`ticks
      ensures Valid() && t < |Cfg().tables| == |old(view).nextEp| && |Cfg().tables[t]| > 0
      ensures view == old(view).(currentTable := t,
                nextEp := old(view).nextEp[t := (old(view).nextEp[t] + 1) % |Cfg().tables[t]|])
      ensures forall u :: 0 <= u < |tables| && old(tables[u].Armed()) ==> tables[u].Armed()
      ensures forall u :: 0 <= u < |tables| ==> tables[u].ticks == old(tables[u].ticks) + if u == t then 1 else 0
    {
      hide HeapOk, ScheduleTable.Armed, Shape, Cfg;
      StoreTable(t);
      FieldFacts();
      UpdateTable(t);
      ghost var stepped := SteppedView(Cfg(), view, t);
      view := stepped;
      assert FieldsOk();
    }

    /** The end of process_tick: note the tick, then resume the scheduler thread or preempt its task. */
    method SignalTick()
      requires Valid()
      modifies `timingArrived, `state, `preemptPending, `view
      ensures Valid()
      ensures var s := old(view);
              view == s.(timingArrived := true,
                         sched := if s.sched == SchedSuspended then SchedResuming else s.sched,
                         preemptPending := s.preemptPending || s.sched == SchedWaiting)
    {
      hide HeapOk, Shape, Cfg;
      StoreTimingArrived(true);
      if state == SchedSuspended {
        StoreState(SchedResuming);
      } else if state == SchedWaiting {
        StorePending(true);
      }
    }

    /** process_tick for one table. */
    method ProcessTick(t: nat)
      requires Valid() && t < |tables|
      modifies `currentTableId, `timingArrived, `state, `preemptPending, `view
      modifies tables`nextEpIndex, tables`newTimer, tables`ticks
      ensures Valid() && view == TickStep(Cfg(), old(view), t)
      ensures forall u :: 0 <= u < |tables| && old(tables[u].Armed()) ==> tables[u].Armed()
      ensures forall u :: 0 <= u < |tables| ==> tables[u].ticks == old(tables[u].ticks) + if u == t then 1 else 0
    {
      hide Valid, Shape, Cfg, ScheduleTable.Armed;
      StepTable(t);
      SignalTick();
    }

    // ----- whole runs -----

    lemma FieldFacts()
      requires Valid()
      ensures Shape(Cfg(), view) && |Cfg().tables| == |tables|
      ensures view.at == at && view.sched == state && view.timingArrived == timingArrived
      ensures view.priority == priority && view.preemptPending == preemptPending && view.signalMasked == signalMasked
    {
    }

    /** The next stretch of the scheduler thread, wherever it stands. */
    method StepThread() returns (exits: bool)
      requires Valid() && Inv(Cfg(), view)
      modifies `timingArrived, `currentTask, `state, `context, `priority, `preemptPending, `signalMasked, `at, `view
      modifies readyQueue`elems, readyQueue.head`next, readyQueue.head`prev
      modifies tasks`next, tasks`prev, tasks`inReadyQueue, tasks`taskState
      ensures Shape(Cfg(), old(view)) && old(view).at == old(at)
      ensures exits <==> old(at) == LoopTop && ThreadStep(Cfg(), old(view)).at == Exited
      ensures !exits ==> Valid() && view == ThreadStep(Cfg(), old(view))
    {
      hide Valid, Inv, Shape, Cfg, LoopIteration, Entry, FinishEntry, Terminate, Interrupt, Return, Resume;
      FieldFacts();
      exits := false;
      match at
      case BeforeWait => BeginWait();
      case Blocked =>
        if state == SchedResuming {
          EndWait();
        }
      case LoopTop => exits := RunLoopIteration();
      case AtEntry => EnterTask();
      case Entering =>
        if preemptPending {
          InterruptTask();
        } else {
          FinishFirstEntry();
        }
      case Executing =>
        if preemptPending && !signalMasked {
          InterruptTask();
        } else {
          TerminateTask();
        }
      case Resumed => ResumeTask();
      case Returning => ReturnTask();
      case _ =>
    }

    /** One action of the step system on the heap. */
    method Perform(a: Action) returns (exits: bool)
      requires Valid() && Inv(Cfg(), view) && at != Exited
      modifies `timingArrived, `currentTask, `state, `context, `priority, `preemptPending, `signalMasked, `at, `view
      modifies readyQueue`elems, readyQueue.head`next, readyQueue.head`prev
      modifies tasks`next, tasks`prev, tasks`inReadyQueue, tasks`taskState
      modifies `currentTableId, tables`nextEpIndex, tables`newTimer, tables`ticks
      ensures Shape(Cfg(), old(view))
      ensures exits <==> Step(Cfg(), old(view), a).at == Exited
      ensures !exits ==> Valid() && at != Exited && view == Step(Cfg(), old(view), a) && Inv(Cfg(), view)
      ensures forall u :: 0 <= u < |tables| && old(tables[u].Armed()) ==> tables[u].Armed()
      ensures forall u :: 0 <= u < |tables| ==>
                tables[u].ticks == old(tables[u].ticks) +
                  if a == Tick(u) && old(state) != SchedInit &&
                     old(at) in {BeforeWait, Blocked, LoopTop, Entering, Executing}
                  then 1 else 0
    {
      hide Valid, Inv, Shape, Cfg, ThreadStep, TickStep, ScheduleTable.Armed;
      FieldFacts();
      StepInv(Cfg(), view, a);
      ExitsOnlyInLoop(Cfg(), view, a);
      if a.Tick? && a.table < |tables| {
        TickEnabledIff(Cfg(), view, a.table);
      }
      exits := false;
      match a {
        case Thread => exits := StepThread();
        case Tick(t) =>
          if t < |tables| && priority < SCHEDULE_TIMING_PRIORITY && state != SchedInit && at != Undefined {
            ProcessTick(t);
          }
      }
      if !exits {
        FieldFacts();
      }
    }

    /** Any run on the heap: it ends in the state that the step system reaches, or in the exit that it takes. */
    method Run(acts: seq<Action>) returns (exits: bool)
      requires Valid() && Cfg().Valid() && view == Initial(Cfg())
      modifies `timingArrived, `currentTask, `state, `context, `priority, `preemptPending, `signalMasked, `at, `view
      modifies readyQueue`elems, readyQueue.head`next, readyQueue.head`prev
      modifies tasks`next, tasks`prev, tasks`inReadyQueue, tasks`taskState
      modifies `currentTableId, tables`nextEpIndex, tables`newTimer, tables`ticks
      ensures exits <==> Exec(Cfg(), acts).at == Exited
      ensures !exits ==> Valid() && view == Exec(Cfg(), acts)
      ensures forall u :: 0 <= u < |tables| && old(tables[u].Armed()) ==> tables[u].Armed()
    {
      hide Valid, Inv, Shape, Config.Valid, Cfg, Initial, Step, ScheduleTable.Armed;
      ghost var c := Cfg();
      InitialFacts(c);
      FieldFacts();
      for i := 0 to |acts|
        invariant c == Cfg() && Valid() && Inv(c, view) && at != Exited && view == Exec(c, acts[..i])
        invariant forall u :: 0 <= u < |tables| && old(tables[u].Armed()) ==> tables[u].Armed()
      {
        assert acts[..i + 1][..i] == acts[..i];
        exits := Perform(acts[i]);
        if exits {
          ExitIsFinal(c, acts, i + 1);
          return;
        }
      }
      assert acts[..|acts|] == acts;
      FieldFacts();
      exits := false;
    }
  }
}
