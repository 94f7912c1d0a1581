/** table_scheduler_init as a whole, and table_scheduler_create up to the start of the threads. */
module TableSchedulerInit {
  import opened Tasks
  import opened TaskGrouping
  import opened ExpiryPoints
  import opened PeriodicRelease
  import opened ReadyQueues
  import opened ScheduleTables
  import opened Protocol
  import opened Schedulers

  /** The source's demand that table ids be contiguous: no table below the highest is empty. */
  predicate ContiguousTables(tasks: seq<Task>) {
    forall i, t :: 0 <= i < |tasks| && 0 <= t <= tasks[i].tableId ==> TableTasks(tasks, t) != []
  }

  /** What initialisation makes of table `t`. */
  ghost predicate IsInitialTable(tasks: seq<Task>, t: nat, table: ScheduleTable)
    requires ValidTasks(tasks)
    reads table
  {
    && PositivePeriods(TableTasks(tasks, t))
    && table.Valid() && table.nextEpIndex == 0 && table.ticks == 0
    && table.duration == DurationOf(tasks, t)
    && TableTasks(tasks, t) != []
    && (table.tableType == Periodic <==> TableTasks(tasks, t)[0].taskType == BasicPeriodic)
    && IsTable(TableTasks(tasks, t), DurationOf(tasks, t), table.eps)
  }

  lemma TableTasksReady(tasks: seq<Task>, t: nat)
    requires ValidTasks(tasks)
    ensures PositivePeriods(TableTasks(tasks, t)) && AscendingIds(TableTasks(tasks, t))
  {
    TableTasksPartition(tasks, t);
    var ts := TableTasks(tasks, t);
    forall i | 0 <= i < |ts|
      ensures ts[i].period > 0
    {
      assert ts[i] in tasks;
    }
  }

  method RowTasks(tasks: seq<Task>, row: nat, taskNum: array<nat>, taskArray: array2<Task>,
        ghost duration: array<nat>)
    returns (ts: seq<Task>)
    requires ValidTasks(tasks) && row < taskNum.Length && Grouped(tasks, taskNum.Length, duration, taskNum, taskArray)
    ensures ts == TableTasks(tasks, row)
  {
    hide TableTasks, DurationOf;
    ts := [];
    for j := 0 to taskNum[row]
      invariant ts == TableTasks(tasks, row)[..j]
    {
      ts := ts + [taskArray[row, j]];
    }
  }

  method InitTables(tasks: seq<Task>) returns (tables: seq<ScheduleTable>)
    requires ValidTasks(tasks) && tasks != [] && ContiguousTables(tasks)
    ensures |tables| > 0 && IsTableCount(tasks, |tables|) && NoDuplicates(tables)
    ensures forall t :: 0 <= t < |tables| ==> fresh(tables[t]) && IsInitialTable(tasks, t, tables[t])
  {
    hide TableTasks, DurationOf, ScheduleTable.Valid, IsTable;
    var numTable := CountTables(tasks);
    var duration, taskNum, taskArray := GroupTasks(tasks, numTable);
    tables := [];
    for t := 0 to numTable
      invariant Grouped(tasks, numTable, duration, taskNum, taskArray)
      invariant |tables| == t && NoDuplicates(tables)
      invariant forall u :: 0 <= u < t ==> fresh(tables[u]) && IsInitialTable(tasks, u, tables[u])
    {
      var ts := RowTasks(tasks, t, taskNum, taskArray, duration);
      TableTasksReady(tasks, t);
      HighestTable(tasks, numTable, t);
      var table := new ScheduleTable(ts, duration[t]);
      tables := tables + [table];
    }
  }

  lemma HighestTable(tasks: seq<Task>, numTable: nat, t: nat)
    requires tasks != [] && IsTableCount(tasks, numTable) && t < numTable && ContiguousTables(tasks)
    ensures TableTasks(tasks, t) != []
  {
  }

  /** The points that initialisation builds refer to the task array and repeat no task. */
  lemma InitialConfigValid(tasks: seq<Task>, tables: seq<ScheduleTable>)
    requires ValidTasks(tasks) && |tables| > 0
    requires forall t :: 0 <= t < |tables| ==> IsInitialTable(tasks, t, tables[t])
    ensures Config(tasks, PointsOfTables(tables)).Valid()
  {
    hide TableTasks, DurationOf;
    var c := Config(tasks, PointsOfTables(tables));
    forall t | 0 <= t < |tables|
      ensures |c.tables[t]| > 0
      ensures forall e :: 0 <= e < |c.tables[t]| ==> c.ValidPoint(c.tables[t][e].tasks)
    {
      assert IsInitialTable(tasks, t, tables[t]);
      TablePointsValid(c, t, tables[t].eps);
    }
  }

  lemma TablePointsValid(c: Config, t: nat, points: seq<ExpiryPoint>)
    requires ValidTasks(c.tasks) && IsTable(TableTasks(c.tasks, t), DurationOf(c.tasks, t), points)
    ensures |points| > 0 && forall e :: 0 <= e < |points| ==> c.ValidPoint(points[e].tasks)
  {
    var ts := TableTasks(c.tasks, t);
    TableHasPoints(ts, DurationOf(c.tasks, t), points);
    TableTasksPartition(c.tasks, t);
    forall e | 0 <= e < |points|
      ensures c.ValidPoint(points[e].tasks)
    {
      assert IsDueList(ts, points[e].offset, points[e].tasks);
      forall x | x in points[e].tasks
        ensures c.IsTask(x)
      {
        assert x in c.tasks;
      }
    }
  }

  /**
   table_scheduler_create up to the start of the threads: the heap stands for the initial state of
   the step system.
   */
  method CreateScheduler(nodes: seq<Node>) returns (scheduler: Scheduler)
    requires nodes != [] && ValidTasks(TasksOf(nodes)) && ContiguousTables(TasksOf(nodes))
    requires forall n :: n in nodes ==> n.taskState == TaskInit && !n.inReadyQueue
    ensures scheduler.Cfg().Valid()
    ensures scheduler.Valid() && scheduler.tasks == nodes && scheduler.view == Initial(scheduler.Cfg())
    ensures fresh(scheduler) && fresh(scheduler.readyQueue) && fresh(scheduler.readyQueue.head)
    ensures |scheduler.tables| > 0 && IsTableCount(TasksOf(nodes), |scheduler.tables|) && NoDuplicates(scheduler.tables)
    ensures forall t :: 0 <= t < |scheduler.tables| ==> fresh(scheduler.tables[t])
    ensures forall t :: 0 <= t < |scheduler.tables| ==> IsInitialTable(TasksOf(nodes), t, scheduler.tables[t])
  {
    hide TableTasks, DurationOf, Config.Valid, ContiguousTables, ValidTasks, IsTableCount;
    var tables := InitTables(TasksOf(nodes));
    InitialConfigValid(TasksOf(nodes), tables);
    scheduler := new Scheduler(nodes, tables);
  }

  /** table_scheduler_start: every table's timer is armed for its first tick; `clock` is the reading made for each. */
  method StartTables(tables: seq<ScheduleTable>, clock: seq<TimeSpec>)
    requires |clock| == |tables| && NoDuplicates(tables)
    requires forall t :: 0 <= t < |tables| ==> tables[t].Valid() && tables[t].ticks == 0
    modifies tables`newTimer, tables`start
    ensures forall t :: 0 <= t < |tables| ==> tables[t].Armed() && TotalNs(tables[t].start) == TotalNs(clock[t]) + 1
  {
    for i := 0 to |tables|
      invariant forall t :: 0 <= t < i ==> tables[t].Armed() && TotalNs(tables[t].start) == TotalNs(clock[t]) + 1
    {
      hide ScheduleTable.Valid, ScheduleTable.Armed;
      tables[i].Start(clock[i]);
    }
  }
}
