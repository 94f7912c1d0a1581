/** The grouping loops at the start of table_scheduler_init: per table its tasks, their number and the duration. */
module TaskGrouping {
  import opened Tasks
  import opened UnrolledGcd
  import opened TableDuration

  /** The tasks of one table, in configuration order. */
  function TableTasks(tasks: seq<Task>, table: nat): (ts: seq<Task>)
    ensures |ts| <= |tasks|
  {
    if tasks == [] then []
    else
      var n := |tasks| - 1;
      var ts := TableTasks(tasks[..n], table);
      if tasks[n].tableId == table then ts + [tasks[n]] else ts
  }

  predicate AscendingIds(ts: seq<Task>) {
    forall i, j :: 0 <= i < j < |ts| ==> ts[i].id < ts[j].id
  }

  /** Grouping loses no task, invents none, repeats none and keeps the configuration order. */
  lemma {:induction false} TableTasksPartition(tasks: seq<Task>, table: nat)
    requires ValidTasks(tasks)
    ensures forall x :: x in TableTasks(tasks, table) <==> x in tasks && x.tableId == table
    ensures AscendingIds(TableTasks(tasks, table))
  {
    if tasks != [] {
      var n := |tasks| - 1;
      TableTasksPartition(tasks[..n], table);
      assert tasks == tasks[..n] + [tasks[n]];
    }
  }

  function Periods(ts: seq<Task>): (ps: seq<nat>)
    ensures |ps| == |ts|
    ensures forall i :: 0 <= i < |ts| ==> ps[i] == ts[i].period
  {
    seq(|ts|, i requires 0 <= i < |ts| => ts[i].period)
  }

  lemma PeriodsPositive(tasks: seq<Task>, table: nat)
    requires ValidTasks(tasks)
    ensures Positive(Periods(TableTasks(tasks, table)))
  {
  }

  function DurationOf(tasks: seq<Task>, table: nat): (d: nat)
    requires ValidTasks(tasks)
    ensures d > 0
  {
    PeriodsPositive(tasks, table);
    Duration(Periods(TableTasks(tasks, table)))
  }

  lemma GroupStep(tasks: seq<Task>, i: nat, table: nat)
    requires ValidTasks(tasks) && i < |tasks|
    ensures ValidTasks(tasks[..i]) && ValidTasks(tasks[..i + 1])
    ensures TableTasks(tasks[..i + 1], table) ==
            TableTasks(tasks[..i], table) + (if tasks[i].tableId == table then [tasks[i]] else [])
    ensures var d := DurationOf(tasks[..i], table);
            MacroGcd(d, tasks[i].period) > 0 &&
            DurationOf(tasks[..i + 1], table) ==
              if tasks[i].tableId == table then MacroLcm(d, tasks[i].period) else d
  {
    var before, after := TableTasks(tasks[..i], table), TableTasks(tasks[..i + 1], table);
    assert tasks[..i + 1][..i] == tasks[..i];
    PeriodsPositive(tasks[..i], table);
    PeriodsPositive(tasks[..i + 1], table);
    MacroLcmExact(DurationOf(tasks[..i], table), tasks[i].period);
    if tasks[i].tableId == table {
      assert Periods(after)[..|before|] == Periods(before);
      assert Periods(after)[|before|] == tasks[i].period;
    }
  }

  lemma GroupStart(tasks: seq<Task>)
    requires ValidTasks(tasks)
    ensures ValidTasks(tasks[..0])
    ensures forall t: nat {:trigger TableTasks(tasks[..0], t)} {:trigger DurationOf(tasks[..0], t)} ::
              TableTasks(tasks[..0], t) == [] && DurationOf(tasks[..0], t) == 1
  {
  }

  predicate IsTableCount(tasks: seq<Task>, numTable: nat) {
    && (forall i :: 0 <= i < |tasks| ==> tasks[i].tableId < numTable)
    && (numTable == 1 || exists i :: 0 <= i < |tasks| && tasks[i].tableId + 1 == numTable)
  }

  method CountTables(tasks: seq<Task>) returns (numTable: nat)
    ensures numTable > 0 && IsTableCount(tasks, numTable)
  {
    var highest := 0;
    for i := 0 to |tasks|
      invariant forall k :: 0 <= k < i ==> tasks[k].tableId <= highest
      invariant highest == 0 || exists k :: 0 <= k < i && tasks[k].tableId == highest
    {
      if tasks[i].tableId > highest {
        highest := tasks[i].tableId;
      }
    }
    numTable := highest + 1;
  }

  /** The three arrays describe the grouping of `tasks`. */
  ghost predicate Grouped(tasks: seq<Task>, numTable: nat,
        duration: array<nat>, taskNum: array<nat>, taskArray: array2<Task>)
    requires ValidTasks(tasks)
    reads duration, taskNum, taskArray
  {
    && duration.Length == taskNum.Length == taskArray.Length0 == numTable && taskArray.Length1 == |tasks|
    && (forall t :: 0 <= t < numTable ==> duration[t] == DurationOf(tasks, t))
    && (forall t :: 0 <= t < numTable ==> taskNum[t] == |TableTasks(tasks, t)|)
    && (forall t, j :: 0 <= t < numTable && 0 <= j < |TableTasks(tasks, t)| ==>
          taskArray[t, j] == TableTasks(tasks, t)[j])
  }

  /** The per-table durations, task counts and task lists of table_scheduler_init. */
  method GroupTasks(tasks: seq<Task>, numTable: nat)
      returns (duration: array<nat>, taskNum: array<nat>, taskArray: array2<Task>)
    requires ValidTasks(tasks) && |tasks| > 0 && IsTableCount(tasks, numTable)
    ensures fresh(duration) && fresh(taskNum) && fresh(taskArray)
    ensures Grouped(tasks, numTable, duration, taskNum, taskArray)
  {
    hide MacroLcm, MacroGcd, Duration, DurationOf, TableTasks;
    duration := new nat[numTable];
    taskNum := new nat[numTable];
    for i := 0 to numTable
      invariant forall t :: 0 <= t < i ==> duration[t] == 1 && taskNum[t] == 0
    {
      duration[i] := 1;
      taskNum[i] := 0;
    }
    taskArray := new Task[numTable, |tasks|];
    GroupStart(tasks);
    for i := 0 to |tasks|
      invariant ValidTasks(tasks[..i])
      invariant forall t :: 0 <= t < numTable ==> duration[t] == DurationOf(tasks[..i], t)
      invariant forall t :: 0 <= t < numTable ==> taskNum[t] == |TableTasks(tasks[..i], t)| <= i
      invariant forall t, j :: 0 <= t < numTable && 0 <= j < |TableTasks(tasks[..i], t)| ==>
                  taskArray[t, j] == TableTasks(tasks[..i], t)[j]
    {
      var t := tasks[i].tableId;
      forall u | 0 <= u < numTable {
        GroupStep(tasks, i, u);
      }
      taskArray[t, taskNum[t]] := tasks[i];
      taskNum[t] := taskNum[t] + 1;
      duration[t] := MacroLcm(duration[t], tasks[i].period);
    }
    assert tasks[..|tasks|] == tasks;
  }
}
