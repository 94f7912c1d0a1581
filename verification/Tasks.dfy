/** Static task configuration and the enumerations of scheduler.h and simulator.h. */
module Tasks {

  datatype Option<+T> = None | Some(value: T)

  datatype TaskType = BasicPeriodic | BasicSingleShot

  datatype TaskState = TaskInit | TaskSuspended | TaskReady | TaskRunning

  /** The part of task_struct that never changes after loading; `id` is the position in the task array. */
  datatype Task = Task(id: nat, priority: int, period: nat, tableId: nat, taskType: TaskType)

  /** What the source demands of a task array: position numbering and periods that can be divided by. */
  predicate ValidTasks(tasks: seq<Task>) {
    forall i :: 0 <= i < |tasks| ==> tasks[i].id == i && tasks[i].period > 0
  }

  predicate NoDuplicates<T(==)>(s: seq<T>) {
    forall i, j :: 0 <= i < j < |s| ==> s[i] != s[j]
  }
}
