/**
 The second part of table_scheduler_init: every time below the duration is given a bucket of due
 tasks, and the non-empty buckets are compacted into the expiry-point array.
 */
module ExpiryPoints {
  import opened Tasks
  import opened TaskGrouping

  const INVALID_OFFSET := -1

  datatype ExpiryPoint = ExpiryPoint(offset: int, tasks: seq<Task>)

  /** An activation of `x` falls on `time`. */
  predicate Due(x: Task, time: int) {
    x.period > 0 && time % x.period == 0
  }

  predicate PositivePeriods(ts: seq<Task>) {
    forall i :: 0 <= i < |ts| ==> ts[i].period > 0
  }

  /** The list that head insertion of the due tasks builds for one time. */
  function Bucket(ts: seq<Task>, time: nat): seq<Task>
    requires PositivePeriods(ts)
  {
    if ts == [] then []
    else
      var n := |ts| - 1;
      var rest := Bucket(ts[..n], time);
      if Due(ts[n], time) then [ts[n]] + rest else rest
  }

  /** The compacted buckets of the times below `end`. */
  function Points(ts: seq<Task>, end: nat): seq<ExpiryPoint>
    requires PositivePeriods(ts)
  {
    if end == 0 then []
    else
      var bucket := Bucket(ts, end - 1);
      Points(ts, end - 1) + if bucket == [] then [] else [ExpiryPoint(end - 1, bucket)]
  }

  predicate DescendingIds(ts: seq<Task>) {
    forall i, j :: 0 <= i < j < |ts| ==> ts[i].id > ts[j].id
  }

  /** The tasks of `bucket` are those of `ts` due at `time`, each once, latest configured first. */
  ghost predicate IsDueList(ts: seq<Task>, time: int, bucket: seq<Task>)
    requires PositivePeriods(ts)
  {
    && (forall x :: x in bucket <==> x in ts && Due(x, time))
    && DescendingIds(bucket)
  }

  ghost predicate IncreasingOffsets(points: seq<ExpiryPoint>) {
    forall i, j :: 0 <= i < j < |points| ==> points[i].offset < points[j].offset
  }

  ghost predicate HasOffset(points: seq<ExpiryPoint>, time: int) {
    exists i :: 0 <= i < |points| && points[i].offset == time
  }

  predicate SomeDue(ts: seq<Task>, time: nat) {
    exists x :: x in ts && Due(x, time)
  }

  /** What an expiry-point array for the tasks `ts` over [0, end) has to be. */
  ghost predicate IsExpiryTable(ts: seq<Task>, end: nat, points: seq<ExpiryPoint>)
    requires PositivePeriods(ts)
  {
    && IncreasingOffsets(points)
    && (forall i :: 0 <= i < |points| ==>
          0 <= points[i].offset < end && points[i].tasks != [] && IsDueList(ts, points[i].offset, points[i].tasks))
    && (forall time: nat :: time < end && SomeDue(ts, time) ==> HasOffset(points, time))
  }

  lemma {:induction false} BucketIsDueList(ts: seq<Task>, time: nat)
    requires PositivePeriods(ts) && AscendingIds(ts)
    ensures IsDueList(ts, time, Bucket(ts, time))
  {
    if ts != [] {
      var n := |ts| - 1;
      BucketIsDueList(ts[..n], time);
      PrependDue(ts[..n], ts[n], time, Bucket(ts[..n], time));
      assert ts == ts[..n] + [ts[n]];
    }
  }

  lemma PrependDue(ts: seq<Task>, x: Task, time: nat, rest: seq<Task>)
    requires PositivePeriods(ts) && x.period > 0 && AscendingIds(ts + [x]) && IsDueList(ts, time, rest)
    ensures IsDueList(ts + [x], time, if Due(x, time) then [x] + rest else rest)
  {
    hide Due;
    var all := ts + [x];
    assert forall i :: 0 <= i < |ts| ==> ts[i] == all[i];
    assert all[|ts|] == x;
    assert forall i :: 0 <= i < |ts| ==> ts[i].id < x.id;
    assert forall i :: 0 <= i < |rest| ==> rest[i] in ts;
  }

  lemma BucketEmptyIff(ts: seq<Task>, time: nat)
    requires PositivePeriods(ts) && AscendingIds(ts)
    ensures Bucket(ts, time) == [] <==> !SomeDue(ts, time)
  {
  }

  lemma {:induction false} PointsIncrease(ts: seq<Task>, end: nat)
    requires PositivePeriods(ts)
    ensures IncreasingOffsets(Points(ts, end))
    ensures forall i :: 0 <= i < |Points(ts, end)| ==> 0 <= Points(ts, end)[i].offset < end
  {
    if end > 0 {
      PointsIncrease(ts, end - 1);
    }
  }

  lemma {:induction false} PointsListDue(ts: seq<Task>, end: nat)
    requires PositivePeriods(ts) && AscendingIds(ts)
    ensures forall i :: 0 <= i < |Points(ts, end)| ==>
              var p := Points(ts, end)[i]; p.tasks != [] && IsDueList(ts, p.offset, p.tasks)
  {
    hide IsDueList, PositivePeriods, AscendingIds;
    if end > 0 {
      PointsListDue(ts, end - 1);
      BucketIsDueList(ts, end - 1);
    }
  }

  lemma {:induction false} PointsMissNothing(ts: seq<Task>, end: nat, time: nat)
    requires PositivePeriods(ts) && AscendingIds(ts) && time < end && SomeDue(ts, time)
    ensures HasOffset(Points(ts, end), time)
  {
    hide SomeDue, PositivePeriods, AscendingIds, Bucket;
    var before, points := Points(ts, end - 1), Points(ts, end);
    if time < end - 1 {
      PointsMissNothing(ts, end - 1, time);
      var i :| 0 <= i < |before| && before[i].offset == time;
      assert points[i].offset == time;
    } else {
      BucketEmptyIff(ts, time);
      assert points[|before|].offset == time;
    }
  }

  /** Compaction keeps exactly the times at which something is due, in increasing order. */
  lemma PointsAreExpiryTable(ts: seq<Task>, end: nat)
    requires PositivePeriods(ts) && AscendingIds(ts)
    ensures IsExpiryTable(ts, end, Points(ts, end))
  {
    hide IncreasingOffsets, IsDueList, SomeDue, HasOffset, Points, PositivePeriods, AscendingIds;
    PointsIncrease(ts, end);
    PointsListDue(ts, end);
    forall time: nat | time < end && SomeDue(ts, time)
      ensures HasOffset(Points(ts, end), time)
    {
      PointsMissNothing(ts, end, time);
    }
  }

  lemma FirstPoint(ts: seq<Task>, end: nat, points: seq<ExpiryPoint>)
    requires PositivePeriods(ts) && ts != [] && end > 0
    requires IsExpiryTable(ts, end, points)
    ensures |points| > 0 && points[0].offset == 0
    ensures forall x :: x in points[0].tasks <==> x in ts
  {
    assert ts[0] in ts && Due(ts[0], 0);
    assert SomeDue(ts, 0);
    var i :| 0 <= i < |points| && points[i].offset == 0;
    assert points[0].offset <= points[i].offset;
    forall x | x in ts
      ensures x in points[0].tasks
    {
      assert Due(x, 0);
    }
  }

  lemma {:induction false} PointsMonotone(ts: seq<Task>, end: nat, more: nat)
    requires PositivePeriods(ts) && end <= more
    ensures |Points(ts, end)| <= |Points(ts, more)|
    decreases more
  {
    if end < more {
      PointsMonotone(ts, end, more - 1);
    }
  }

  function Slot(ts: seq<Task>, time: nat): ExpiryPoint
    requires PositivePeriods(ts)
  {
    var bucket := Bucket(ts, time);
    ExpiryPoint(if bucket == [] then INVALID_OFFSET else time, bucket)
  }

  /** Fill the bucket of one time; `count` goes up when the bucket stops being empty. */
  method FillSlot(ts: seq<Task>, table: array<ExpiryPoint>, time: nat, count: nat) returns (newCount: nat)
    requires PositivePeriods(ts)
    requires time < table.Length && table[time] == ExpiryPoint(INVALID_OFFSET, [])
    modifies table
    ensures table[time] == Slot(ts, time)
    ensures forall k :: 0 <= k < table.Length && k != time ==> table[k] == old(table[k])
    ensures newCount == count + if Bucket(ts, time) == [] then 0 else 1
  {
    newCount := count;
    for j := 0 to |ts|
      invariant table[time] == Slot(ts[..j], time)
      invariant forall k :: 0 <= k < table.Length && k != time ==> table[k] == old(table[k])
      invariant newCount == count + if Bucket(ts[..j], time) == [] then 0 else 1
    {
      var task := ts[j];
      assert ts[..j + 1][..j] == ts[..j];
      if time % task.period == 0 {
        if table[time].offset == INVALID_OFFSET {
          table[time] := table[time].(offset := time);
          newCount := newCount + 1;
        }
        table[time] := table[time].(tasks := [task] + table[time].tasks);
      }
    }
    assert ts[..|ts|] == ts;
  }

  /** Both passes over the bucket table; the array allocated from the count is filled exactly. */
  method BuildPoints(ts: seq<Task>, duration: nat) returns (points: array<ExpiryPoint>)
    requires PositivePeriods(ts)
    ensures fresh(points) && points[..] == Points(ts, duration)
  {
    var table := new ExpiryPoint[duration](_ => ExpiryPoint(INVALID_OFFSET, []));
    var numEps := 0;
    for time := 0 to duration
      invariant forall k :: 0 <= k < time ==> table[k] == Slot(ts, k)
      invariant forall k :: time <= k < duration ==> table[k] == ExpiryPoint(INVALID_OFFSET, [])
      invariant numEps == |Points(ts, time)|
    {
      numEps := FillSlot(ts, table, time, numEps);
    }
    points := new ExpiryPoint[numEps](_ => ExpiryPoint(INVALID_OFFSET, []));
    var index := 0;
    for key := 0 to duration
      invariant forall k :: 0 <= k < duration ==> table[k] == Slot(ts, k)
      invariant index == |Points(ts, key)| <= numEps == points.Length
      invariant points[..index] == Points(ts, key)
    {
      PointsMonotone(ts, key + 1, duration);
      if table[key].offset != INVALID_OFFSET {
        points[index] := table[key];
        index := index + 1;
      }
    }
  }
}
