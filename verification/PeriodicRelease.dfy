/**
 The cyclic walk over an expiry-point array, and why it releases a task of period p at
 exactly the multiples of p.
 */
module PeriodicRelease {
  import opened Tasks
  import opened Divisibility
  import opened ExpiryPoints

  /** The table built for the tasks `ts` with duration `d`, whatever the fold made of the periods. */
  ghost predicate IsTable(ts: seq<Task>, d: nat, points: seq<ExpiryPoint>) {
    && ts != [] && d > 0
    && PositivePeriods(ts)
    && IsExpiryTable(ts, d, points)
  }

  lemma TableHasPoints(ts: seq<Task>, d: nat, points: seq<ExpiryPoint>)
    requires IsTable(ts, d, points)
    ensures |points| > 0 && points[0].offset == 0
  {
    FirstPoint(ts, d, points);
  }

  /** The type of the first task decides the type of the table. */
  predicate IsPeriodicTable(ts: seq<Task>) {
    ts != [] && ts[0].taskType == BasicPeriodic
  }

  /**
   The time that one round of expiry points takes: the duration, or only the time to the last point when
   a single-shot table starts over with a delay of 0.
   */
  function RoundSpan(ts: seq<Task>, d: nat, points: seq<ExpiryPoint>): int
    requires |points| > 0
  {
    if IsPeriodicTable(ts) then d else points[|points| - 1].offset
  }

  lemma TableFirstPoint(ts: seq<Task>, d: nat, points: seq<ExpiryPoint>)
    requires IsTable(ts, d, points) && |points| > 0
    ensures points[0].offset == 0 && forall x :: x in ts ==> x.period > 0 && x in points[0].tasks
  {
    FirstPoint(ts, d, points);
  }

  /** The time, in ms from the first tick, at which the k-th tick falls when a round takes `d`. */
  function TickTime(points: seq<ExpiryPoint>, d: int, k: nat): int
    requires |points| > 0
  {
    (k / |points|) * d + points[k % |points|].offset
  }

  /** The delay from expiry point `i` to the one after it; past the last point, final delay plus initial offset. */
  function Delay(points: seq<ExpiryPoint>, d: int, i: nat): int
    requires i < |points|
  {
    if i + 1 < |points| then points[i + 1].offset - points[i].offset
    else (d - points[|points| - 1].offset) + points[0].offset
  }

  lemma NextTick(n: nat, k: nat)
    requires n > 0
    ensures k % n + 1 < n ==> (k + 1) / n == k / n && (k + 1) % n == k % n + 1
    ensures k % n + 1 == n ==> (k + 1) / n == k / n + 1 && (k + 1) % n == 0
  {
    var q, r := k / n, k % n;
    assert k == q * n + r;
    if r + 1 < n {
      DivModUnique(k + 1, n, q, r + 1);
    } else {
      assert (q + 1) * n == q * n + n;
      DivModUnique(k + 1, n, q + 1, 0);
    }
  }

  /** Each armed delay is the distance to the next tick. */
  lemma TickAdvance(points: seq<ExpiryPoint>, d: int, k: nat)
    requires |points| > 0
    ensures TickTime(points, d, k + 1) == TickTime(points, d, k) + Delay(points, d, k % |points|)
  {
    NextTick(|points|, k);
    if k % |points| + 1 == |points| {
      assert (k / |points| + 1) * d == (k / |points|) * d + d;
    }
  }

  lemma TickIndex(points: seq<ExpiryPoint>, d: int, q: nat, i: nat)
    requires i < |points|
    ensures q * |points| + i >= 0
    ensures (q * |points| + i) % |points| == i
    ensures TickTime(points, d, q * |points| + i) == q * d + points[i].offset
  {
    assert q * |points| >= 0;
    DivModUnique(q * |points| + i, |points|, q, i);
  }

  // ----- delays -----

  function DelaySum(points: seq<ExpiryPoint>, d: int, from: nat, count: nat): int
    requires |points| > 0
  {
    if count == 0 then 0
    else DelaySum(points, d, from, count - 1) + Delay(points, d, (from + count - 1) % |points|)
  }

  lemma {:induction false} DelaySumIsDistance(points: seq<ExpiryPoint>, d: int, from: nat, count: nat)
    requires |points| > 0
    ensures DelaySum(points, d, from, count) == TickTime(points, d, from + count) - TickTime(points, d, from)
  {
    if count > 0 {
      DelaySumIsDistance(points, d, from, count - 1);
      TickAdvance(points, d, from + count - 1);
    }
  }

  /** Any full round of consecutive delays, wherever it starts, takes exactly the duration. */
  lemma RoundTakesDuration(points: seq<ExpiryPoint>, d: int, from: nat)
    requires |points| > 0
    ensures DelaySum(points, d, from, |points|) == d
  {
    hide TickTime, DelaySum;
    var n := |points|;
    var q, i := from / n, from % n;
    DelaySumIsDistance(points, d, from, n);
    TickIndex(points, d, q, i);
    TickIndex(points, d, q + 1, i);
    assert from == q * n + i;
    assert from + n == (q + 1) * n + i;
    assert (q + 1) * d == q * d + d;
  }

  lemma DelayPositive(ts: seq<Task>, d: nat, points: seq<ExpiryPoint>, i: nat)
    requires IsTable(ts, d, points) && i < |points|
    ensures Delay(points, d, i) >= 1
  {
  }

  lemma {:induction false} TicksIncrease(ts: seq<Task>, d: nat, points: seq<ExpiryPoint>, j: nat, k: nat)
    requires IsTable(ts, d, points) && |points| > 0 && j < k
    ensures TickTime(points, d, j) < TickTime(points, d, k)
    decreases k
  {
    DelayPositive(ts, d, points, (k - 1) % |points|);
    TickAdvance(points, d, k - 1);
    if j < k - 1 {
      TicksIncrease(ts, d, points, j, k - 1);
    }
  }

  lemma FirstTickTime(ts: seq<Task>, d: nat, points: seq<ExpiryPoint>)
    requires IsTable(ts, d, points)
    ensures |points| > 0 && TickTime(points, d, 0) == 0
  {
    TableHasPoints(ts, d, points);
    TickIndex(points, d, 0, 0);
  }

  lemma TickTimeNatural(ts: seq<Task>, d: nat, points: seq<ExpiryPoint>, k: nat)
    requires IsTable(ts, d, points)
    ensures |points| > 0 && TickTime(points, d, k) >= 0
  {
    FirstTickTime(ts, d, points);
    if k > 0 {
      TicksIncrease(ts, d, points, 0, k);
    }
  }

  // ----- releases -----

  /** The k-th tick releases `x`. */
  predicate ReleasedAt(points: seq<ExpiryPoint>, k: nat, x: Task)
    requires |points| > 0
  {
    x in points[k % |points|].tasks
  }

  /** The ticks at which the cyclic table releases `x` are those whose time is a multiple of its period. */
  ghost predicate TicksOnSchedule(points: seq<ExpiryPoint>, span: int, x: Task)
    requires |points| > 0
  {
    forall k: nat :: ReleasedAt(points, k, x) <==> Due(x, TickTime(points, span, k))
  }

  /** Some tick at `time` releases `x`. */
  ghost predicate ReleasedAtTime(points: seq<ExpiryPoint>, span: int, x: Task, time: nat)
    requires |points| > 0
  {
    exists k: nat :: TickTime(points, span, k) == time && ReleasedAt(points, k, x)
  }

  /** The cyclic table releases `x` at every multiple of its period, for ever, and at no other time. */
  ghost predicate ReleasedPeriodically(points: seq<ExpiryPoint>, span: int, x: Task)
    requires |points| > 0
  {
    && TicksOnSchedule(points, span, x)
    && forall time: nat :: Due(x, time) ==> ReleasedAtTime(points, span, x, time)
  }

  lemma ReleaseAtTick(ts: seq<Task>, d: nat, points: seq<ExpiryPoint>, span: int, x: Task, k: nat)
    requires IsTable(ts, d, points) && x in ts && Due(x, span)
    ensures |points| > 0 && (ReleasedAt(points, k, x) <==> Due(x, TickTime(points, span, k)))
  {
    TableHasPoints(ts, d, points);
    var n := |points|;
    var offset, q, p := points[k % n].offset, k / n, x.period;
    assert span == (span / p) * p;
    assert q * span == (q * (span / p)) * p;
    AddMultiple(offset, q * (span / p), p);
    assert IsDueList(ts, offset, points[k % n].tasks);
  }

  /** The ticks are on schedule if and only if the period divides the time that a round takes. */
  lemma TicksOnScheduleIff(ts: seq<Task>, d: nat, points: seq<ExpiryPoint>, span: int, x: Task)
    requires IsTable(ts, d, points) && x in ts
    ensures |points| > 0 && (TicksOnSchedule(points, span, x) <==> Due(x, span))
  {
    FirstPoint(ts, d, points);
    if Due(x, span) {
      forall k: nat
        ensures ReleasedAt(points, k, x) <==> Due(x, TickTime(points, span, k))
      {
        ReleaseAtTick(ts, d, points, span, x, k);
      }
    } else {
      TickIndex(points, span, 1, 0);
      assert ReleasedAt(points, |points|, x);
      assert !Due(x, TickTime(points, span, |points|));
    }
  }

  lemma RemainderDue(x: Task, d: nat, time: nat)
    requires d > 0 && Divides(x.period, d) && Due(x, time)
    ensures Due(x, time % d)
  {
    var p, q, r := x.period, time / d, time % d;
    QuotientOf(p, d);
    assert time == q * d + r;
    assert q * ((d / p) * p) == (q * (d / p)) * p;
    AddMultiple(r, q * (d / p), p);
  }

  lemma PointAt(ts: seq<Task>, d: nat, points: seq<ExpiryPoint>, x: Task, offset: nat) returns (i: nat)
    requires IsTable(ts, d, points) && x in ts && offset < d && Due(x, offset)
    ensures i < |points| && points[i].offset == offset && x in points[i].tasks
  {
    assert SomeDue(ts, offset);
    assert HasOffset(points, offset);
    i :| 0 <= i < |points| && points[i].offset == offset;
    assert IsDueList(ts, offset, points[i].tasks);
  }

  /**
   No activation is skipped as long as a round takes any time at all: every multiple of the period is the
   time of a tick that releases the task.
   */
  lemma EveryMultipleHasTick(ts: seq<Task>, d: nat, points: seq<ExpiryPoint>, span: nat, x: Task, time: nat)
    returns (k: nat)
    requires IsTable(ts, d, points) && x in ts && 0 < span <= d && Divides(x.period, span) && Due(x, time)
    ensures |points| > 0 && TickTime(points, span, k) == time && ReleasedAt(points, k, x)
  {
    hide IsExpiryTable, TickTime, Due;
    TableHasPoints(ts, d, points);
    RemainderDue(x, span, time);
    var i := PointAt(ts, d, points, x, time % span);
    TickIndex(points, span, time / span, i);
    k := (time / span) * |points| + i;
  }

  lemma RoundSpanBounds(ts: seq<Task>, d: nat, points: seq<ExpiryPoint>)
    requires IsTable(ts, d, points)
    ensures |points| > 0 && 0 <= RoundSpan(ts, d, points) <= d
    ensures RoundSpan(ts, d, points) > 0 <==> IsPeriodicTable(ts) || |points| > 1
    ensures !IsPeriodicTable(ts) ==> RoundSpan(ts, d, points) < d
  {
    TableHasPoints(ts, d, points);
  }

  /** With a round that takes no time all ticks fall on the first one, so no later multiple is served. */
  lemma NoTimePasses(points: seq<ExpiryPoint>, x: Task)
    requires |points| == 1 && points[0].offset == 0 && x.period > 0
    ensures !ReleasedPeriodically(points, 0, x)
  {
    DivModUnique(x.period, x.period, 1, 0);
    forall k: nat
      ensures TickTime(points, 0, k) == 0
    {
      TickIndex(points, 0, k, 0);
    }
    assert Due(x, x.period) && !ReleasedAtTime(points, 0, x, x.period);
  }

  /**
   The table stands for "at time t release every task whose period divides t" if and only if a round takes
   time and the period divides that time.
   */
  lemma ReleasedPeriodicallyIff(ts: seq<Task>, d: nat, points: seq<ExpiryPoint>, x: Task)
    requires IsTable(ts, d, points) && x in ts
    ensures |points| > 0
    ensures var span := RoundSpan(ts, d, points);
            && span == (if ts[0].taskType == BasicPeriodic then d else points[|points| - 1].offset)
            && (ReleasedPeriodically(points, span, x) <==> span > 0 && span % x.period == 0)
  {
    RoundSpanBounds(ts, d, points);
    TableFirstPoint(ts, d, points);
    var span := RoundSpan(ts, d, points);
    TicksOnScheduleIff(ts, d, points, span, x);
    hide IsTable, TicksOnSchedule;
    if span == 0 {
      NoTimePasses(points, x);
    } else if Due(x, span) {
      forall time: nat | Due(x, time)
        ensures ReleasedAtTime(points, span, x, time)
      {
        var k := EveryMultipleHasTick(ts, d, points, span, x, time);
      }
    }
  }

  lemma NoTickBetween(ts: seq<Task>, d: nat, points: seq<ExpiryPoint>, j: nat, k: nat)
    requires IsTable(ts, d, points) && |points| > 0
    ensures TickTime(points, d, j) <= TickTime(points, d, k) || TickTime(points, d, j) >= TickTime(points, d, k + 1)
  {
    if j < k {
      TicksIncrease(ts, d, points, j, k);
    } else if j > k + 1 {
      TicksIncrease(ts, d, points, k + 1, j);
    }
  }

  lemma NextMultiple(now: nat, p: nat) returns (next: nat)
    requires p > 0
    ensures now < next <= now + p && next % p == 0
  {
    assert now == (now / p) * p + now % p;
    next := (now / p + 1) * p;
    DivModUnique(next, p, now / p + 1, 0);
  }

  /** From an expiry point to the next one, or to the end of the duration, takes at most the period of any task. */
  lemma GapAtMostPeriod(ts: seq<Task>, d: nat, points: seq<ExpiryPoint>, x: Task, i: nat)
    requires IsTable(ts, d, points) && x in ts && i < |points|
    ensures (if i + 1 < |points| then points[i + 1].offset else d) <= points[i].offset + x.period
  {
    var next := NextMultiple(points[i].offset, x.period);
    if next < d {
      var j := PointAt(ts, d, points, x, next);
      assert points[i].offset < points[j].offset;
      assert i < j;
    }
  }

  /** No task of the table waits longer than its own period for the next tick, whatever the fold made of the periods. */
  lemma DelayAtMostPeriod(ts: seq<Task>, d: nat, points: seq<ExpiryPoint>, x: Task, i: nat)
    requires IsTable(ts, d, points) && x in ts && i < |points|
    ensures Delay(points, d, i) <= x.period
  {
    TableHasPoints(ts, d, points);
    GapAtMostPeriod(ts, d, points, x, i);
  }

  ghost predicate SomePeriodAtMost(ts: seq<Task>, bound: nat) {
    exists x :: x in ts && x.period <= bound
  }

  ghost predicate DelaysAtMost(points: seq<ExpiryPoint>, span: int, bound: nat) {
    forall i :: 0 <= i < |points| ==> Delay(points, span, i) <= bound
  }

  /** The second expiry point is at the period of some task. */
  lemma SecondPoint(ts: seq<Task>, d: nat, points: seq<ExpiryPoint>) returns (x: Task)
    requires IsTable(ts, d, points) && |points| > 1
    ensures x in ts && points[0].offset == 0 && points[1].offset >= x.period
  {
    TableHasPoints(ts, d, points);
    var p := points[1];
    assert IsDueList(ts, p.offset, p.tasks);
    x := p.tasks[0];
    assert x in p.tasks;
    assert points[0].offset < p.offset;
    DividesAtMost(x.period, p.offset);
  }

  ghost predicate SomePeriodBelow(ts: seq<Task>, d: nat) {
    exists x :: x in ts && x.period < d
  }

  lemma OnePointIff(ts: seq<Task>, d: nat, points: seq<ExpiryPoint>)
    requires IsTable(ts, d, points)
    ensures |points| > 1 <==> SomePeriodBelow(ts, d)
  {
    TableHasPoints(ts, d, points);
    if |points| > 1 {
      var x := SecondPoint(ts, d, points);
    } else if SomePeriodBelow(ts, d) {
      var x :| x in ts && x.period < d;
      DivModUnique(x.period, x.period, 1, 0);
      var i := PointAt(ts, d, points, x, x.period);
      assert false;
    }
  }

  /** The condition on tasks and duration under which a table arms no delay above `bound`. */
  ghost predicate DelayBound(ts: seq<Task>, d: nat, bound: nat) {
    SomePeriodAtMost(ts, bound) || (if IsPeriodicTable(ts) then d <= bound else !SomePeriodBelow(ts, d))
  }

  /**
   All delays that a table arms stay within `bound` if and only if one of its tasks has such a period,
   or the whole duration does; a single-shot table with one point arms no positive delay at all.
   */
  lemma DelaysAtMostIff(ts: seq<Task>, d: nat, points: seq<ExpiryPoint>, bound: nat)
    requires IsTable(ts, d, points)
    ensures |points| > 0
    ensures DelaysAtMost(points, RoundSpan(ts, d, points), bound) <==> DelayBound(ts, d, bound)
  {
    TableHasPoints(ts, d, points);
    OnePointIff(ts, d, points);
    var span := RoundSpan(ts, d, points);
    if SomePeriodAtMost(ts, bound) {
      var x :| x in ts && x.period <= bound;
      forall i | 0 <= i < |points|
        ensures Delay(points, span, i) <= bound
      {
        DelayAtMostPeriod(ts, d, points, x, i);
      }
    } else if |points| > 1 {
      var x := SecondPoint(ts, d, points);
      assert Delay(points, span, 0) > bound;
    } else {
      assert Delay(points, span, 0) == span;
    }
  }

  /** How often the first `k` ticks release `x`. */
  function Releases(points: seq<ExpiryPoint>, x: Task, k: nat): nat
    requires |points| > 0
  {
    if k == 0 then 0
    else Releases(points, x, k - 1) + if ReleasedAt(points, k - 1, x) then 1 else 0
  }

  lemma NoMultipleBetween(ts: seq<Task>, d: nat, points: seq<ExpiryPoint>, x: Task, k: nat, time: nat)
    requires IsTable(ts, d, points) && |points| > 0 && x in ts && Divides(x.period, d)
    requires 0 <= TickTime(points, d, k) <= time < TickTime(points, d, k + 1)
    ensures time / x.period == TickTime(points, d, k) / x.period
  {
    hide TickTime;
    var now, p := TickTime(points, d, k), x.period;
    var m := (time / p) * p;
    assert time == m + time % p;
    if m > now {
      MultipleDivides(p, time / p);
      var j := EveryMultipleHasTick(ts, d, points, d, x, m);
      NoTickBetween(ts, d, points, j, k);
      assert false;
    }
    DivModUnique(now, p, time / p, now - m);
  }

  lemma PreviousQuotient(t: nat, p: nat)
    requires t > 0 && p > 0
    ensures t / p == (t - 1) / p + if t % p == 0 then 1 else 0
  {
    var q, r := (t - 1) / p, (t - 1) % p;
    assert t - 1 == q * p + r;
    if r + 1 < p {
      DivModUnique(t, p, q, r + 1);
    } else {
      assert (q + 1) * p == q * p + p;
      DivModUnique(t, p, q + 1, 0);
    }
  }

  lemma QuotientGrows(x: Task, now: int, before: nat, after: nat)
    requires x.period > 0 && now > 0
    requires before == (now - 1) / x.period + 1 && after == before + if Due(x, now) then 1 else 0
    ensures after == now / x.period + 1
  {
    PreviousQuotient(now, x.period);
  }

  lemma DueWhenDivided(x: Task, d: nat)
    ensures Divides(x.period, d) <==> Due(x, d)
    ensures Divides(x.period, d) ==> x.period > 0 && Due(x, 0)
  {
  }

  /** Up to and including any time T, a task of period p has been released floor(T / p) + 1 times. */
  lemma {:induction false} ReleaseCount(ts: seq<Task>, d: nat, points: seq<ExpiryPoint>, x: Task, k: nat, time: nat)
    requires IsTable(ts, d, points) && |points| > 0 && x in ts && Divides(x.period, d)
    requires 0 <= TickTime(points, d, k) <= time < TickTime(points, d, k + 1)
    ensures Releases(points, x, k + 1) == time / x.period + 1
  {
    hide TickTime, IsTable, ReleasedAt, Divides, Due;
    var now := TickTime(points, d, k);
    DueWhenDivided(x, d);
    NoMultipleBetween(ts, d, points, x, k, time);
    ReleaseAtTick(ts, d, points, d, x, k);
    FirstTickTime(ts, d, points);
    if k > 0 {
      TickTimeNatural(ts, d, points, k - 1);
      TicksIncrease(ts, d, points, k - 1, k);
      ReleaseCount(ts, d, points, x, k - 1, now - 1);
      QuotientGrows(x, now, Releases(points, x, k), Releases(points, x, k + 1));
    } else {
      assert Releases(points, x, 1) == 1;
    }
  }

  // ----- a table that starts over without a final delay -----

  lemma OffsetQuotient(ts: seq<Task>, d: nat, points: seq<ExpiryPoint>, x: Task, i: nat)
    requires IsTable(ts, d, points) && x in ts && i + 1 < |points|
    ensures points[i + 1].offset / x.period ==
            points[i].offset / x.period + if x in points[i + 1].tasks then 1 else 0
  {
    var a, b, p := points[i].offset, points[i + 1].offset, x.period;
    var q, r := b / p, b % p;
    assert b == q * p + r && a < b;
    assert IsDueList(ts, b, points[i + 1].tasks);
    if r == 0 {
      assert (q - 1) * p == b - p;
      NoneDueBetween(ts, d, points, x, i, q - 1);
      DivModUnique(a, p, q - 1, a - (b - p));
    } else {
      NoneDueBetween(ts, d, points, x, i, q);
      DivModUnique(a, p, q, a - q * p);
    }
  }

  lemma NoneDueBetween(ts: seq<Task>, d: nat, points: seq<ExpiryPoint>, x: Task, i: nat, q: int)
    requires IsTable(ts, d, points) && x in ts && i + 1 < |points|
    requires q * x.period < points[i + 1].offset
    ensures q * x.period <= points[i].offset
  {
    if q * x.period > points[i].offset {
      DivModUnique(q * x.period, x.period, q, 0);
      var j := PointAt(ts, d, points, x, q * x.period);
      assert false;
    }
  }

  lemma QuotientShift(m: int, o: int, p: int)
    requires p > 0
    ensures (m * p + o) / p == m + o / p
  {
    assert o == (o / p) * p + o % p;
    assert (m + o / p) * p == m * p + (o / p) * p;
    DivModUnique(m * p + o, p, m + o / p, o % p);
  }

  lemma TickTimeAt(points: seq<ExpiryPoint>, span: int, k: nat)
    requires |points| > 0
    ensures TickTime(points, span, k) == (k / |points|) * span + points[k % |points|].offset
  {
  }

  lemma SpanQuotient(x: Task, span: int, q: int, offset: int)
    requires Due(x, span)
    ensures (q * span + offset) / x.period == q * (span / x.period) + offset / x.period
  {
    var p := x.period;
    assert span == (span / p) * p;
    assert q * span == (q * (span / p)) * p;
    QuotientShift(q * (span / p), offset, p);
  }

  lemma QuotientStep(x: Task, span: int, q: int, a: int, b: int, now: int, next: int)
    requires Due(x, span) && now == q * span + a && next == q * span + b
    ensures next / x.period - now / x.period == b / x.period - a / x.period
  {
    SpanQuotient(x, span, q, a);
    SpanQuotient(x, span, q, b);
  }

  /** From a point to the next one in the same round, the quotient of the tick time grows with the releases. */
  lemma TickQuotient(ts: seq<Task>, d: nat, points: seq<ExpiryPoint>, span: int, x: Task, k: nat)
    requires IsTable(ts, d, points) && |points| > 0 && x in ts && Due(x, span) && k % |points| + 1 < |points|
    ensures TickTime(points, span, k + 1) / x.period ==
            TickTime(points, span, k) / x.period + if ReleasedAt(points, k + 1, x) then 1 else 0
  {
    hide IsTable, Due, TickTime;
    var q, i := k / |points|, k % |points|;
    TickTimeAt(points, span, k);
    TickTimeAt(points, span, k + 1);
    NextTick(|points|, k);
    TableFirstPoint(ts, d, points);
    OffsetQuotient(ts, d, points, x, i);
    QuotientStep(x, span, q, points[i].offset, points[i + 1].offset,
                 TickTime(points, span, k), TickTime(points, span, k + 1));
  }

  /**
   On a table that starts over at its last point, each new round releases a task once more at a time at
   which it has been released already.
   */
  lemma {:induction false} RestartingReleaseCount(ts: seq<Task>, d: nat, points: seq<ExpiryPoint>, last: int,
        x: Task, k: nat)
    requires IsTable(ts, d, points) && |points| > 0 && x in ts
    requires last == points[|points| - 1].offset && Due(x, last)
    ensures Releases(points, x, k + 1) == TickTime(points, last, k) / x.period + 1 + k / |points|
  {
    hide IsTable, TickTime, Due;
    var n := |points|;
    TableFirstPoint(ts, d, points);
    if k == 0 {
      TickIndex(points, last, 0, 0);
      assert Releases(points, x, 1) == 1;
    } else {
      RestartingReleaseCount(ts, d, points, last, x, k - 1);
      NextTick(n, k - 1);
      if (k - 1) % n + 1 == n {
        TickAdvance(points, last, k - 1);
      } else {
        TickQuotient(ts, d, points, last, x, k - 1);
      }
    }
  }
}
