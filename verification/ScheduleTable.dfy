/** struct schedule_table and its absolute timer: set_timer, start_timer and table_scheuler_update_timer. */
module ScheduleTables {
  import opened Tasks
  import opened Divisibility
  import opened TaskGrouping
  import opened ExpiryPoints
  import opened PeriodicRelease

  const NS_PER_SEC := 1_000_000_000
  const NS_PER_MS := 1_000_000

  datatype TimeSpec = TimeSpec(sec: int, nsec: int)

  datatype TableType = Periodic | SingleShot

  function MsToNs(ms: int): int { ms * NS_PER_MS }

  function TotalNs(t: TimeSpec): int { t.sec * NS_PER_SEC + t.nsec }

  /** What timerfd_settime accepts. */
  predicate Normalised(t: TimeSpec) { 0 <= t.nsec < NS_PER_SEC }

  /** The in-place update of set_timer, with its single carry. */
  function Advance(t: TimeSpec, ns: int): TimeSpec {
    if t.nsec + ns >= NS_PER_SEC then TimeSpec(t.sec + 1, t.nsec + ns - NS_PER_SEC)
    else TimeSpec(t.sec, t.nsec + ns)
  }

  /** The value start_timer stores, which has no carry. */
  function FirstExpiry(now: TimeSpec, ns: int): TimeSpec {
    TimeSpec(now.sec, now.nsec + if ns == 0 then 1 else ns)
  }

  /** The stored timer after `k` updates. */
  function TimerAfter(points: seq<ExpiryPoint>, span: int, start: TimeSpec, k: nat): TimeSpec
    requires |points| > 0
  {
    if k == 0 then start
    else Advance(TimerAfter(points, span, start, k - 1), MsToNs(Delay(points, span, (k - 1) % |points|)))
  }

  /** The timer never drifts: after k updates it stands exactly at the start plus the time of the k-th tick. */
  lemma {:induction false} TimerDriftFree(points: seq<ExpiryPoint>, span: int, start: TimeSpec, k: nat)
    requires |points| > 0
    ensures var t := TimerAfter(points, span, start, k);
            t.sec * 1_000_000_000 + t.nsec ==
            start.sec * 1_000_000_000 + start.nsec + 1_000_000 * (TickTime(points, span, k) - TickTime(points, span, 0))
  {
    if k > 0 {
      TimerDriftFree(points, span, start, k - 1);
      TickAdvance(points, span, k - 1);
    }
  }

  ghost predicate StaysNormalised(points: seq<ExpiryPoint>, span: int)
    requires |points| > 0
  {
    forall start: TimeSpec, k: nat :: Normalised(start) ==> Normalised(TimerAfter(points, span, start, k))
  }

  lemma SpanDelayPositive(ts: seq<Task>, d: nat, points: seq<ExpiryPoint>, i: nat)
    requires IsTable(ts, d, points) && i < |points|
    ensures Delay(points, RoundSpan(ts, d, points), i) >= if IsPeriodicTable(ts) || i + 1 < |points| then 1 else 0
  {
    TableHasPoints(ts, d, points);
    DelayPositive(ts, d, points, i);
  }

  lemma {:induction false} SmallDelaysStayNormalised(ts: seq<Task>, d: nat, points: seq<ExpiryPoint>,
        start: TimeSpec, k: nat)
    requires IsTable(ts, d, points) && |points| > 0 && Normalised(start)
    requires DelaysAtMost(points, RoundSpan(ts, d, points), 1000)
    ensures Normalised(TimerAfter(points, RoundSpan(ts, d, points), start, k))
  {
    hide IsTable, Delay, RoundSpan;
    if k > 0 {
      SmallDelaysStayNormalised(ts, d, points, start, k - 1);
      SpanDelayPositive(ts, d, points, (k - 1) % |points|);
    }
  }

  /** A longer delay breaks the carry on some start: the last nanosecond of a second when it is armed. */
  lemma LargeDelayOverflows(ts: seq<Task>, d: nat, points: seq<ExpiryPoint>)
    requires IsTable(ts, d, points) && |points| > 0
    requires !DelaysAtMost(points, RoundSpan(ts, d, points), 1000)
    ensures !StaysNormalised(points, RoundSpan(ts, d, points))
  {
    var span := RoundSpan(ts, d, points);
    var start := TimeSpec(0, NS_PER_SEC - 1);
    assert TimerAfter(points, span, start, 0) == start;
    if Delay(points, span, 0) > 1000 {
      assert !Normalised(TimerAfter(points, span, start, 1));
    } else {
      FirstDelayIsSmall(ts, d, points);
      DelaysAtMostIff(ts, d, points, 1000);
      assert false;
    }
  }

  /** If the first delay is within the bound then so is some period, or the duration. */
  lemma FirstDelayIsSmall(ts: seq<Task>, d: nat, points: seq<ExpiryPoint>)
    requires IsTable(ts, d, points) && |points| > 0 && Delay(points, RoundSpan(ts, d, points), 0) <= 1000
    ensures DelayBound(ts, d, 1000)
  {
    OnePointIff(ts, d, points);
    TableHasPoints(ts, d, points);
    if |points| > 1 {
      var x := SecondPoint(ts, d, points);
    }
  }

  /**
   A single carry keeps every timer normalised for ever, whatever its start, if and only if some task
   has a period of at most one second, or the duration is that short; a single-shot table with one
   expiry point needs no carry at all.
   */
  lemma StaysNormalisedIff(ts: seq<Task>, d: nat, points: seq<ExpiryPoint>)
    requires IsTable(ts, d, points)
    ensures |points| > 0
    ensures StaysNormalised(points, RoundSpan(ts, d, points)) <==> DelayBound(ts, d, 1000)
    ensures forall t: TimeSpec :: Normalised(t) <==> 0 <= t.nsec < 1_000_000_000
  {
    TableHasPoints(ts, d, points);
    DelaysAtMostIff(ts, d, points, 1000);
    if DelayBound(ts, d, 1000) {
      forall start: TimeSpec, k: nat | Normalised(start)
        ensures Normalised(TimerAfter(points, RoundSpan(ts, d, points), start, k))
      {
        SmallDelaysStayNormalised(ts, d, points, start, k);
      }
    } else {
      LargeDelayOverflows(ts, d, points);
    }
  }

  /** On a duration that reaches a period, as every computed one does, only the periods decide. */
  lemma PeriodsDecide(ts: seq<Task>, d: nat, bound: nat)
    requires IsPeriodicTable(ts) && exists x :: x in ts && x.period <= d
    ensures DelayBound(ts, d, bound) <==> SomePeriodAtMost(ts, bound)
  {
  }

  /** Every delay in ns fits a 32-bit int, in which MS_TO_NS multiplies, if and only if it is at most 2147 ms. */
  lemma ArmedDelayFits(ts: seq<Task>, d: nat, points: seq<ExpiryPoint>)
    requires IsTable(ts, d, points)
    ensures |points| > 0
    ensures (forall i :: 0 <= i < |points| ==>
               0 <= 1_000_000 * Delay(points, RoundSpan(ts, d, points), i) < 0x8000_0000)
            <==> DelayBound(ts, d, 2147)
  {
    TableHasPoints(ts, d, points);
    DelaysAtMostIff(ts, d, points, 2147);
    var span := RoundSpan(ts, d, points);
    forall i | 0 <= i < |points|
      ensures 0 <= 1_000_000 * Delay(points, span, i) < 0x8000_0000 <==> Delay(points, span, i) <= 2147
    {
      SpanDelayPositive(ts, d, points, i);
    }
  }

  /** start_timer stores a value the kernel accepts unless it is called in the last nanosecond of a second. */
  lemma FirstExpiryNormalisedIff(now: TimeSpec)
    requires Normalised(now)
    ensures FirstExpiry(now, 0).nsec < 1_000_000_000 <==> now.nsec != 999_999_999
  {
  }

  lemma NextIndex(n: nat, k: nat)
    requires n > 0
    ensures (k + 1) % n == (k % n + 1) % n == if k % n + 1 == n then 0 else k % n + 1
  {
    NextTick(n, k);
    if k % n + 1 == n {
      DivModUnique(n, n, 1, 0);
    } else {
      DivModUnique(k % n + 1, n, 0, k % n + 1);
    }
  }

  class ScheduleTable {
    const eps: seq<ExpiryPoint>
    const initialOffset: int
    const duration: nat
    const finalDelay: int
    const numEps: nat
    const tableType: TableType
    var nextEpIndex: nat
    var newTimer: TimeSpec
    ghost var ticks: nat
    ghost var start: TimeSpec

    /** The distance covered by one round of delays. */
    ghost function Span(): int
      requires |eps| > 0
    {
      if tableType == Periodic then duration else eps[|eps| - 1].offset
    }

    ghost predicate Shape() {
      && numEps == |eps| > 0
      && eps[0].offset == initialOffset == 0
      && finalDelay == duration - eps[numEps - 1].offset
      && IncreasingOffsets(eps)
    }

    ghost predicate Valid()
      reads `nextEpIndex, `ticks
    {
      Shape() && nextEpIndex == ticks % numEps
    }

    /** The timer has been started and holds the time of tick number `ticks`. */
    ghost predicate Armed()
      reads this
    {
      Valid() && newTimer == TimerAfter(eps, Span(), start, ticks)
    }

    constructor (ts: seq<Task>, d: nat)
      requires ts != [] && d > 0 && PositivePeriods(ts) && AscendingIds(ts)
      ensures Valid() && ticks == 0 && nextEpIndex == 0
      ensures duration == d && eps == Points(ts, d) && IsTable(ts, d, eps)
      ensures tableType == Periodic <==> ts[0].taskType == BasicPeriodic
      ensures Span() == RoundSpan(ts, d, eps)
    {
      hide Points, IsDueList, HasOffset, SomeDue;
      var points := BuildPoints(ts, d);
      PointsAreExpiryTable(ts, d);
      FirstPoint(ts, d, points[..]);
      eps := points[..];
      numEps := points.Length;
      initialOffset := points[0].offset;
      duration := d;
      finalDelay := d - points[points.Length - 1].offset;
      tableType := if ts[0].taskType == BasicPeriodic then Periodic else SingleShot;
      nextEpIndex := 0;
      ticks := 0;
    }

    method SetTimer(ns: int)
      modifies `newTimer
      ensures newTimer == Advance(old(newTimer), ns)
      ensures newTimer.sec * 1_000_000_000 + newTimer.nsec ==
              old(newTimer).sec * 1_000_000_000 + old(newTimer).nsec + ns
      ensures newTimer.sec == old(newTimer).sec + if old(newTimer).nsec + ns >= 1_000_000_000 then 1 else 0
    {
      newTimer := newTimer.(nsec := newTimer.nsec + ns);
      if newTimer.nsec >= NS_PER_SEC {
        newTimer := newTimer.(sec := newTimer.sec + 1);
        newTimer := newTimer.(nsec := newTimer.nsec - NS_PER_SEC);
      }
    }

    /** start_timer; `now` is the reading of the monotonic clock. */
    method StartTimer(now: TimeSpec, ns: int)
      modifies `newTimer
      ensures newTimer == FirstExpiry(now, ns)
      ensures newTimer.sec == now.sec && newTimer.nsec == now.nsec + if ns == 0 then 1 else ns
    {
      newTimer := now;
      if ns == 0 {
        newTimer := newTimer.(nsec := newTimer.nsec + 1);
      } else {
        newTimer := newTimer.(nsec := newTimer.nsec + ns);
      }
    }

    /** The share of this table in table_scheduler_start. */
    method Start(now: TimeSpec)
      requires Valid() && ticks == 0
      modifies `newTimer, `start
      ensures Armed() && TotalNs(start) == TotalNs(now) + 1
    {
      StartTimer(now, MsToNs(initialOffset));
      start := newTimer;
    }

    /** Arm the timer for the next expiry point; the wrap of a single-shot table arms a delay of 0. */
    method UpdateTimer()
      requires Valid()
      modifies `nextEpIndex, `newTimer, `ticks
      ensures Valid() && ticks == old(ticks) + 1
      ensures nextEpIndex == (old(nextEpIndex) + 1) % numEps
      ensures newTimer == Advance(old(newTimer), MsToNs(Delay(eps, Span(), old(nextEpIndex))))
      ensures old(Armed()) ==> Armed()
    {
      hide IncreasingOffsets, Advance, MsToNs;
      var current := nextEpIndex;
      nextEpIndex := (nextEpIndex + 1) % numEps;
      var next := nextEpIndex;
      NextIndex(numEps, ticks);
      var nextTime;
      if tableType == Periodic {
        nextTime := if next > current then eps[next].offset - eps[current].offset else finalDelay + initialOffset;
      } else {
        nextTime := if next > current then eps[next].offset - eps[current].offset else 0;
      }
      assert nextTime == Delay(eps, Span(), current);
      SetTimer(MsToNs(nextTime));
      ticks := ticks + 1;
    }

    /** Every armed timer is exactly the start plus the time of the coming tick. */
    lemma ArmedIsDriftFree()
      requires Armed()
      ensures TotalNs(newTimer) == TotalNs(start) + MsToNs(TickTime(eps, Span(), ticks))
    {
      TimerDriftFree(eps, Span(), start, ticks);
      TickIndex(eps, Span(), 0, 0);
    }
  }

  /**
   A single-shot table does not stop after its final expiry point: the tick after a full round
   falls at the time of the final point and releases every task again.
   */
  lemma SingleShotRestarts(ts: seq<Task>, d: nat, points: seq<ExpiryPoint>, last: int, round: nat)
    requires IsTable(ts, d, points) && |points| > 0 && round > 0
    requires ts[0].taskType == BasicSingleShot && last == RoundSpan(ts, d, points)
    ensures round * |points| > 0
    ensures TickTime(points, last, round * |points|) == TickTime(points, last, round * |points| - 1) == round * last
    ensures forall x :: x in ts ==> ReleasedAt(points, round * |points|, x)
  {
    FirstPoint(ts, d, points);
    var n := |points|;
    TickIndex(points, last, round, 0);
    TickIndex(points, last, round - 1, n - 1);
    assert (round - 1) * n == round * n - n;
    assert (round - 1) * last == round * last - last;
  }
}
