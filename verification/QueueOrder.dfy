/**
 The order of the ready queue on sequences: insertion before the first task that must run later,
 and why that is the one stable order by (priority, period).
 */
module QueueOrder {
  import opened Tasks
  import opened TaskGrouping
  import opened ExpiryPoints

  /** `x` has to run before `y`: a smaller priority value, or the same value and a smaller period. */
  predicate Before(x: Task, y: Task) {
    x.priority < y.priority || (x.priority == y.priority && x.period < y.period)
  }

  predicate SameKey(x: Task, y: Task) {
    x.priority == y.priority && x.period == y.period
  }

  ghost predicate Sorted(q: seq<Task>) {
    forall i, j :: 0 <= i < j < |q| ==> !Before(q[j], q[i])
  }

  /** The first position whose task has to run after `x`. */
  function InsertPos(q: seq<Task>, x: Task): (pos: nat)
    ensures pos <= |q|
    ensures forall i :: 0 <= i < pos ==>
              q[i].priority < x.priority || (q[i].priority == x.priority && q[i].period <= x.period)
    ensures pos < |q| ==>
              x.priority < q[pos].priority || (x.priority == q[pos].priority && x.period < q[pos].period)
  {
    if q == [] || Before(x, q[0]) then 0 else 1 + InsertPos(q[1..], x)
  }

  function Insert(q: seq<Task>, x: Task): (r: seq<Task>)
    ensures |r| == |q| + 1
  {
    var pos := InsertPos(q, x);
    q[..pos] + [x] + q[pos..]
  }

  lemma InsertPosUnique(q: seq<Task>, x: Task, pos: nat)
    requires pos <= |q|
    requires forall i :: 0 <= i < pos ==> !Before(x, q[i])
    requires pos < |q| ==> Before(x, q[pos])
    ensures pos == InsertPos(q, x)
  {
  }

  lemma InsertMembers(q: seq<Task>, x: Task)
    ensures multiset(Insert(q, x)) == multiset(q) + multiset{x}
    ensures forall y :: y in Insert(q, x) <==> y in q || y == x
  {
    var pos := InsertPos(q, x);
    assert q == q[..pos] + q[pos..];
    assert forall y :: y in q <==> y in q[..pos] || y in q[pos..];
  }

  lemma InsertNoDuplicates(q: seq<Task>, x: Task)
    requires NoDuplicates(q) && x !in q
    ensures NoDuplicates(Insert(q, x))
  {
  }

  lemma InsertSorted(q: seq<Task>, x: Task)
    requires Sorted(q)
    ensures Sorted(Insert(q, x))
  {
  }

  /** Sortedness in the fields of the tasks: smaller priority values first, smaller periods within one value. */
  lemma SortedMeans(q: seq<Task>)
    ensures Sorted(q) <==>
            forall i, j :: 0 <= i < j < |q| ==>
              q[i].priority < q[j].priority || (q[i].priority == q[j].priority && q[i].period <= q[j].period)
  {
  }

  /** The tasks of `q` with the priority and period of `k`, in queue order. */
  function OfKey(q: seq<Task>, k: Task): seq<Task> {
    if q == [] then []
    else (if SameKey(q[0], k) then [q[0]] else []) + OfKey(q[1..], k)
  }

  lemma {:induction false} OfKeyConcat(p: seq<Task>, q: seq<Task>, k: Task)
    ensures OfKey(p + q, k) == OfKey(p, k) + OfKey(q, k)
  {
    if p == [] {
      assert p + q == q;
    } else {
      hide SameKey;
      OfKeyConcat(p[1..], q, k);
      assert (p + q)[1..] == p[1..] + q;
      var first := if SameKey(p[0], k) then [p[0]] else [];
      assert OfKey(p + q, k) == first + (OfKey(p[1..], k) + OfKey(q, k)) == (first + OfKey(p[1..], k)) + OfKey(q, k);
    }
  }

  lemma {:induction false} OfKeyEmpty(q: seq<Task>, k: Task)
    requires forall i :: 0 <= i < |q| ==> !SameKey(q[i], k)
    ensures OfKey(q, k) == []
  {
    if q != [] {
      OfKeyEmpty(q[1..], k);
    }
  }

  lemma OfKeyOne(x: Task, k: Task)
    ensures OfKey([x], k) == if SameKey(x, k) then [x] else []
  {
  }

  /** First in, first out among equals: insertion appends to the tasks of its own key and moves no other. */
  lemma InsertIsFifo(q: seq<Task>, x: Task, k: Task)
    requires Sorted(q)
    ensures OfKey(Insert(q, x), k) == OfKey(q, k) + if SameKey(x, k) then [x] else []
  {
    hide OfKey, InsertPos, Sorted, SameKey;
    var pos := InsertPos(q, x);
    var front, back := q[..pos], q[pos..];
    assert q == front + back;
    OfKeyConcat(front, back, k);
    OfKeyConcat(front + [x], back, k);
    OfKeyConcat(front, [x], k);
    OfKeyOne(x, k);
    if SameKey(x, k) {
      NoneOfKeyBehind(q, x, k);
      OfKeyEmpty(back, k);
    }
  }

  lemma NoneOfKeyBehind(q: seq<Task>, x: Task, k: Task)
    requires Sorted(q) && SameKey(x, k)
    ensures forall y :: y in q[InsertPos(q, x)..] ==> !SameKey(y, k)
  {
  }

  lemma {:induction false} OfKeyHead(q: seq<Task>, k: Task, i: nat)
    requires i < |q| && SameKey(q[i], k)
    ensures OfKey(q, k) != []
  {
    if i > 0 {
      OfKeyHead(q[1..], k, i - 1);
    }
  }

  lemma {:induction false} OfKeyMember(q: seq<Task>, k: Task)
    requires OfKey(q, k) != []
    ensures OfKey(q, k)[0] in q && SameKey(OfKey(q, k)[0], k)
  {
    if q != [] && !SameKey(q[0], k) {
      OfKeyMember(q[1..], k);
    }
  }

  lemma OnlyEmptyHasNoKeys(q: seq<Task>)
    requires forall k :: OfKey(q, k) == []
    ensures q == []
  {
    if q != [] {
      OfKeyHead(q, q[0], 0);
    }
  }

  /** The order of a sorted queue is settled by its per-key queues, so the insertion order is the only stable one. */
  lemma {:induction false} StableOrderUnique(p: seq<Task>, q: seq<Task>)
    requires Sorted(p) && Sorted(q)
    requires forall k :: OfKey(p, k) == OfKey(q, k)
    ensures p == q
  {
    if p == [] {
      OnlyEmptyHasNoKeys(q);
    } else if q == [] {
      OnlyEmptyHasNoKeys(p);
    } else {
      OfKeyHead(p, p[0], 0);
      OfKeyMember(q, p[0]);
      OfKeyHead(q, q[0], 0);
      OfKeyMember(p, q[0]);
      assert SameKey(p[0], q[0]) by {
        HeadIsLeast(p, OfKey(p, q[0])[0]);
        HeadIsLeast(q, OfKey(q, p[0])[0]);
      }
      assert p[0] == OfKey(p, p[0])[0] == OfKey(q, p[0])[0] == q[0];
      forall k
        ensures OfKey(p[1..], k) == OfKey(q[1..], k)
      {
        assert OfKey(p, k) == OfKey(q, k);
        if SameKey(p[0], k) {
          assert OfKey(p[1..], k) == OfKey(p, k)[1..];
          assert OfKey(q[1..], k) == OfKey(q, k)[1..];
        } else {
          assert OfKey(p, k) == [] + OfKey(p[1..], k) == OfKey(p[1..], k);
          assert OfKey(q, k) == [] + OfKey(q[1..], k) == OfKey(q[1..], k);
        }
      }
      StableOrderUnique(p[1..], q[1..]);
    }
  }

  lemma HeadIsLeast(q: seq<Task>, x: Task)
    requires Sorted(q) && x in q
    ensures !Before(x, q[0])
  {
  }

  // ----- whole expiry points -----

  function InsertAll(q: seq<Task>, ts: seq<Task>): seq<Task>
    decreases |ts|
  {
    if ts == [] then q else InsertAll(Insert(q, ts[0]), ts[1..])
  }

  lemma {:induction false} InsertAllMembers(q: seq<Task>, ts: seq<Task>)
    ensures forall y :: y in InsertAll(q, ts) <==> y in q || y in ts
    decreases |ts|
  {
    if ts != [] {
      InsertMembers(q, ts[0]);
      InsertAllMembers(Insert(q, ts[0]), ts[1..]);
      assert ts == [ts[0]] + ts[1..];
    }
  }

  /** Dispatch order of one release: by priority, then period, then latest configured first. */
  ghost predicate ReleaseOrdered(q: seq<Task>) {
    forall i, j :: 0 <= i < j < |q| ==> Before(q[i], q[j]) || (SameKey(q[i], q[j]) && q[i].id > q[j].id)
  }

  lemma {:induction false} InsertAllOrdered(q: seq<Task>, ts: seq<Task>)
    requires ReleaseOrdered(q) && DescendingIds(ts)
    requires forall x, y :: x in q && y in ts ==> x.id > y.id
    ensures ReleaseOrdered(InsertAll(q, ts))
    decreases |ts|
  {
    hide Insert, ReleaseOrdered;
    if ts != [] {
      var x, rest := ts[0], ts[1..];
      InsertMembers(q, x);
      InsertOrdered(q, x);
      assert forall y :: y in rest ==> y in ts && y.id < x.id;
      InsertAllOrdered(Insert(q, x), rest);
    }
  }

  lemma {:induction false} InsertAllKeeps(q: seq<Task>, ts: seq<Task>)
    ensures multiset(InsertAll(q, ts)) == multiset(q) + multiset(ts)
    decreases |ts|
  {
    hide Insert;
    if ts != [] {
      InsertMembers(q, ts[0]);
      InsertAllKeeps(Insert(q, ts[0]), ts[1..]);
      assert ts == [ts[0]] + ts[1..];
    }
  }

  lemma InsertOrdered(q: seq<Task>, x: Task)
    requires ReleaseOrdered(q) && forall y :: y in q ==> y.id > x.id
    ensures ReleaseOrdered(Insert(q, x))
  {
    var pos, r := InsertPos(q, x), Insert(q, x);
    forall i, j | 0 <= i < j < |r|
      ensures Before(r[i], r[j]) || (SameKey(r[i], r[j]) && r[i].id > r[j].id)
    {
      if j == pos {
        assert !Before(x, q[i]) && q[i] in q;
      } else if i == pos {
        assert j - 1 > pos ==> Before(q[pos], q[j - 1]) || SameKey(q[pos], q[j - 1]);
      }
    }
  }

  /** Releasing an expiry point onto an idle scheduler runs its tasks in release order. */
  lemma PointReleaseOrder(ts: seq<Task>, time: nat)
    requires PositivePeriods(ts) && AscendingIds(ts)
    ensures var q := InsertAll([], Bucket(ts, time));
            && multiset(q) == multiset(Bucket(ts, time))
            && forall i, j :: 0 <= i < j < |q| ==>
                 || q[i].priority < q[j].priority
                 || (q[i].priority == q[j].priority && q[i].period < q[j].period)
                 || (q[i].priority == q[j].priority && q[i].period == q[j].period && q[i].id > q[j].id)
  {
    BucketIsDueList(ts, time);
    InsertAllOrdered([], Bucket(ts, time));
    InsertAllKeeps([], Bucket(ts, time));
  }
}
