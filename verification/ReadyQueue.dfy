/**
 The ready queue on the heap: list.h's circular doubly linked list, with task_enqueue_check and
 task_dequeue of table_scheduler.c working on the links in place.
 */
module ReadyQueues {
  import opened Tasks
  import opened QueueOrder

  /** A task_struct with its embedded list_head; the queue's own head is a node whose task is never looked at. */
  class Node {
    const task: Task
    var taskState: TaskState
    var inReadyQueue: bool
    var next: Node?
    var prev: Node?

    constructor (task: Task)
      ensures this.task == task && taskState == TaskInit && !inReadyQueue
    {
      this.task := task;
      taskState := TaskInit;
      inReadyQueue := false;
      next, prev := null, null;
    }
  }

  /** The node after position `i` of a ring, closing at its first node. */
  ghost function Succ(ring: seq<Node>, i: nat): Node
    requires i < |ring|
  {
    if i + 1 < |ring| then ring[i + 1] else ring[0]
  }

  /** Following next goes once around `ring`, and prev is its inverse. */
  ghost predicate Linked(ring: seq<Node>)
    reads ring`next, ring`prev
  {
    && |ring| > 0
    && NoDuplicates(ring)
    && forall i :: 0 <= i < |ring| ==> ring[i].next == Succ(ring, i) && Succ(ring, i).prev == ring[i]
  }

  function TasksOf(nodes: seq<Node>): (ts: seq<Task>)
    ensures |ts| == |nodes|
    ensures forall i :: 0 <= i < |nodes| ==> ts[i] == nodes[i].task
  {
    seq(|nodes|, i requires 0 <= i < |nodes| => nodes[i].task)
  }

  lemma RingInsert(ring: seq<Node>, k: nat, node: Node)
    requires NoDuplicates(ring) && node !in ring && k <= |ring|
    ensures NoDuplicates(ring[..k] + [node] + ring[k..])
  {
  }

  lemma SuccDistinct(ring: seq<Node>, i: nat, j: nat)
    requires NoDuplicates(ring) && i < |ring| && j < |ring| && i != j
    ensures ring[i] != ring[j] && Succ(ring, i) != Succ(ring, j)
  {
  }

  lemma SpliceMembers(s: seq<Node>, k: nat, node: Node)
    requires k <= |s|
    ensures forall n :: n in s[..k] + [node] + s[k..] <==> n in s || n == node
  {
  }

  lemma SpliceRing(head: Node, s: seq<Node>, k: nat, node: Node)
    requires k <= |s|
    ensures var ring := [head] + s;
            ring[..k + 1] + [node] + ring[k + 1..] == [head] + (s[..k] + [node] + s[k..])
  {
  }

  lemma DropFirst(head: Node, s: seq<Node>)
    requires |s| > 0
    ensures ([head] + s)[..1] + ([head] + s)[2..] == [head] + s[1..]
    ensures forall n :: n in s <==> n == s[0] || n in s[1..]
    ensures NoDuplicates([head] + s) ==> s[0] != head && s[0] !in s[1..]
  {
    assert s == [s[0]] + s[1..];
    var ring := [head] + s;
    assert ring[0] == head && ring[1] == s[0] && forall i :: 1 <= i < |s| ==> s[i] == ring[i + 1];
  }

  lemma SpliceTasks(s: seq<Node>, k: nat, node: Node)
    requires k == InsertPos(TasksOf(s), node.task)
    ensures TasksOf(s[..k] + [node] + s[k..]) == Insert(TasksOf(s), node.task)
  {
  }

  /** __list_add */
  method LinkBetween(node: Node, prev: Node, next: Node)
    requires node != prev && node != next
    modifies next`prev, node`next, node`prev, prev`next
    ensures prev.next == node && node.prev == prev && node.next == next && next.prev == node
  {
    next.prev := node;
    node.next := next;
    node.prev := prev;
    prev.next := node;
  }

  /** list_add_tail: the new node goes directly before `pos`, which follows position `k` of the ring. */
  method ListAddTail(node: Node, pos: Node, ghost ring: seq<Node>, ghost k: nat)
    requires Linked(ring) && node !in ring && k < |ring|
    requires pos == Succ(ring, k)
    modifies ring`next, ring`prev, node`next, node`prev
    ensures Linked(ring[..k + 1] + [node] + ring[k + 1..])
  {
    ghost var r := ring[..k + 1] + [node] + ring[k + 1..];
    assert pos.prev == ring[k];
    RingInsert(ring, k + 1, node);
    LinkBetween(node, pos.prev, pos);
    forall i | 0 <= i < |r|
      ensures r[i].next == Succ(r, i) && Succ(r, i).prev == r[i]
    {
      if i < k {
        SuccDistinct(ring, i, k);
        assert r[i] == ring[i] && Succ(r, i) == Succ(ring, i);
      } else if i > k + 1 {
        SuccDistinct(ring, i - 1, k);
        assert r[i] == ring[i - 1] && Succ(r, i) == Succ(ring, i - 1);
      }
    }
  }

  lemma RingRemove(ring: seq<Node>, k: nat)
    requires NoDuplicates(ring) && 0 < k < |ring|
    ensures NoDuplicates(ring[..k] + ring[k + 1..])
  {
  }

  /** list_del of any entry behind the head, which is position `k` of the ring. */
  method ListDel(entry: Node, ghost ring: seq<Node>, ghost k: nat)
    requires Linked(ring) && 0 < k < |ring| && entry == ring[k]
    modifies ring`next, ring`prev
    ensures Linked(ring[..k] + ring[k + 1..])
    ensures entry.next == null && entry.prev == null
  {
    hide NoDuplicates;
    ghost var r := ring[..k] + ring[k + 1..];
    RingRemove(ring, k);
    SuccDistinct(ring, k - 1, k);
    ghost var after := Succ(ring, k);
    assert ring[k - 1].next == entry == Succ(ring, k - 1) && entry.prev == ring[k - 1];
    assert entry.next == after;
    entry.next.prev := entry.prev;
    entry.prev.next := entry.next;
    entry.next := null;
    entry.prev := null;
    forall i | 0 <= i < |r|
      ensures r[i].next == Succ(r, i) && Succ(r, i).prev == r[i]
    {
      if i == k - 1 {
        assert Succ(r, i) == after;
      } else {
        var j := if i < k then i else i + 1;
        SuccDistinct(ring, j, k - 1);
        SuccDistinct(ring, j, k);
        assert r[i] == ring[j] && Succ(r, i) == Succ(ring, j);
      }
    }
  }

  class ReadyQueue {
    const head: Node
    ghost var elems: seq<Node>

    ghost function Ring(): seq<Node>
      reads this
    {
      [head] + elems
    }

    ghost predicate Valid()
      reads this, head`next, head`prev, elems`next, elems`prev, elems`inReadyQueue
    {
      Linked(Ring()) && forall n :: n in elems ==> n.inReadyQueue
    }

    ghost function Contents(): seq<Task>
      reads this
    {
      TasksOf(elems)
    }

    /** INIT_LIST_HEAD */
    constructor ()
      ensures Valid() && elems == [] && fresh(head)
    {
      var h := new Node(Task(0, 0, 1, 0, BasicPeriodic));
      h.next := h;
      h.prev := h;
      head := h;
      elems := [];
    }

    method IsEmpty() returns (empty: bool)
      requires Valid()
      ensures empty <==> Contents() == []
    {
      assert Ring()[0].next == Succ(Ring(), 0);
      empty := head.next == head;
    }

    /** The search of task_enqueue_check: the first node whose task has to run after `task`, or the head. */
    method FindSuccessor(task: Task) returns (pos: Node, ghost i: nat)
      requires Linked(Ring())
      ensures i == InsertPos(Contents(), task) && pos == Succ(Ring(), i)
      ensures forall j :: 0 <= j < i ==>
                var y := Contents()[j];
                y.priority < task.priority || (y.priority == task.priority && y.period <= task.period)
      ensures pos != head ==>
                task.priority < pos.task.priority ||
                (task.priority == pos.task.priority && task.period < pos.task.period)
    {
      ghost var ring, tasks := Ring(), Contents();
      assert ring[0].next == Succ(ring, 0);
      pos := head.next;
      i := 0;
      while pos != head
        invariant i <= |elems| && pos == Succ(ring, i)
        invariant forall j :: 0 <= j < i ==> !Before(task, tasks[j])
        decreases |elems| - i
      {
        assert pos == elems[i];
        if Before(task, pos.task) {
          break;
        }
        assert ring[i + 1].next == Succ(ring, i + 1);
        pos := pos.next;
        i := i + 1;
      }
      assert i < |elems| ==> pos == ring[i + 1] != ring[0];
      InsertPosUnique(tasks, task, i);
    }

    /** The insertion at the end of task_enqueue_check. */
    method InsertNode(node: Node)
      requires Linked(Ring()) && node !in Ring()
      modifies this`elems, head`next, head`prev, elems`next, elems`prev, node`next, node`prev
      ensures Linked(Ring())
      ensures Contents() == Insert(old(Contents()), node.task)
      ensures forall n :: n in elems <==> n in old(elems) || n == node
    {
      hide Linked, Insert, InsertPos;
      ghost var ring := Ring();
      ghost var i;
      var pos;
      pos, i := FindSuccessor(node.task);
      SpliceMembers(elems, i, node);
      SpliceTasks(elems, i, node);
      SpliceRing(head, elems, i, node);
      ListAddTail(node, pos, ring, i);
      elems := elems[..i] + [node] + elems[i..];
    }

    /** task_enqueue_check: `exits` is the source's exit(-1) on a task that is still queued. */
    method EnqueueCheck(node: Node) returns (exits: bool)
      requires Valid() && node != head
      requires node.inReadyQueue <==> node in elems
      modifies this`elems, head`next, head`prev, elems`next, elems`prev
      modifies node`next, node`prev, node`inReadyQueue
      ensures Valid()
      ensures exits <==> old(node.inReadyQueue)
      ensures exits ==> elems == old(elems)
      ensures node.inReadyQueue
      ensures !exits ==> Contents() == Insert(old(Contents()), node.task)
      ensures !exits ==> forall n :: n in elems <==> n in old(elems) || n == node
    {
      hide Linked;
      exits := node.inReadyQueue;
      if !exits {
        node.inReadyQueue := true;
        InsertNode(node);
      }
    }

    /** The unlinking of the first entry in task_dequeue. */
    method UnlinkFirst() returns (node: Node)
      requires Linked(Ring()) && elems != []
      modifies this`elems, head`next, head`prev, elems`next, elems`prev
      ensures Linked(Ring())
      ensures node == old(elems)[0] && elems == old(elems)[1..] && node !in elems
      ensures node.next == null && node.prev == null
    {
      ghost var ring := Ring();
      assert ring[0].next == Succ(ring, 0) == elems[0];
      DropFirst(head, elems);
      assert NoDuplicates(ring);
      hide Linked, NoDuplicates;
      node := head.next;
      ListDel(node, ring, 1);
      elems := elems[1..];
    }

    /** task_dequeue */
    method Dequeue() returns (node: Node?)
      requires Valid()
      modifies this`elems, head`next, head`prev, elems`next, elems`prev, elems`inReadyQueue
      ensures Valid()
      ensures node == null <==> old(elems) == []
      ensures node == null ==> elems == []
      ensures node != null ==> node == old(elems)[0] && elems == old(elems)[1..]
      ensures node != null ==> !node.inReadyQueue && node !in elems && node.next == null && node.prev == null
      ensures forall n :: n in old(elems) && n != node ==> n.inReadyQueue == old(n.inReadyQueue)
    {
      var empty := IsEmpty();
      if empty {
        return null;
      }
      hide Linked;
      node := UnlinkFirst();
      node.inReadyQueue := false;
    }
  }
}
