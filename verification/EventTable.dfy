/**
 The event hash table: list.h's hlist, whose nodes keep the address of the pointer that points to
 them, with register_event_table, unregister_event_table and the lookup of table_scheduler_schedule.
 */
module EventTable {
  import opened Tasks

  const TABLE_SIZE: nat := 100

  /** The process_event_func and the event index it is called with. */
  datatype Handler = ProcessTick(index: nat) | ProcessTaskEvent(index: nat) | ProcessIsrEvent(index: nat)

  datatype Entry = Entry(fd: nat, handler: Handler)

  // ----- chains of entries -----

  /** The handlers registered under `fd`, the latest first. */
  function HandlersOf(chain: seq<Entry>, fd: nat): seq<Handler> {
    if chain == [] then []
    else (if chain[0].fd == fd then [chain[0].handler] else []) + HandlersOf(chain[1..], fd)
  }

  function Find(chain: seq<Entry>, fd: nat): Option<Handler> {
    if chain == [] then None
    else if chain[0].fd == fd then Some(chain[0].handler)
    else Find(chain[1..], fd)
  }

  function RemoveFirst(chain: seq<Entry>, fd: nat): seq<Entry> {
    if chain == [] then []
    else if chain[0].fd == fd then chain[1..]
    else [chain[0]] + RemoveFirst(chain[1..], fd)
  }

  /** `i` is the position of the first entry for `fd`, or the length if there is none. */
  ghost predicate IsFirstAt(chain: seq<Entry>, fd: nat, i: nat) {
    && i <= |chain|
    && (forall k :: 0 <= k < i ==> chain[k].fd != fd)
    && (i < |chain| ==> chain[i].fd == fd)
  }

  lemma {:induction false} RemoveFirstAt(chain: seq<Entry>, fd: nat, i: nat)
    requires IsFirstAt(chain, fd, i)
    ensures RemoveFirst(chain, fd) == if i < |chain| then chain[..i] + chain[i + 1..] else chain
  {
    if i > 0 {
      var rest := chain[1..];
      RemoveFirstAt(rest, fd, i - 1);
      assert chain == [chain[0]] + rest;
      if i < |chain| {
        assert chain[..i] == [chain[0]] + rest[..i - 1] && chain[i + 1..] == rest[i..];
      }
    }
  }

  lemma {:induction false} FindIsLatest(chain: seq<Entry>, fd: nat)
    ensures Find(chain, fd) == if HandlersOf(chain, fd) == [] then None else Some(HandlersOf(chain, fd)[0])
  {
    if chain != [] && chain[0].fd != fd {
      FindIsLatest(chain[1..], fd);
    }
  }

  lemma {:induction false} RemoveFirstPops(chain: seq<Entry>, fd: nat, other: nat)
    ensures HandlersOf(RemoveFirst(chain, fd), other) ==
            if other == fd && HandlersOf(chain, fd) != [] then HandlersOf(chain, fd)[1..] else HandlersOf(chain, other)
  {
    if chain != [] && chain[0].fd != fd {
      var rest := chain[1..];
      RemoveFirstPops(rest, fd, other);
      assert RemoveFirst(chain, fd)[1..] == RemoveFirst(rest, fd);
    }
  }

  // ----- runs of the table against a map -----

  datatype Op = Register(fd: nat, handler: Handler) | Unregister(fd: nat)

  type Chains = s: seq<seq<Entry>> | |s| == TABLE_SIZE witness seq(TABLE_SIZE, _ => [])

  function Apply(chains: Chains, op: Op): Chains {
    var b := op.fd % TABLE_SIZE;
    match op
    case Register(fd, handler) => chains[b := [Entry(fd, handler)] + chains[b]]
    case Unregister(fd) => chains[b := RemoveFirst(chains[b], fd)]
  }

  function RunTable(ops: seq<Op>): Chains {
    if ops == [] then seq(TABLE_SIZE, _ => []) else Apply(RunTable(ops[..|ops| - 1]), ops[|ops| - 1])
  }

  /** The reference: per file descriptor a stack of handlers, and no hashing. */
  function RunMap(ops: seq<Op>, fd: nat): seq<Handler> {
    if ops == [] then []
    else
      var n := |ops| - 1;
      var before := RunMap(ops[..n], fd);
      if ops[n].fd != fd then before
      else
        match ops[n]
        case Register(_, handler) => [handler] + before
        case Unregister(_) => if before == [] then [] else before[1..]
  }

  lemma ApplyRefines(chains: Chains, op: Op, fd: nat)
    ensures var before := HandlersOf(chains[fd % TABLE_SIZE], fd);
            HandlersOf(Apply(chains, op)[fd % TABLE_SIZE], fd) ==
              if op.fd != fd then before
              else if op.Register? then [op.handler] + before
              else if before == [] then [] else before[1..]
  {
    var b := fd % TABLE_SIZE;
    if op.fd % TABLE_SIZE == b {
      match op
      case Register(f, handler) =>
        assert ([Entry(f, handler)] + chains[b])[1..] == chains[b];
      case Unregister(f) => RemoveFirstPops(chains[b], f, fd);
    }
  }

  /**
   After any sequence of registrations and removals a lookup finds exactly the handler that was
   registered last and not yet removed for that descriptor, collisions and re-registrations included.
   */
  lemma {:induction false} TableRefinesMap(ops: seq<Op>, fd: nat)
    ensures HandlersOf(RunTable(ops)[fd % TABLE_SIZE], fd) == RunMap(ops, fd)
    ensures Find(RunTable(ops)[fd % TABLE_SIZE], fd) == if RunMap(ops, fd) == [] then None else Some(RunMap(ops, fd)[0])
  {
    if ops != [] {
      var n := |ops| - 1;
      TableRefinesMap(ops[..n], fd);
      ApplyRefines(RunTable(ops[..n]), ops[n], fd);
    }
    FindIsLatest(RunTable(ops)[fd % TABLE_SIZE], fd);
  }

  // ----- the hlist on the heap -----

  /** The address kept in `pprev`: a list's `first`, or the `next` of another node. */
  datatype Slot = Null | FirstOf(head: HList) | NextOf(node: HNode)

  class HNode {
    const entry: Entry
    var next: HNode?
    var pprev: Slot

    constructor (entry: Entry)
      ensures this.entry == entry
    {
      this.entry := entry;
      next := null;
      pprev := Null;
    }
  }

  function EntriesOf(nodes: seq<HNode>): (es: seq<Entry>)
    ensures |es| == |nodes|
    ensures forall i :: 0 <= i < |nodes| ==> es[i] == nodes[i].entry
  {
    seq(|nodes|, i requires 0 <= i < |nodes| => nodes[i].entry)
  }

  function NodeAt(nodes: seq<HNode>, i: nat): HNode? {
    if i < |nodes| then nodes[i] else null
  }

  /** The address of the pointer that leads to position `i`. */
  function SlotAt(head: HList, nodes: seq<HNode>, i: nat): Slot
    requires i <= |nodes|
  {
    if i == 0 then FirstOf(head) else NextOf(nodes[i - 1])
  }

  lemma RemovedAt(nodes: seq<HNode>, i: nat)
    requires NoDuplicates(nodes) && i < |nodes|
    ensures var r := nodes[..i] + nodes[i + 1..];
            NoDuplicates(r) && nodes[i] !in r && forall n :: n in r ==> n in nodes
  {
  }

  lemma RemovedMembers(nodes: seq<HNode>, i: nat)
    requires i < |nodes|
    ensures forall n :: n in nodes[..i] + nodes[i + 1..] ==> n in nodes
    ensures EntriesOf(nodes[..i] + nodes[i + 1..]) == EntriesOf(nodes)[..i] + EntriesOf(nodes)[i + 1..]
  {
  }

  lemma IndexDistinct(nodes: seq<HNode>, i: nat)
    requires NoDuplicates(nodes) && i < |nodes|
    ensures forall k :: 0 <= k < |nodes| && k != i ==> nodes[k] != nodes[i]
  {
  }

  /** struct hlist_head */
  class HList {
    var first: HNode?
    ghost var nodes: seq<HNode>

    /** `first` leads through `next` along `nodes`, and every `pprev` is the address of the pointer before it. */
    ghost predicate Valid()
      reads this, nodes`next, nodes`pprev
    {
      && NoDuplicates(nodes)
      && first == NodeAt(nodes, 0)
      && (forall i {:trigger nodes[i].next} :: 0 <= i < |nodes| ==> nodes[i].next == NodeAt(nodes, i + 1))
      && (forall i {:trigger nodes[i].pprev} :: 0 <= i < |nodes| ==> nodes[i].pprev == SlotAt(this, nodes, i))
    }

    /** INIT_HLIST_HEAD */
    constructor ()
      ensures Valid() && nodes == []
    {
      first := null;
      nodes := [];
    }

    /** hlist_add_head */
    method AddHead(n: HNode)
      requires Valid() && n !in nodes
      modifies this, n`next, n`pprev, nodes`pprev
      ensures Valid() && nodes == [n] + old(nodes)
    {
      n.next := first;
      if first != null {
        first.pprev := NextOf(n);
      }
      first := n;
      n.pprev := FirstOf(this);
      nodes := [n] + nodes;
    }

    /** The links of `before` once node `i` has been bypassed. */
    ghost predicate BypassedAt(before: seq<HNode>, i: nat)
      requires i < |before|
      reads before`next, before`pprev
    {
      && (forall k {:trigger before[k].next} :: 0 <= k < |before| && k != i ==>
            before[k].next == NodeAt(before, if k + 1 == i then i + 1 else k + 1))
      && (forall k {:trigger before[k].pprev} :: 0 <= k < |before| && k != i ==>
            before[k].pprev == SlotAt(this, before, if k == i + 1 then i else k))
    }

    /** The write `*pprev = next` for the pointer that leads to position `i`. */
    method WriteThrough(pprev: Slot, next: HNode?, ghost i: nat)
      requires Valid() && i < |nodes| && pprev == SlotAt(this, nodes, i) && next == NodeAt(nodes, i + 1)
      modifies `first, nodes`next
      ensures first == if i == 0 then next else old(first)
      ensures forall k {:trigger nodes[k].next} :: 0 <= k < |nodes| && k != i ==>
                nodes[k].next == NodeAt(nodes, if k + 1 == i then i + 1 else k + 1)
    {
      match pprev {
        case FirstOf(head) => head.first := next;
        case NextOf(node) =>
          IndexDistinct(nodes, i - 1);
          node.next := next;
        case Null =>
      }
    }

    /** __hlist_del: the node is unlinked through the pointer that leads to it. */
    method Unlink(n: HNode, ghost i: nat)
      requires Valid() && i < |nodes| && n == nodes[i]
      modifies `first, nodes
      ensures BypassedAt(nodes, i) && first == if i == 0 then NodeAt(nodes, 1) else old(first)
    {
      var next, pprev := n.next, n.pprev;
      assert next == NodeAt(nodes, i + 1) && pprev == SlotAt(this, nodes, i);
      WriteThrough(pprev, next, i);
      if next != null {
        IndexDistinct(nodes, i + 1);
        next.pprev := pprev;
      }
    }

    lemma BypassedLinks(before: seq<HNode>, i: nat)
      requires i < |before| && BypassedAt(before, i)
      ensures var r := before[..i] + before[i + 1..];
              && (forall k {:trigger r[k].next} :: 0 <= k < |r| ==> r[k].next == NodeAt(r, k + 1))
              && (forall k {:trigger r[k].pprev} :: 0 <= k < |r| ==> r[k].pprev == SlotAt(this, r, k))
    {
    }

    /** hlist_del */
    method Delete(n: HNode, ghost i: nat)
      requires Valid() && i < |nodes| && n == nodes[i]
      modifies this, nodes
      ensures Valid() && nodes == old(nodes)[..i] + old(nodes)[i + 1..]
      ensures n.next == null && n.pprev == Null
    {
      ghost var before := nodes;
      RemovedAt(before, i);
      Unlink(n, i);
      BypassedLinks(before, i);
      nodes := before[..i] + before[i + 1..];
      n.next := null;
      n.pprev := Null;
    }
  }

  class EventHashtable {
    const buckets: seq<HList>
    ghost var chains: Chains
    ghost var repr: set<HNode>

    /** Bucket `b` is a proper list of the entries `chain`, on nodes of its own. */
    ghost predicate BucketOk(b: nat, chain: seq<Entry>)
      requires b < |buckets|
      reads buckets[b], buckets[b].nodes`next, buckets[b].nodes`pprev
    {
      buckets[b].Valid() && EntriesOf(buckets[b].nodes) == chain
    }

    ghost predicate NodesApart()
      reads `repr, buckets`nodes
    {
      && NoDuplicates(buckets)
      && (forall b, n :: 0 <= b < |buckets| && n in buckets[b].nodes ==> n in repr)
      && forall b, d, n :: 0 <= b < |buckets| && 0 <= d < |buckets| && b != d && n in buckets[b].nodes ==>
           n !in buckets[d].nodes
    }

    ghost predicate Valid()
      reads this, buckets, repr
    {
      |buckets| == TABLE_SIZE && NodesApart() && forall b :: 0 <= b < TABLE_SIZE ==> BucketOk(b, chains[b])
    }

    constructor ()
      ensures Valid() && chains == RunTable([])
    {
      var heads: seq<HList> := [];
      for i := 0 to TABLE_SIZE
        invariant |heads| == i && NoDuplicates(heads)
        invariant forall k :: 0 <= k < i ==> fresh(heads[k]) && heads[k].Valid() && heads[k].nodes == []
      {
        var head := new HList();
        heads := heads + [head];
      }
      buckets := heads;
      chains := RunTable([]);
      repr := {};
    }

    lemma BucketsApart(b: nat)
      requires NodesApart() && b < |buckets|
      ensures forall d :: 0 <= d < |buckets| && d != b ==> buckets[d] != buckets[b]
      ensures forall d, n :: 0 <= d < |buckets| && d != b && n in buckets[d].nodes ==> n !in buckets[b].nodes
      ensures forall n :: n in buckets[b].nodes ==> n in repr
    {
    }

    /** hlist_add_head on bucket `b` leaves every other bucket alone. */
    method AddToBucket(b: nat, node: HNode)
      requires Valid() && b < TABLE_SIZE && node !in repr
      modifies this, buckets, repr, node
      ensures |buckets| == TABLE_SIZE && NodesApart() && chains == old(chains)
      ensures BucketOk(b, [node.entry] + chains[b])
      ensures forall d :: 0 <= d < TABLE_SIZE && d != b ==> BucketOk(d, chains[d])
    {
      hide HList.Valid;
      BucketsApart(b);
      var list := buckets[b];
      assert BucketOk(b, chains[b]);
      assert forall i :: 0 <= i < |list.nodes| ==> list.nodes[i] in repr;
      list.AddHead(node);
      repr := repr + {node};
      forall d | 0 <= d < TABLE_SIZE && d != b
        ensures BucketOk(d, chains[d])
      {
        assert old(BucketOk(d, chains[d]));
        assert buckets[d] != list && buckets[d].nodes == old(buckets[d].nodes);
        assert forall k :: 0 <= k < |buckets[d].nodes| ==>
          buckets[d].nodes[k] in old(buckets[d].nodes) && buckets[d].nodes[k] != node;
        assert buckets[d].Valid();
      }
    }

    /** register_event_table */
    method RegisterEvent(fd: nat, handler: Handler)
      requires Valid()
      modifies this, buckets, repr
      ensures Valid() && chains == Apply(old(chains), Register(fd, handler))
    {
      hide NodesApart, BucketOk;
      var node := new HNode(Entry(fd, handler));
      AddToBucket(fd % TABLE_SIZE, node);
      chains := Apply(chains, Register(fd, handler));
    }

    /** The lookup in table_scheduler_schedule. */
    method Lookup(fd: nat) returns (handler: Option<Handler>)
      requires Valid()
      ensures handler == Find(chains[fd % TABLE_SIZE], fd)
    {
      var b := fd % TABLE_SIZE;
      assert BucketOk(b, chains[b]);
      ghost var i, chain := 0, chains[b];
      var pos := buckets[b].first;
      while pos != null
        invariant i <= |chain| && pos == NodeAt(buckets[b].nodes, i)
        invariant Find(chain[i..], fd) == Find(chain, fd)
        decreases |chain| - i
      {
        assert chain[i..][0] == pos.entry && chain[i..][1..] == chain[i + 1..];
        if pos.entry.fd == fd {
          return Some(pos.entry.handler);
        }
        pos := pos.next;
        i := i + 1;
      }
      handler := None;
    }

    /** The search in unregister_event_table. */
    method FindNode(b: nat, fd: nat) returns (pos: HNode?, ghost i: nat)
      requires Valid() && b < TABLE_SIZE
      ensures IsFirstAt(chains[b], fd, i) && pos == NodeAt(buckets[b].nodes, i)
      ensures |chains[b]| == |buckets[b].nodes|
    {
      assert BucketOk(b, chains[b]);
      i := 0;
      pos := buckets[b].first;
      while pos != null && pos.entry.fd != fd
        invariant i <= |chains[b]| && pos == NodeAt(buckets[b].nodes, i)
        invariant forall k :: 0 <= k < i ==> chains[b][k].fd != fd
        decreases |chains[b]| - i
      {
        pos := pos.next;
        i := i + 1;
      }
    }

    /** hlist_del on bucket `b` leaves every other bucket alone. */
    method RemoveFromBucket(b: nat, node: HNode, ghost i: nat)
      requires Valid() && b < TABLE_SIZE && i < |buckets[b].nodes| && node == buckets[b].nodes[i]
      modifies buckets, repr
      ensures |buckets| == TABLE_SIZE && NodesApart() && i < |chains[b]|
      ensures BucketOk(b, chains[b][..i] + chains[b][i + 1..])
      ensures forall d :: 0 <= d < TABLE_SIZE && d != b ==> BucketOk(d, chains[d])
    {
      hide HList.Valid;
      BucketsApart(b);
      var list := buckets[b];
      assert BucketOk(b, chains[b]);
      assert forall k :: 0 <= k < |list.nodes| ==> list.nodes[k] in repr;
      RemovedMembers(list.nodes, i);
      list.Delete(node, i);
      forall d | 0 <= d < TABLE_SIZE && d != b
        ensures BucketOk(d, chains[d])
      {
        assert old(BucketOk(d, chains[d]));
        assert buckets[d] != list && buckets[d].nodes == old(buckets[d].nodes);
        assert forall k :: 0 <= k < |buckets[d].nodes| ==> buckets[d].nodes[k] in old(buckets[d].nodes);
        assert buckets[d].Valid();
      }
    }

    /** unregister_event_table */
    method UnregisterEvent(fd: nat)
      requires Valid()
      modifies this, buckets, repr
      ensures Valid() && chains == Apply(old(chains), Unregister(fd))
    {
      hide NodesApart, BucketOk, RemoveFirst;
      var b := fd % TABLE_SIZE;
      ghost var i;
      var pos;
      pos, i := FindNode(b, fd);
      RemoveFirstAt(chains[b], fd, i);
      if pos != null {
        RemoveFromBucket(b, pos, i);
      }
      chains := Apply(chains, Unregister(fd));
    }
  }
}
