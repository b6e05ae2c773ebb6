/**
 The jitter buffer's queue (pkg/jitterbuffer/priority_queue.go): a doubly linked list of packets in the order of
 their sequence numbers. Every operation is tied to the same operation on the list of queued entries, and that
 list to a plain map from sequence numbers to packets.
 */
module PriorityQueues {
  import opened Words

  datatype Packet = Packet(timestamp: int, payload: seq<int>)

  datatype Result<T> = Ok(value: T) | ErrInvalidOperation | ErrNotFound

  datatype Entry = Entry(priority: Uint16, val: Packet)

  // -- The queue as a list of entries

  ghost predicate Sorted(q: seq<Entry>) {
    forall i, j :: 0 <= i < j < |q| ==> q[i].priority <= q[j].priority
  }

  ghost predicate Distinct(q: seq<Entry>) {
    forall i, j :: 0 <= i < j < |q| ==> q[i].priority != q[j].priority
  }

  /** `i` is the first position whose entry meets `p`, or the end. */
  ghost predicate IsFirst(q: seq<Entry>, p: Entry -> bool, i: nat) {
    && i <= |q|
    && (forall j :: 0 <= j < i ==> !p(q[j]))
    && (i < |q| ==> p(q[i]))
  }

  ghost function InsertAt<T>(q: seq<T>, i: nat, e: T): (r: seq<T>)
    requires i <= |q|
    ensures |r| == |q| + 1 && r[i] == e
    ensures forall j :: 0 <= j < i ==> r[j] == q[j]
    ensures forall j :: i < j < |r| ==> r[j] == q[j - 1]
  {
    q[..i] + [e] + q[i..]
  }

  ghost function RemoveAt<T>(q: seq<T>, i: nat): (r: seq<T>)
    requires i < |q|
    ensures |r| == |q| - 1
    ensures forall j :: 0 <= j < i ==> r[j] == q[j]
    ensures forall j :: i <= j < |r| ==> r[j] == q[j + 1]
  {
    q[..i] + q[i + 1..]
  }

  /** The operations, with their arguments. */
  datatype Op =
    | Push(val: Packet, number: Uint16)
    | Find(number: Uint16)
    | Pop
    | PopAt(number: Uint16)
    | PopAtTimestamp(timestamp: int)

  /** The entries an operation looks for; a push looks for its place. */
  predicate Wanted(op: Op, e: Entry) {
    match op
    case Push(_, number) => number <= e.priority
    case Find(number) => e.priority == number
    case Pop => true
    case PopAt(number) => e.priority == number
    case PopAtTimestamp(timestamp) => e.val.timestamp == timestamp
  }

  /** What an operation that takes a packet out, or finds it, answers when there is none. */
  function Nothing(op: Op, empty: bool): Result<Packet> {
    if empty && !op.Find? then ErrInvalidOperation else ErrNotFound
  }

  /** One operation on the list: it acts on the first entry wanted. */
  ghost predicate ListStep(q: seq<Entry>, op: Op, i: nat, after: seq<Entry>, r: Result<Packet>) {
    && IsFirst(q, (e: Entry) => Wanted(op, e), i)
    && if op.Push? then
         after == InsertAt(q, i, Entry(op.number, op.val))
       else if i == |q| then
         r == Nothing(op, q == []) && after == q
       else
         r == Ok(q[i].val) && after == if op.Find? then q else RemoveAt(q, i)
  }

  // -- The queue as a map

  /** The packets of a list of entries by their sequence numbers. */
  ghost function Contents(q: seq<Entry>): (m: map<Uint16, Packet>)
    requires Distinct(q)
    ensures forall i :: 0 <= i < |q| ==> q[i].priority in m && m[q[i].priority] == q[i].val
    ensures forall k :: k in m ==> exists i :: 0 <= i < |q| && q[i].priority == k
  {
    map i | 0 <= i < |q| :: q[i].priority := q[i].val
  }

  lemma InsertKeepsOrder(q: seq<Entry>, e: Entry, i: nat)
    requires Sorted(q) && IsFirst(q, (x: Entry) => e.priority <= x.priority, i)
    ensures Sorted(InsertAt(q, i, e))
    ensures Distinct(q) && (i < |q| ==> q[i].priority != e.priority) ==> Distinct(InsertAt(q, i, e))
  {
    hide InsertAt;
  }

  lemma InsertKey(q: seq<Entry>, e: Entry, i: nat, k: Uint16)
    requires i <= |q| && Distinct(q) && Distinct(InsertAt(q, i, e)) && e.priority !in Contents(q)
    ensures var before, after := Contents(q), Contents(InsertAt(q, i, e));
            && (k in after <==> k in before || k == e.priority)
            && (k in before ==> k in after && after[k] == before[k])
  {
    hide InsertAt, Contents, Distinct;
    var r := InsertAt(q, i, e);
    if k in Contents(q) {
      var j :| 0 <= j < |q| && q[j].priority == k;
      assert q[j] == r[if j < i then j else j + 1];
    }
    if k in Contents(r) {
      var j :| 0 <= j < |r| && r[j].priority == k;
      assert j == i || r[j] == q[if j < i then j else j - 1];
    }
    assert r[i] == e;
  }

  /** Inserting a new number before the first larger one extends the map. */
  lemma InsertIsUpdate(q: seq<Entry>, e: Entry, i: nat)
    requires Sorted(q) && Distinct(q) && e.priority !in Contents(q)
    requires IsFirst(q, (x: Entry) => e.priority <= x.priority, i)
    ensures Sorted(InsertAt(q, i, e)) && Distinct(InsertAt(q, i, e))
    ensures Contents(InsertAt(q, i, e)) == Contents(q)[e.priority := e.val]
  {
    hide InsertAt, Contents, Sorted;
    InsertKeepsOrder(q, e, i);
    var r := InsertAt(q, i, e);
    var before, after := Contents(q), Contents(r);
    forall k: Uint16
      ensures k in after <==> k in before || k == e.priority
      ensures k in before ==> k in after && after[k] == before[k]
    {
      InsertKey(q, e, i, k);
    }
    assert r[i].priority in after && after[r[i].priority] == e.val;
  }

  lemma RemoveKeepsOrder(q: seq<Entry>, i: nat)
    requires Sorted(q) && i < |q|
    ensures Sorted(RemoveAt(q, i)) && (Distinct(q) ==> Distinct(RemoveAt(q, i)))
  {
    hide RemoveAt;
  }

  lemma RemoveKey(q: seq<Entry>, i: nat, k: Uint16)
    requires i < |q| && Distinct(q) && Distinct(RemoveAt(q, i))
    ensures var before, after := Contents(q), Contents(RemoveAt(q, i));
            && (k in after <==> k in before && k != q[i].priority)
            && (k in after ==> after[k] == before[k])
  {
    hide RemoveAt, Contents;
    var r := RemoveAt(q, i);
    if k in Contents(q) && k != q[i].priority {
      var j :| 0 <= j < |q| && q[j].priority == k;
      assert q[j] == r[if j < i then j else j - 1];
    }
    if k in Contents(r) {
      var j :| 0 <= j < |r| && r[j].priority == k;
      assert r[j] == q[if j < i then j else j + 1];
    }
  }

  /** Removing an entry deletes its number from the map. */
  lemma RemoveIsDelete(q: seq<Entry>, i: nat)
    requires Sorted(q) && Distinct(q) && i < |q|
    ensures Sorted(RemoveAt(q, i)) && Distinct(RemoveAt(q, i))
    ensures Contents(RemoveAt(q, i)) == Contents(q) - {q[i].priority}
  {
    hide RemoveAt, Contents, Sorted, Distinct;
    RemoveKeepsOrder(q, i);
    var before, after := Contents(q), Contents(RemoveAt(q, i));
    forall k: Uint16
      ensures k in after <==> k in before && k != q[i].priority
      ensures k in after ==> after[k] == before[k]
    {
      RemoveKey(q, i, k);
    }
  }

  /** The head has the least of all numbers in the map. */
  lemma HeadIsLeast(q: seq<Entry>, k: Uint16)
    requires Sorted(q) && Distinct(q) && k in Contents(q)
    ensures q != [] && q[0].priority <= k
  {
    var j :| 0 <= j < |q| && q[j].priority == k;
  }

  /** The map decides the list: two strictly sorted lists with the same map are the same list. */
  lemma {:induction false} SortedListUnique(p: seq<Entry>, q: seq<Entry>)
    requires Sorted(p) && Distinct(p) && Sorted(q) && Distinct(q) && Contents(p) == Contents(q)
    ensures p == q
  {
    if p == [] {
      assert |q| == 0;
    } else {
      assert p[0].priority in Contents(q) && Contents(q)[p[0].priority] == p[0].val;
      HeadIsLeast(q, p[0].priority);
      assert q[0].priority in Contents(p) && Contents(q)[q[0].priority] == q[0].val;
      HeadIsLeast(p, q[0].priority);
      RemoveIsDelete(p, 0);
      RemoveIsDelete(q, 0);
      SortedListUnique(RemoveAt(p, 0), RemoveAt(q, 0));
      assert p == [p[0]] + RemoveAt(p, 0) && q == [q[0]] + RemoveAt(q, 0);
    }
  }

  /** `k` is the least number of the map whose packet an operation wants. */
  ghost predicate IsLeast(m: map<Uint16, Packet>, op: Op, k: Uint16) {
    && k in m && Wanted(op, Entry(k, m[k]))
    && forall l :: l in m && Wanted(op, Entry(l, m[l])) ==> k <= l
  }

  /** What an operation that found no packet in a map answers. */
  function Missing(m: map<Uint16, Packet>): Result<Packet> {
    if m == map[] then ErrInvalidOperation else ErrNotFound
  }

  /**
   One operation on the map. A push enters its packet; a find answers the packet of its number; the others take out
   the packet of the least number, of the given number, or of the least number with the given timestamp.
   */
  ghost predicate MapStep(m: map<Uint16, Packet>, op: Op, after: map<Uint16, Packet>, r: Result<Packet>) {
    match op
    case Push(val, number) =>
      after == m[number := val]
    case Find(number) =>
      after == m && r == if number in m then Ok(m[number]) else ErrNotFound
    case Pop =>
      if m == map[] then after == m && r == ErrInvalidOperation
      else exists k :: k in m && (forall l :: l in m ==> k <= l) && r == Ok(m[k]) && after == m - {k}
    case PopAt(number) =>
      if number in m then after == m - {number} && r == Ok(m[number])
      else after == m && r == Missing(m)
    case PopAtTimestamp(timestamp) =>
      if forall l :: l in m ==> m[l].timestamp != timestamp then after == m && r == Missing(m)
      else exists k :: k in m && m[k].timestamp == timestamp &&
                       (forall l :: l in m && m[l].timestamp == timestamp ==> k <= l) &&
                       r == Ok(m[k]) && after == m - {k}
  }

  /** The first entry wanted has the least number wanted, and there is one when the map has one. */
  lemma FirstIsLeast(q: seq<Entry>, op: Op, i: nat)
    requires Sorted(q) && Distinct(q) && IsFirst(q, (e: Entry) => Wanted(op, e), i)
    ensures i < |q| ==> IsLeast(Contents(q), op, q[i].priority)
    ensures i == |q| ==> forall k :: k in Contents(q) ==> !Wanted(op, Entry(k, Contents(q)[k]))
  {
    hide Contents, Wanted;
    var m := Contents(q);
    forall l | l in m && Wanted(op, Entry(l, m[l])) ensures i < |q| && q[i].priority <= l {
      var j :| 0 <= j < |q| && q[j].priority == l;
      assert q[j] == Entry(l, m[l]);
    }
    if i < |q| {
      assert q[i] == Entry(q[i].priority, m[q[i].priority]);
    }
  }

  /** Taking the least number wanted is the operation on the map. */
  lemma LeastIsMapStep(m: map<Uint16, Packet>, op: Op, k: Uint16, after: map<Uint16, Packet>, r: Result<Packet>)
    requires !op.Push? && IsLeast(m, op, k) && r == Ok(m[k]) && after == if op.Find? then m else m - {k}
    ensures MapStep(m, op, after, r)
  {
  }

  lemma NoneIsMapStep(m: map<Uint16, Packet>, op: Op, r: Result<Packet>)
    requires !op.Push? && (forall k :: k in m ==> !Wanted(op, Entry(k, m[k]))) && r == Nothing(op, m == map[])
    ensures MapStep(m, op, m, r)
  {
  }

  /** Every operation on a strictly sorted list, with new numbers pushed, is the operation on its map. */
  lemma StepRefines(q: seq<Entry>, op: Op, i: nat, after: seq<Entry>, r: Result<Packet>)
    requires Sorted(q) && Distinct(q) && ListStep(q, op, i, after, r)
    requires op.Push? ==> op.number !in Contents(q)
    ensures Sorted(after) && Distinct(after) && MapStep(Contents(q), op, Contents(after), r)
  {
    hide InsertAt, RemoveAt, Sorted, Distinct, Wanted, Contents, IsLeast, Nothing;
    if op.Push? {
      assert IsFirst(q, (x: Entry) => op.number <= x.priority, i) by {
        PushWants(q, op, i);
      }
      InsertIsUpdate(q, Entry(op.number, op.val), i);
    } else {
      hide MapStep;
      FirstIsLeast(q, op, i);
      EmptyContents(q);
      if i < |q| {
        ContentsAt(q, i);
        RemoveIsDelete(q, i);
        LeastIsMapStep(Contents(q), op, q[i].priority, Contents(after), r);
      } else {
        NoneIsMapStep(Contents(q), op, r);
      }
    }
  }

  /** The list step, seen on the map where the numbers are distinct. */
  lemma SeenOnMap(q: seq<Entry>, op: Op, i: nat, after: seq<Entry>, r: Result<Packet>)
    requires Sorted(q) && ListStep(q, op, i, after, r) && !op.Push?
    ensures Distinct(q) ==> Distinct(after) && MapStep(Contents(q), op, Contents(after), r)
  {
    hide ListStep, Sorted, MapStep, Contents, Distinct;
    if Distinct(q) {
      StepRefines(q, op, i, after, r);
    }
  }

  lemma PushWants(q: seq<Entry>, op: Op, i: nat)
    requires op.Push? && IsFirst(q, (e: Entry) => Wanted(op, e), i)
    ensures IsFirst(q, (x: Entry) => op.number <= x.priority, i)
  {
  }

  lemma EmptyContents(q: seq<Entry>)
    requires Distinct(q)
    ensures q == [] <==> Contents(q) == map[]
  {
    assert q != [] ==> q[0].priority in Contents(q);
  }

  lemma ContentsAt(q: seq<Entry>, i: nat)
    requires Distinct(q) && i < |q|
    ensures q[i].priority in Contents(q) && Contents(q)[q[i].priority] == q[i].val
  {
  }

  /** One operation of a run: its arguments, its place in the list, and its result. */
  datatype Call = Call(op: Op, position: nat, result: Result<Packet>)

  /** The lists of a run: each is one operation away from the one before it. */
  ghost predicate IsRun(lists: seq<seq<Entry>>, calls: seq<Call>) {
    && |lists| == |calls| + 1 && lists[0] == []
    && forall t :: 0 <= t < |calls| ==>
         ListStep(lists[t], calls[t].op, calls[t].position, lists[t + 1], calls[t].result)
  }

  /** No operation of the run pushes a number that is in the queue. */
  ghost predicate PushesNew(lists: seq<seq<Entry>>, calls: seq<Call>)
    requires |lists| == |calls| + 1
  {
    forall t :: 0 <= t < |calls| && calls[t].op.Push? ==>
      forall j :: 0 <= j < |lists[t]| ==> lists[t][j].priority != calls[t].op.number
  }

  /**
   The queue refines a map: in every run that pushes only new numbers, every list is strictly sorted and
   every operation answers and changes what the same operation on the map does.
   */
  lemma {:induction false} RunRefines(lists: seq<seq<Entry>>, calls: seq<Call>)
    requires IsRun(lists, calls) && PushesNew(lists, calls)
    ensures forall t :: 0 <= t < |lists| ==> Sorted(lists[t]) && Distinct(lists[t])
    ensures forall t :: 0 <= t < |calls| ==>
              MapStep(Contents(lists[t]), calls[t].op, Contents(lists[t + 1]), calls[t].result)
  {
    hide ListStep, MapStep, Contents;
    if |calls| > 0 {
      var n := |calls| - 1;
      RunRefines(lists[..n + 1], calls[..n]);
      assert lists[..n + 1][n] == lists[n];
      forall t | 0 <= t < n
        ensures MapStep(Contents(lists[t]), calls[t].op, Contents(lists[t + 1]), calls[t].result)
      {
        assert lists[..n + 1][t] == lists[t] && lists[..n + 1][t + 1] == lists[t + 1] && calls[..n][t] == calls[t];
      }
      StepRefines(lists[n], calls[n].op, calls[n].position, lists[n + 1], calls[n].result);
    }
  }

  class Node {
    var val: Option<Packet>
    var next: Node?
    var prev: Node?
    const priority: Uint16

    constructor (val: Packet, priority: Uint16)
      ensures this.val == Some(val) && this.priority == priority && next == null && prev == null
    {
      this.val := Some(val);
      this.priority := priority;
      next, prev := null, null;
    }
  }

  class PriorityQueue {
    var next: Node?
    var length: Uint16
    ghost var nodes: seq<Node>
    ghost var entries: seq<Entry>

    /**
     The nodes form one chain from the queue, without repetition, hold the entries in order, and all but the
     first point back to their predecessor.
     */
    ghost predicate Linked()
      reads this`next, this`nodes, this`entries, nodes
    {
      && |nodes| == |entries|
      && (forall i, j :: 0 <= i < j < |nodes| ==> nodes[i] != nodes[j])
      && next == (if |nodes| == 0 then null else nodes[0])
      && (forall i :: 0 <= i < |nodes| - 1 ==> nodes[i].next == nodes[i + 1])
      && (|nodes| > 0 ==> nodes[|nodes| - 1].next == null)
      && (forall i :: 0 < i < |nodes| ==> nodes[i].prev == nodes[i - 1])
      && (forall i :: 0 <= i < |nodes| ==>
           nodes[i].priority == entries[i].priority && nodes[i].val == Some(entries[i].val))
    }

    lemma HeadIsFirst()
      requires Linked()
      ensures |nodes| == |entries| && (next == null <==> entries == [])
      ensures entries != [] ==>
              next == nodes[0] && next.priority == entries[0].priority && next.val == Some(entries[0].val)
    {
    }

    ghost predicate Valid()
      reads this, nodes
    {
      Linked() && Sorted(entries) && length == Wrap16(|nodes|)
    }

    constructor ()
      ensures Valid() && entries == []
    {
      next, length := null, 0;
      nodes, entries := [], [];
    }

    method Find(sqNum: Uint16) returns (r: Result<Packet>)
      requires Valid()
      ensures exists i: nat :: ListStep(entries, Op.Find(sqNum), i, entries, r)
      ensures Distinct(entries) ==>
                r == if sqNum in Contents(entries) then Ok(Contents(entries)[sqNum]) else ErrNotFound
    {
      hide Contents, Distinct;
      var node := next;
      ghost var i: nat := 0;
      while node != null
        invariant i <= |nodes| && node == if i < |nodes| then nodes[i] else null
        invariant forall j :: 0 <= j < i ==> entries[j].priority != sqNum
        decreases |nodes| - i
      {
        if node.priority == sqNum {
          r := Ok(node.val.value);
          assert ListStep(entries, Op.Find(sqNum), i, entries, r);
          SeenOnMap(entries, Op.Find(sqNum), i, entries, r);
          return;
        }
        node := node.next;
        i := i + 1;
      }
      r := ErrNotFound;
      assert ListStep(entries, Op.Find(sqNum), i, entries, r);
      SeenOnMap(entries, Op.Find(sqNum), i, entries, r);
    }

    /** The loop of `Push`: the first node whose number is not below `priority`, and the node before it. */
    method Seek(priority: Uint16) returns (head: Node?, prev: Node, ghost i: nat)
      requires Linked() && next != null
      ensures IsFirst(entries, (e: Entry) => priority <= e.priority, i)
      ensures head == if i < |nodes| then nodes[i] else null
      ensures prev == if i == 0 then nodes[0] else nodes[i - 1]
    {
      head := next;
      prev := next;
      i := 0;
      while head != null
        invariant i <= |nodes| && head == if i < |nodes| then nodes[i] else null
        invariant prev == if i == 0 then nodes[0] else nodes[i - 1]
        invariant forall j :: 0 <= j < i ==> entries[j].priority < priority
        decreases |nodes| - i
      {
        if priority <= head.priority {
          break;
        }
        prev := head;
        head := head.next;
        i := i + 1;
      }
    }

    method PushFront(node: Node, ghost val: Packet)
      requires Linked() && node !in nodes && node.next == null && node.val == Some(val)
      modifies this`next, this`nodes, this`entries, nodes, node
      ensures Linked() && nodes == InsertAt(old(nodes), 0, node)
      ensures entries == InsertAt(old(entries), 0, Entry(node.priority, val))
    {
      hide InsertAt;
      node.next := next;
      if next != null {
        next.prev := node;
      }
      next := node;
      nodes, entries := InsertAt(nodes, 0, node), InsertAt(entries, 0, Entry(node.priority, val));
    }

    /** Links a node after the last one. */
    method Append(node: Node, prev: Node, ghost val: Packet)
      requires Linked() && node !in nodes && node.next == null && node.val == Some(val)
      requires nodes != [] && prev == nodes[|nodes| - 1]
      modifies this`nodes, this`entries, prev`next, node`prev
      ensures Linked() && nodes == InsertAt(old(nodes), |old(nodes)|, node)
      ensures entries == InsertAt(old(entries), |old(entries)|, Entry(node.priority, val))
    {
      hide InsertAt;
      prev.next := node;
      node.prev := prev;
      nodes, entries := InsertAt(nodes, |nodes|, node), InsertAt(entries, |entries|, Entry(node.priority, val));
    }

    /** Links a node between `prev` and `head`, which are the same node at the front. */
    method LinkBetween(node: Node, head: Node, prev: Node, ghost val: Packet, ghost i: nat)
      requires Linked() && node !in nodes && node.val == Some(val)
      requires i < |nodes| && head == nodes[i] && prev == if i == 0 then nodes[0] else nodes[i - 1]
      modifies this`nodes, this`entries, prev`next, head`prev, node`next, node`prev
      ensures i > 0 ==> && Linked() && nodes == InsertAt(old(nodes), i, node)
                        && entries == InsertAt(old(entries), i, Entry(node.priority, val))
      ensures i == 0 ==> nodes == old(nodes) && prev.next == node && node.next == prev
    {
      hide InsertAt;
      node.next := head;
      node.prev := prev;
      prev.next := node;
      head.prev := node;
      if i > 0 {
        nodes, entries := InsertAt(nodes, i, node), InsertAt(entries, i, Entry(node.priority, val));
      }
    }

    /** Links a node between `prev` and `head`, or after the last node. */
    method Splice(node: Node, head: Node?, prev: Node, ghost val: Packet, ghost i: nat)
      requires Linked() && node !in nodes && node.next == null && node.val == Some(val)
      requires i <= |nodes| != 0 && head == if i < |nodes| then nodes[i] else null
      requires prev == if i == 0 then nodes[0] else nodes[i - 1]
      modifies this`nodes, this`entries, nodes, node
      ensures i > 0 ==> && Linked() && nodes == InsertAt(old(nodes), i, node)
                        && entries == InsertAt(old(entries), i, Entry(node.priority, val))
      ensures i == 0 ==> nodes == old(nodes) && prev.next == node && node.next == prev
    {
      hide InsertAt, PriorityQueue.Linked;
      HeadIsFirst();
      if head == null {
        Append(node, prev, val);
      } else {
        LinkBetween(node, head, prev, val, i);
      }
    }

    /**
     Queues a packet. A number other than the head's goes before the first number not below it. A second
     packet with the head's number closes the chain to a cycle of two nodes, and the queue is lost.
     */
    method Push(val: Packet, priority: Uint16) returns (ghost i: nat)
      requires Valid()
      modifies this, nodes
      ensures length == Wrap16(old(length) + 1)
      ensures forall n :: n in nodes ==> n in old(nodes) || fresh(n)
      ensures old(entries) == [] || priority != old(entries[0].priority) ==>
                Valid() && forall r :: ListStep(old(entries), Op.Push(val, priority), i, entries, r)
      ensures Distinct(old(entries)) && priority !in Contents(old(entries)) ==>
                && Valid() && Distinct(entries) && Contents(entries) == Contents(old(entries))[priority := val]
      ensures old(entries) != [] && priority == old(entries[0].priority) ==>
                next == old(next) && next != null && next.next != null && next.next.next == next
    {
      hide PriorityQueue.Linked, Sorted, InsertAt, Wrap16, Contents, Distinct;
      HeadIsFirst();
      var node := new Node(val, priority);
      i := 0;
      WrapSum(|nodes|, 1);
      length := Wrap16(length + 1);
      if next == null || priority < next.priority {
        PushFront(node, val);
        InsertKeepsOrder(old(entries), Entry(priority, val), 0);
      } else {
        var head, prev;
        head, prev, i := Seek(priority);
        InsertKeepsOrder(entries, Entry(priority, val), i);
        Splice(node, head, prev, val, i);
      }
      if Distinct(old(entries)) && priority !in Contents(old(entries)) {
        assert old(entries) != [] ==> priority != old(entries[0].priority);
        InsertIsUpdate(old(entries), Entry(priority, val), i);
      }
    }

    /** Takes the first node off the chain; its packet is cleared, its links are left as they are. */
    method DropHead() returns (val: Packet)
      requires Valid() && entries != []
      modifies this, nodes
      ensures Valid() && val == old(entries[0].val) && entries == RemoveAt(old(entries), 0)
      ensures nodes == RemoveAt(old(nodes), 0)
    {
      hide RemoveAt, Sorted, Wrap16;
      RemoveKeepsOrder(entries, 0);
      WrapSum(|nodes|, -1);
      val := next.val.value;
      next.val := None;
      length := Wrap16(length - 1);
      next := next.next;
      nodes, entries := RemoveAt(nodes, 0), RemoveAt(entries, 0);
    }

    /** Takes a later node out of the chain. */
    method Unlink(pos: Node, prev: Node, ghost i: nat)
      requires Linked() && 0 < i < |nodes| && pos == nodes[i] && prev == nodes[i - 1]
      modifies this`nodes, this`entries, nodes
      ensures Linked() && nodes == RemoveAt(old(nodes), i) && entries == RemoveAt(old(entries), i)
    {
      hide RemoveAt;
      assert pos.next == if i + 1 < |nodes| then nodes[i + 1] else null;
      pos.val := None;
      prev.next := pos.next;
      if prev.next != null {
        prev.next.prev := prev;
      }
      nodes, entries := RemoveAt(nodes, i), RemoveAt(entries, i);
    }

    method Remove(pos: Node, prev: Node, ghost i: nat) returns (val: Packet)
      requires Valid() && 0 < i < |nodes| && pos == nodes[i] && prev == nodes[i - 1]
      modifies this, nodes
      ensures Valid() && val == old(entries)[i].val && entries == RemoveAt(old(entries), i)
      ensures nodes == RemoveAt(old(nodes), i)
    {
      hide RemoveAt, Sorted, Wrap16;
      RemoveKeepsOrder(entries, i);
      WrapSum(|nodes|, -1);
      val := pos.val.value;
      Unlink(pos, prev, i);
      length := Wrap16(length - 1);
    }

    method Pop() returns (r: Result<Packet>)
      requires Valid()
      modifies this, nodes
      ensures Valid() && forall n :: n in nodes ==> n in old(nodes)
      ensures ListStep(old(entries), Op.Pop, 0, entries, r)
      ensures Distinct(old(entries)) ==>
                Distinct(entries) && MapStep(Contents(old(entries)), Op.Pop, Contents(entries), r)
    {
      hide RemoveAt, Sorted, Wrap16, Contents, Distinct, MapStep;
      if next == null {
        r := ErrInvalidOperation;
      } else {
        var val := DropHead();
        r := Ok(val);
      }
      SeenOnMap(old(entries), Op.Pop, 0, entries, r);
    }

    method PopAt(sqNum: Uint16) returns (r: Result<Packet>, ghost i: nat)
      requires Valid()
      modifies this, nodes
      ensures Valid() && forall n :: n in nodes ==> n in old(nodes)
      ensures ListStep(old(entries), Op.PopAt(sqNum), i, entries, r)
      ensures Distinct(old(entries)) ==>
                Distinct(entries) && MapStep(Contents(old(entries)), Op.PopAt(sqNum), Contents(entries), r)
    {
      hide RemoveAt, Sorted, Wrap16, Contents, Distinct, MapStep;
      i := 0;
      if next == null {
        SeenOnMap(entries, Op.PopAt(sqNum), i, entries, ErrInvalidOperation);
        return ErrInvalidOperation, i;
      }
      if next.priority == sqNum {
        var val := DropHead();
        SeenOnMap(old(entries), Op.PopAt(sqNum), i, entries, Ok(val));
        return Ok(val), i;
      }
      var pos: Node?, prev := next, next.prev;
      while pos != null
        invariant Valid() && nodes == old(nodes) && entries == old(entries)
        invariant i <= |nodes| && pos == if i < |nodes| then nodes[i] else null
        invariant i > 0 ==> prev == nodes[i - 1]
        invariant entries != [] && entries[0].priority != sqNum
        invariant forall j :: 0 <= j < i ==> entries[j].priority != sqNum
        decreases |nodes| - i
      {
        if pos.priority == sqNum {
          var val := Remove(pos, prev, i);
          SeenOnMap(old(entries), Op.PopAt(sqNum), i, entries, Ok(val));
          return Ok(val), i;
        }
        prev := pos;
        pos := pos.next;
        i := i + 1;
      }
      SeenOnMap(entries, Op.PopAt(sqNum), i, entries, ErrNotFound);
      return ErrNotFound, i;
    }

    method PopAtTimestamp(timestamp: int) returns (r: Result<Packet>, ghost i: nat)
      requires Valid()
      modifies this, nodes
      ensures Valid() && forall n :: n in nodes ==> n in old(nodes)
      ensures ListStep(old(entries), Op.PopAtTimestamp(timestamp), i, entries, r)
      ensures Distinct(old(entries)) ==>
                Distinct(entries) && MapStep(Contents(old(entries)), Op.PopAtTimestamp(timestamp), Contents(entries), r)
    {
      hide RemoveAt, Sorted, Wrap16, Contents, Distinct, MapStep;
      i := 0;
      if next == null {
        SeenOnMap(entries, Op.PopAtTimestamp(timestamp), i, entries, ErrInvalidOperation);
        return ErrInvalidOperation, i;
      }
      if next.val.value.timestamp == timestamp {
        var val := DropHead();
        SeenOnMap(old(entries), Op.PopAtTimestamp(timestamp), i, entries, Ok(val));
        return Ok(val), i;
      }
      var pos: Node?, prev := next, next.prev;
      while pos != null
        invariant Valid() && nodes == old(nodes) && entries == old(entries)
        invariant i <= |nodes| && pos == if i < |nodes| then nodes[i] else null
        invariant i > 0 ==> prev == nodes[i - 1]
        invariant entries != [] && entries[0].val.timestamp != timestamp
        invariant forall j :: 0 <= j < i ==> entries[j].val.timestamp != timestamp
        decreases |nodes| - i
      {
        if pos.val.value.timestamp == timestamp {
          var val := Remove(pos, prev, i);
          SeenOnMap(old(entries), Op.PopAtTimestamp(timestamp), i, entries, Ok(val));
          return Ok(val), i;
        }
        prev := pos;
        pos := pos.next;
        i := i + 1;
      }
      SeenOnMap(entries, Op.PopAtTimestamp(timestamp), i, entries, ErrNotFound);
      return ErrNotFound, i;
    }

    /**
     Forgets the length and the back links. The packets stay: the queue is usable afterwards exactly when it was
     empty before.
     */
    method Clear()
      requires Valid()
      modifies this`length, nodes
      ensures length == 0
      ensures forall i :: 0 <= i < |nodes| ==>
                nodes[i].prev == null && nodes[i].next == old(nodes[i].next) && nodes[i].val == old(nodes[i].val)
      ensures Valid() <==> entries == []
    {
      hide Sorted;
      var node := next;
      length := 0;
      ghost var i: nat := 0;
      while node != null
        invariant i <= |nodes| && node == if i < |nodes| then nodes[i] else null
        invariant forall j :: 0 <= j < i ==> nodes[j].prev == null
        invariant forall j :: 0 <= j < |nodes| ==>
                    nodes[j].next == old(nodes[j].next) && nodes[j].val == old(nodes[j].val)
        decreases |nodes| - i
        modifies nodes
      {
        node.prev := null;
        node := node.next;
        i := i + 1;
      }
      assert |nodes| > 1 ==> nodes[1].prev == null;
    }
  }
}
