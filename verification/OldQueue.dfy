/** The earlier queue: same calls, another invariant. It clears `tail` when drained, but leaves the removed
    node's links alone, so the front node's `prev` may point at a node that is gone. */
module OldQueue {
  import opened CBase
  import opened QNodes
  import opened BoundedFifo

  class QueMaster {
    var head: QNode?
    var tail: QNode?
    var count: uint32
    var capacity: uint32
    ghost var nodes: seq<QNode>
    ghost var contents: seq<Payload>

    ghost predicate Valid()
      reads this, nodes, set i | 0 <= i < |nodes| :: nodes[i].data
    {
      && count as int == |nodes| == |contents| <= capacity as int
      && Linked(nodes)
      && Stored(nodes, contents)
    }

    /** Unlike the newer queue: tail is NULL when empty, and nodes[0].prev is unconstrained. */
    ghost predicate Linked(ns: seq<QNode>)
      reads this`head, this`tail, ns
    {
      && (ns == [] ==> head == null && tail == null)
      && (ns != [] ==> head == ns[0] && tail == ns[|ns| - 1])
      && (forall i, j :: 0 <= i < j < |ns| ==> ns[i] != ns[j])
      && (forall i {:trigger ns[i].prev} :: 0 < i < |ns| ==> ns[i].prev == ns[i - 1])
      && (forall i {:trigger ns[i].next} :: 0 <= i < |ns| ==> ns[i].next == if i == |ns| - 1 then null else ns[i + 1])
    }

    /** que_init */
    constructor (cap: uint32)
      ensures Valid() && nodes == [] && contents == [] && capacity == cap
    {
      head, tail, count, capacity := null, null, 0, cap;
      nodes, contents := [], [];
    }

    /** Links a node whose next is NULL behind the last one. */
    method LinkLast(node: QNode)
      requires Linked(nodes) && node !in nodes && node.next == null
      modifies this`head, this`tail, node`prev, nodes`next
      ensures Linked(nodes + [node])
      ensures nodes == [] ==> node.prev == null
    {
      if head == null {
        assert tail == null;
        head := node;
        tail := node;
        head.prev := null;
      } else {
        assert tail != null;
        node.prev := tail;
        tail.next := node;
        tail := node;
      }
    }

    ghost method Remember(node: QNode, payload: Payload)
      requires Linked(nodes + [node]) && Stored(nodes, contents) && node.Holds(payload)
      requires count as int == |nodes| + 1 <= capacity as int
      modifies this`nodes, this`contents
      ensures Valid()
      ensures nodes == old(nodes) + [node] && contents == old(contents) + [payload]
    {
      nodes, contents := nodes + [node], contents + [payload];
    }

    /** A node with the payload, one NUL byte behind it, and no links. */
    static method NewNode(payload: Payload) returns (node: QNode)
      ensures fresh(node) && fresh(node.data) && node.next == null && node.prev == null && node.Holds(payload)
      ensures |payload| < node.data.Length && node.data[|payload|] == 0
    {
      node := new QNode(|payload| + 2);
      node.Fill(payload);
      node.data[|payload|] := 0;
    }

    /** que_enqueue, its internal assertions included; one NUL byte is stored behind the payload. */
    method Enqueue(payload: Payload, mallocOk: bool) returns (node: QNode?, err: Errno)
      requires Valid()
      modifies this, nodes
      ensures Valid() && capacity == old(capacity)
      ensures err == if old(count) >= old(capacity) then EAGAIN else if !mallocOk then ENOMEM else NoError
      ensures err != NoError ==>
                node == null && unchanged(this) && forall n <- nodes :: unchanged(n)
      ensures err == NoError ==>
                && node != null && fresh(node) && fresh(node.data)
                && |payload| < node.data.Length && node.data[|payload|] == 0
                && nodes == old(nodes) + [node] && contents == old(contents) + [payload]
      ensures err == NoError && old(nodes) == [] ==> node.prev == null
    {
      if count >= capacity {
        return null, EAGAIN;
      }
      if !mallocOk {
        return null, ENOMEM;   // set by the allocator
      }
      node := NewNode(payload);
      LinkLast(node);
      count := count + 1;
      Remember(node, payload);
      err := NoError;
    }

    /** que_dequeue: the removed node keeps its links. */
    method Dequeue() returns (ret: QNode?)
      requires Valid()
      modifies this
      ensures Valid() && capacity == old(capacity)
      ensures old(nodes) == [] ==> ret == null && unchanged(this)
      ensures old(nodes) != [] ==>
                && ret == old(nodes)[0] && ret.Holds(old(contents)[0])
                && nodes == old(nodes)[1..] && contents == old(contents)[1..]
                && ret.next == head && (nodes != [] ==> nodes[0].prev == ret)
    {
      if count == 0 {
        assert head == null && tail == null;
        return null;
      }
      var h := head;
      ret := h;
      h := h.next;
      if h == null {
        assert count == 1 && ret == tail;
        head := null;
        tail := null;
      } else {
        head := h;
      }
      count := count - 1;
      nodes, contents := nodes[1..], contents[1..];
    }

    /** que_destroy */
    method Destroy() returns (freed: seq<QNode>)
      requires Valid()
      modifies this
      ensures freed == old(nodes)
      ensures forall i, j :: 0 <= i < j < |freed| ==> freed[i] != freed[j]
      ensures Valid() && nodes == [] && count == 0 && capacity == 0
    {
      freed := [];
      if count != 0 {
        var h := head;
        while h != null
          invariant |freed| <= |nodes| && freed == nodes[..|freed|]
          invariant h == if |freed| < |nodes| then nodes[|freed|] else null
          decreases |nodes| - |freed|
        {
          var tmp := h;
          h := h.next;
          freed := freed + [tmp];
        }
      }
      head, tail, count, capacity := null, null, 0, 0;
      nodes, contents := [], [];
    }
  }

  method Perform(q: QueMaster, op: Op<Payload>) returns (a: Answer<Payload>)
    requires q.Valid() && !op.DetachAt?
    modifies q, q.nodes
    ensures q.Valid() && q.capacity == old(q.capacity)
    ensures (q.contents, a) == Step(old(q.contents), q.capacity as nat, op)
    ensures fresh(set n <- q.nodes | n !in old(q.nodes))
  {
    match op
    case Enqueue(p, mallocOk) =>
      var _, err := q.Enqueue(p, mallocOk);
      a := match err case EAGAIN => Full case ENOMEM => NoMemory case NoError => Pushed;
    case Dequeue =>
      var n := q.Dequeue();
      a := if n == null then Empty else Popped(n.data[..n.len]);
    case Count =>
      a := CountIs(q.count as nat);
  }

  method Drive(q: QueMaster, ops: seq<Op<Payload>>) returns (answers: seq<Answer<Payload>>)
    requires q.Valid() && forall op <- ops :: !op.DetachAt?
    modifies q, q.nodes
    ensures q.Valid() && q.capacity == old(q.capacity)
    ensures (q.contents, answers) == Run(old(q.contents), q.capacity as nat, ops)
  {
    answers := [];
    ghost var run := Run(q.contents, q.capacity as nat, ops);
    ContinuesFirst(q.contents, q.capacity as nat, ops);
    for i := 0 to |ops|
      invariant q.Valid() && q.capacity == old(q.capacity)
      invariant Continues(run, answers, false, q.contents, q.capacity as nat, ops[i..])
      invariant fresh(set n <- q.nodes | n !in old(q.nodes))
    {
      ContinuesNext(run, answers, q.contents, q.capacity as nat, ops, i);
      var a := Perform(q, ops[i]);
      answers := answers + [a];
    }
    ContinuesLast(run, answers, false, q.contents, q.capacity as nat, ops[|ops|..]);
  }
}

/** Both queues under the same calls. */
module QueueEquivalence {
  import opened CBase
  import opened BoundedFifo
  import opened QNodes
  import Queue
  import OldQueue

  /** The payloads of freed nodes. */
  method PayloadsOf(nodes: seq<QNode>, ghost contents: seq<Payload>) returns (payloads: seq<Payload>)
    requires Stored(nodes, contents)
    ensures payloads == contents
  {
    payloads := [];
    for i := 0 to |nodes|
      invariant payloads == contents[..i]
    {
      assert nodes[i].Holds(contents[i]);
      payloads := payloads + [nodes[i].data[..nodes[i].len]];
    }
  }

  /** A run of the newer queue from its init to its destroy: the answers, and the payloads freed at the end. */
  method RunNewer(max: uint32, ops: seq<Op<Payload>>) returns (answers: seq<Answer<Payload>>, freed: seq<Payload>)
    ensures answers == Run([], max as nat, ops).1 && freed == Run([], max as nat, ops).0
  {
    var q := new Queue.BtQueue(max);
    answers := Queue.Drive(q, ops);
    ghost var contents := q.contents;
    var nodes, _ := q.Destroy();
    freed := PayloadsOf(nodes, contents);
  }

  /** The same run of the older queue, which has no detach. */
  method RunOlder(max: uint32, ops: seq<Op<Payload>>) returns (answers: seq<Answer<Payload>>, freed: seq<Payload>)
    requires forall op <- ops :: !op.DetachAt?
    ensures answers == Run([], max as nat, ops).1 && freed == Run([], max as nat, ops).0
  {
    var q := new OldQueue.QueMaster(max);
    answers := OldQueue.Drive(q, ops);
    ghost var contents := q.contents;
    var nodes := q.Destroy();
    freed := PayloadsOf(nodes, contents);
  }

  /** The two queues give the same answers to every sequence of calls, and their destroys free the same payloads
      in the same order. */
  method SameAnswers(max: uint32, ops: seq<Op<Payload>>)
    returns (newer: seq<Answer<Payload>>, older: seq<Answer<Payload>>,
             freedNewer: seq<Payload>, freedOlder: seq<Payload>)
    requires forall op <- ops :: !op.DetachAt?
    ensures newer == older == Run([], max as nat, ops).1
    ensures freedNewer == freedOlder == Run([], max as nat, ops).0
  {
    newer, freedNewer := RunNewer(max, ops);
    older, freedOlder := RunOlder(max, ops);
  }
}
