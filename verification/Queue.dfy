/** The doubly linked bounded queue, release build of enqueue and dequeue, debug build of detach. */
module Queue {
  import opened CBase
  import opened QNodes
  import opened BoundedFifo

  /** Fatal(n) is the abort with err_ident n. */
  datatype DetachResult = Done | FatalError(ident: int)

  class BtQueue {
    var head: QNode?
    var tail: QNode?
    var count: uint32
    var maxEl: uint32
    ghost var nodes: seq<QNode>        // the linked nodes, front first
    ghost var contents: seq<Payload>   // their payloads

    /** While the queue is empty `tail` is unconstrained: it may still point at the node dequeue removed last, which is
        the client's by then. */
    ghost predicate Valid()
      reads this, nodes, set i | 0 <= i < |nodes| :: nodes[i].data
    {
      && count as int == |nodes| == |contents| <= maxEl as int
      && Linked(nodes)
      && Stored(nodes, contents)
    }

    /** Drained, but `tail` still points at the node dequeue removed last. The assertion that tail is NULL,
        which a debug build makes when an enqueue is accepted by an empty queue, fails exactly then. */
    ghost predicate StaleTail()
      reads this
    {
      head == null && tail != null
    }

    ghost predicate Linked(ns: seq<QNode>)
      reads this`head, this`tail, ns
    {
      && (ns == [] ==> head == null)
      && (ns != [] ==> head == ns[0] && tail == ns[|ns| - 1])
      && (forall i, j :: 0 <= i < j < |ns| ==> ns[i] != ns[j])
      && (forall i {:trigger ns[i].prev} :: 0 <= i < |ns| ==> ns[i].prev == if i == 0 then null else ns[i - 1])
      && (forall i {:trigger ns[i].next} :: 0 <= i < |ns| ==> ns[i].next == if i == |ns| - 1 then null else ns[i + 1])
    }

    /** bt_queue_init */
    constructor (max: uint32)
      ensures Valid() && nodes == [] && contents == [] && maxEl == max && tail == null
    {
      head, tail, count, maxEl := null, null, 0, max;
      nodes, contents := [], [];
    }

    /** Links a node that has no links yet behind the last one. */
    method LinkLast(node: QNode)
      requires Linked(nodes) && node !in nodes && node.next == null && node.prev == null
      modifies this`head, this`tail, node`prev, nodes`next
      ensures Linked(nodes + [node])
    {
      if head == null {
        head := node;
        tail := node;
      } else {
        node.prev := tail;
        tail.next := node;
        tail := node;
      }
    }

    /** Adds a node that is already linked behind the others to the abstract view. */
    ghost method Remember(node: QNode, payload: Payload)
      requires Linked(nodes + [node]) && Stored(nodes, contents) && node.Holds(payload)
      requires count as int == |nodes| + 1 <= maxEl as int
      modifies this`nodes, this`contents
      ensures Valid()
      ensures nodes == old(nodes) + [node] && contents == old(contents) + [payload]
    {
      nodes, contents := nodes + [node], contents + [payload];
    }

    method Enqueue(payload: Payload, mallocOk: bool) returns (node: QNode?, err: Errno)
      requires Valid()
      modifies this, nodes
      ensures Valid() && maxEl == old(maxEl)
      ensures err == if old(count) >= old(maxEl) then EAGAIN else if !mallocOk then ENOMEM else NoError
      ensures err != NoError ==>
                node == null && unchanged(this) && forall n <- nodes :: unchanged(n)
      ensures err == NoError ==>
                && node != null && fresh(node) && fresh(node.data)
                && nodes == old(nodes) + [node] && contents == old(contents) + [payload]
    {
      if count >= maxEl {
        return null, EAGAIN;
      }
      if !mallocOk {
        return null, ENOMEM;
      }
      node := new QNode(|payload| + 1);
      node.Fill(payload);
      count := count + 1;
      LinkLast(node);
      Remember(node, payload);
      err := NoError;
    }

    /** Removes the front. The stale tail of a drained queue is stated, not hidden. */
    method Dequeue() returns (ret: QNode?, err: Errno)
      requires Valid()
      modifies this, nodes
      ensures Valid() && maxEl == old(maxEl) && tail == old(tail)
      ensures old(nodes) == [] ==> ret == null && err == EAGAIN && unchanged(this)
      ensures old(nodes) != [] ==>
                && err == NoError && ret == old(nodes)[0]
                && nodes == old(nodes)[1..] && contents == old(contents)[1..]
                && ret.next == null && ret.prev == null && ret.Holds(old(contents)[0])
      ensures |old(nodes)| == 1 ==> tail == ret
    {
      if count == 0 {
        return null, EAGAIN;
      }
      assert head.prev == null;
      ret := head;
      head := head.next;
      if head != null {
        head.prev := null;
      }
      ret.prev := null;
      ret.next := null;
      count := count - 1;
      nodes, contents := nodes[1..], contents[1..];
      err := NoError;
    }

    /** The debug build's search from both ends at once. */
    method ScanBothEnds(node: QNode?) returns (found: bool, ghost rounds: nat)
      requires Valid() && nodes != []
      ensures found <==> node in nodes
      ensures !found ==> rounds == |nodes|
      ensures found ==> rounds <= (|nodes| + 1) / 2
      ensures forall k :: 0 <= k < |nodes| && nodes[k] == node ==>
                rounds == 1 + if k <= |nodes| - 1 - k then k else |nodes| - 1 - k
    {
      var h, t := head, tail;
      ghost var n := |nodes|;
      rounds := 0;
      while h != null || t != null
        invariant 0 <= rounds <= n
        invariant h == if rounds < n then nodes[rounds] else null
        invariant t == if rounds < n then nodes[n - 1 - rounds] else null
        invariant forall k :: 0 <= k < n && (k < rounds || n - rounds <= k) ==> nodes[k] != node
        decreases n - rounds
      {
        rounds := rounds + 1;
        if h == node || t == node {
          return true, rounds;
        }
        if h != null {
          h := h.next;
        }
        if t != null {
          t := t.prev;
        }
      }
      found := false;
    }

    /** Position k is bridged over: its neighbours are linked to each other, the rest is as before. */
    ghost predicate BridgedOver(ns: seq<QNode>, k: nat)
      requires k < |ns|
      reads this`head, this`tail, ns
    {
      var n := |ns|;
      && (forall i, j :: 0 <= i < j < n ==> ns[i] != ns[j])
      && head == (if n == 1 then null else if k == 0 then ns[1] else ns[0])
      && tail == (if n == 1 then null else if k == n - 1 then ns[n - 2] else ns[n - 1])
      && (forall i {:trigger ns[i].prev} :: 0 <= i < n && i != k ==>
            ns[i].prev == if i == 0 || (i == 1 && k == 0) then null else if i == k + 1 then ns[i - 2] else ns[i - 1])
      && (forall i {:trigger ns[i].next} :: 0 <= i < n && i != k ==>
            ns[i].next == if i == n - 1 || (i == n - 2 && k == n - 1) then null
                          else if i == k - 1 then ns[i + 2] else ns[i + 1])
    }

    lemma BridgeIsLinked(ns: seq<QNode>, k: nat)
      requires k < |ns| && BridgedOver(ns, k)
      ensures Linked(ns[..k] + ns[k + 1..])
    {
      var rest := ns[..k] + ns[k + 1..];
      forall i | 0 <= i < |rest|
        ensures rest[i].prev == if i == 0 then null else rest[i - 1]
        ensures rest[i].next == if i == |rest| - 1 then null else rest[i + 1]
      {
        assert rest[i] == ns[if i < k then i else i + 1];
      }
    }

    /** The relinking of detach, four cases; err_ident 3 is unreachable. */
    method Relink(node: QNode, ghost k: nat) returns (r: DetachResult)
      requires Linked(nodes) && k < |nodes| == count as int && nodes[k] == node
      modifies this`head, this`tail, nodes
      ensures r == Done && BridgedOver(nodes, k) && forall n <- nodes :: n.len == old(n.len)
      ensures node.next == null && node.prev == null
    {
      if node == head && node == tail {
        if count != 1 {
          assert false;
          return FatalError(3);
        }
        head := null;
        tail := null;
      } else if node == head {
        head := head.next;
        head.prev := null;
      } else if node == tail {
        tail := tail.prev;
        tail.next := null;
      } else {
        var next, prev := node.next, node.prev;
        next.prev := prev;
        prev.next := next;
      }
      node.next := null;
      node.prev := null;
      r := Done;
    }

    lemma StoredWithout(ns: seq<QNode>, cs: seq<Payload>, k: nat)
      requires k < |ns| && Stored(ns, cs)
      ensures Stored(ns[..k] + ns[k + 1..], cs[..k] + cs[k + 1..])
    {
    }

    /** Drops the bridged-over position from the abstract view. */
    ghost method Forget(k: nat)
      requires k < |nodes| && BridgedOver(nodes, k) && Stored(nodes, contents)
      requires count as int == |nodes| - 1 <= maxEl as int
      modifies this`nodes, this`contents
      ensures Valid()
      ensures nodes == old(nodes)[..k] + old(nodes)[k + 1..]
      ensures contents == old(contents)[..k] + old(contents)[k + 1..]
    {
      BridgeIsLinked(nodes, k);
      StoredWithout(nodes, contents, k);
      nodes, contents := nodes[..k] + nodes[k + 1..], contents[..k] + contents[k + 1..];
    }

    /** Takes the member at position k out of the queue. */
    method Unlink(node: QNode, ghost k: nat) returns (r: DetachResult)
      requires Valid() && k < |nodes| && nodes[k] == node
      modifies this, nodes
      ensures Valid() && maxEl == old(maxEl) && r == Done
      ensures nodes == old(nodes)[..k] + old(nodes)[k + 1..]
      ensures contents == old(contents)[..k] + old(contents)[k + 1..]
      ensures node.next == null && node.prev == null && node.Holds(old(contents)[k])
      ensures nodes == [] ==> tail == null
    {
      r := Relink(node, k);
      count := count - 1;
      Forget(k);
    }

    /** Detaches exactly `node`; aborts, changing nothing, when it is not a member. Never FatalError(3). */
    method Detach(node: QNode?) returns (r: DetachResult, ghost k: nat)
      requires Valid()
      modifies this, nodes
      ensures Valid() && maxEl == old(maxEl)
      ensures r == if old(nodes) == [] then FatalError(1) else if node in old(nodes) then Done else FatalError(2)
      ensures r != Done ==> unchanged(this) && forall n <- nodes :: unchanged(n)
      ensures r == Done ==>
                && k < |old(nodes)| && node == old(nodes)[k] && node.Holds(old(contents)[k])
                && nodes == old(nodes)[..k] + old(nodes)[k + 1..]
                && contents == old(contents)[..k] + old(contents)[k + 1..]
      ensures r == Done ==> node.next == null && node.prev == null
      ensures r == Done && nodes == [] ==> tail == null
    {
      if count == 0 {
        return FatalError(1), 0;
      }
      var found, _ := ScanBothEnds(node);
      if !found {
        return FatalError(2), 0;
      }
      k :| 0 <= k < |nodes| && nodes[k] == node;
      r := Unlink(node, k);
    }

    /** bt_queue_destroy: `freed` lists the deallocations in order; the counter check never aborts. */
    method Destroy() returns (freed: seq<QNode>, aborted: bool)
      requires Valid()
      modifies this
      ensures freed == old(nodes) && !aborted
      ensures forall i, j :: 0 <= i < j < |freed| ==> freed[i] != freed[j]
      ensures Valid() && nodes == [] && count == 0 && maxEl == 0 && tail == null
    {
      freed, aborted := [], false;
      if count != 0 {
        var c, h := count, head;
        while h != null
          invariant |freed| <= |nodes| && freed == nodes[..|freed|]
          invariant h == if |freed| < |nodes| then nodes[|freed|] else null
          invariant c as int == |nodes| - |freed|
          decreases |nodes| - |freed|
        {
          var tmp := h;
          h := h.next;
          freed := freed + [tmp];
          c := c - 1;
        }
        if c != 0 {
          return freed, true;
        }
      }
      head, tail, count, maxEl := null, null, 0, 0;
      nodes, contents := [], [];
    }

    /** for_each_bt_queue_head */
    method WalkForward() returns (visited: seq<QNode>)
      requires Valid()
      ensures visited == nodes
    {
      visited := [];
      var n := head;
      while n != null
        invariant |visited| <= |nodes| && visited == nodes[..|visited|]
        invariant n == if |visited| < |nodes| then nodes[|visited|] else null
        decreases |nodes| - |visited|
      {
        visited := visited + [n];
        n := n.next;
      }
    }

    /** for_each_bt_queue_tail. On a drained queue with a stale tail it visits the removed node instead, as long as
        its owner has left it the way dequeue handed it over. */
    method WalkBackward() returns (visited: seq<QNode>)
      requires Valid() && (StaleTail() ==> tail.prev == null)
      ensures visited == if StaleTail() then [tail] else Reverse(nodes)
    {
      visited := [];
      ghost var chain := if StaleTail() then [tail] else nodes;
      var n := tail;
      while n != null
        invariant |visited| <= |chain|
        invariant forall i :: 0 <= i < |visited| ==> visited[i] == chain[|chain| - 1 - i]
        invariant n == if |visited| < |chain| then chain[|chain| - 1 - |visited|] else null
        decreases |chain| - |visited|
      {
        visited := visited + [n];
        n := n.prev;
      }
    }

    /** The node a client holds for position k: the (k+1)-th step of the forward iteration. */
    method NodeAt(k: nat) returns (node: QNode?)
      requires Valid()
      ensures node == if k < |nodes| then nodes[k] else null
    {
      node := head;
      var i := 0;
      while i < k && node != null
        invariant 0 <= i <= k && i <= |nodes|
        invariant node == if i < |nodes| then nodes[i] else null
      {
        node := node.next;
        i := i + 1;
      }
    }
  }

  /** The last call that changed the queue was a dequeue; `before` says so of the calls before these answers. */
  predicate LastChangeWasDequeue(before: bool, answers: seq<Answer<Payload>>) {
    if answers == [] then before
    else match answers[|answers| - 1]
      case Popped(_) => true
      case Pushed => false
      case Detached(_) => false
      case _ => LastChangeWasDequeue(before, answers[..|answers| - 1])
  }

  lemma LastChangeSnoc(before: bool, answers: seq<Answer<Payload>>, a: Answer<Payload>)
    ensures LastChangeWasDequeue(before, answers + [a]) <==>
              a.Popped? || (!a.Pushed? && !a.Detached? && LastChangeWasDequeue(before, answers))
  {
    assert (answers + [a])[..|answers|] == answers;
  }

  /** One accepted enqueue and one dequeue on a new queue already leave the tail stale: forward iteration then
      visits nothing, backward iteration exactly the removed node. */
  method DrainLeavesStaleTail(max: uint32, p: Payload)
    returns (q: BtQueue, removed: QNode?, forward: seq<QNode>, backward: seq<QNode>)
    requires max > 0
    ensures q.Valid() && q.nodes == [] && q.StaleTail() && q.tail == removed != null
    ensures removed.Holds(p) && forward == [] && backward == [removed]
  {
    q := new BtQueue(max);
    var _, _ := q.Enqueue(p, true);
    var err;
    removed, err := q.Dequeue();
    forward := q.WalkForward();
    backward := q.WalkBackward();
  }

  /** Every run of calls on a queue answers, and leaves, what the bounded sequence does, up to an abort; the tail
      is stale exactly when the queue is empty and its last change, in this run or before, left it so. */
  method Drive(q: BtQueue, ops: seq<Op<Payload>>) returns (answers: seq<Answer<Payload>>)
    requires q.Valid()
    modifies q, q.nodes
    ensures q.Valid() && q.maxEl == old(q.maxEl)
    ensures (q.contents, answers) == Run(old(q.contents), q.maxEl as nat, ops)
    ensures q.StaleTail() <==> q.contents == [] && LastChangeWasDequeue(old(q.StaleTail()), answers)
  {
    answers := [];
    var i, gone := 0, false;
    ghost var run := Run(q.contents, q.maxEl as nat, ops);
    ContinuesFirst(q.contents, q.maxEl as nat, ops);
    while i < |ops| && !gone
      invariant 0 <= i <= |ops| && q.Valid() && q.maxEl == old(q.maxEl)
      invariant Continues(run, answers, gone, q.contents, q.maxEl as nat, ops[i..])
      invariant q.StaleTail() <==> q.contents == [] && LastChangeWasDequeue(old(q.StaleTail()), answers)
      invariant fresh(set n <- q.nodes | n !in old(q.nodes))
    {
      ContinuesNext(run, answers, q.contents, q.maxEl as nat, ops, i);
      var a := Perform(q, ops[i]);
      LastChangeSnoc(old(q.StaleTail()), answers, a);
      answers, i, gone := answers + [a], i + 1, a.Fatal?;
    }
    ContinuesLast(run, answers, gone, q.contents, q.maxEl as nat, ops[i..]);
  }

  /** Detaching the node at position k, or a node of no queue. */
  method PerformDetach(q: BtQueue, k: nat) returns (a: Answer<Payload>)
    requires q.Valid()
    modifies q, q.nodes
    ensures q.Valid() && q.maxEl == old(q.maxEl)
    ensures (q.contents, a) == Step(old(q.contents), q.maxEl as nat, Op.DetachAt(k))
    ensures a.Detached? ==> !q.StaleTail()
    ensures !a.Detached? ==> unchanged(q)
    ensures a.Detached? ==> k < |old(q.nodes)| && q.nodes == old(q.nodes)[..k] + old(q.nodes)[k + 1..]
  {
    var n := q.NodeAt(k);
    if n == null {
      n := new QNode(0);   // a node of no queue
    }
    var r, j := q.Detach(n);
    assert r == Done ==> j == k;
    a := if r == Done then Detached(n.data[..n.len]) else Fatal;
  }

  /** One call, read as an answer. */
  method Perform(q: BtQueue, op: Op<Payload>) returns (a: Answer<Payload>)
    requires q.Valid()
    modifies q, q.nodes
    ensures q.Valid() && q.maxEl == old(q.maxEl)
    ensures (q.contents, a) == Step(old(q.contents), q.maxEl as nat, op)
    ensures q.StaleTail() <==> q.contents == [] && (a.Popped? || (!a.Detached? && old(q.StaleTail())))
    ensures a.Pushed? ==> q.contents != []
    ensures !(a.Pushed? || a.Popped? || a.Detached?) ==> q.contents == old(q.contents)
    ensures fresh(set n <- q.nodes | n !in old(q.nodes))
  {
    match op
    case Enqueue(p, mallocOk) =>
      var _, err := q.Enqueue(p, mallocOk);
      a := match err case EAGAIN => Full case ENOMEM => NoMemory case NoError => Pushed;
    case Dequeue =>
      var n, _ := q.Dequeue();
      a := if n == null then Empty else Popped(n.data[..n.len]);
    case DetachAt(k) =>
      a := PerformDetach(q, k);
    case Count =>
      a := CountIs(q.count as nat);
  }
}
