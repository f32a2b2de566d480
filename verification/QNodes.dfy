/** The queue node: two links, a length, and the payload bytes stored behind the header. */
module QNodes {

  type Payload = seq<bv8>

  /** errno, as far as the queues set it. */
  datatype Errno = NoError | EAGAIN | ENOMEM

  class QNode {
    var next: QNode?
    var prev: QNode?
    var len: nat
    const data: array<bv8>

    /** A node fresh from the allocator: room for `bytes` payload bytes, no field set yet. */
    constructor (bytes: nat)
      ensures data.Length == bytes && fresh(data)
    {
      data := new bv8[bytes];
    }

    /** Fills a fresh node: both links NULL, the length, and a copy of the payload. */
    method Fill(payload: Payload)
      requires |payload| <= data.Length
      modifies this, data
      ensures next == null && prev == null && Holds(payload)
      ensures data[|payload|..] == old(data[|payload|..])
    {
      next := null;
      prev := null;
      len := |payload|;
      forall i | 0 <= i < |payload| {
        data[i] := payload[i];
      }
    }

    /** The node stores exactly this payload. */
    ghost predicate Holds(payload: Payload)
      reads this`len, data
    {
      len == |payload| <= data.Length && data[..len] == payload
    }
  }

  /** These nodes store these payloads. */
  ghost predicate Stored(ns: seq<QNode>, cs: seq<Payload>)
    reads ns`len, set i | 0 <= i < |ns| :: ns[i].data
  {
    |ns| == |cs| && forall i :: 0 <= i < |ns| ==> ns[i].Holds(cs[i])
  }
}
