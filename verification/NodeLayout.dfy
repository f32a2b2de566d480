/** Where a queue node sits inside its malloc block, and how delete finds the block again. */
module NodeLayout {
  import opened CBase
  import opened Words

  /** sizeof(bt_qnode_t) on a 64-bit target: two pointers and a length, padded so that `data`, which is
      aligned to 64 bytes, follows the header directly. */
  const HEADER: nat := 64

  /** The size asked of malloc: header, payload, one byte, alignment backup, origin track. */
  function RequestSize(len: word): word {
    Add(Add(Add(Add(HEADER, len), 1), 0x3f), 1)
  }

  function AlignUp(orig: word): word {
    And(Add(Add(orig, 0x3f), 1), Not(0x3f))
  }

  lemma RequestSizeIs(len: word)
    ensures RequestSize(len) == if len <= SIZE_MAX - 129 then len + 129 else len + 129 - WORD
  {
    var a := Add(HEADER, len);
    assert a == if len < WORD - 64 then len + 64 else len + 64 - WORD;
    var b := Add(a, 1);
    assert b == if len < WORD - 65 then len + 65 else len + 65 - WORD;
    var c := Add(b, 0x3f);
    assert c == if len < WORD - 128 then len + 128 else len + 128 - WORD;
  }

  lemma AlignUpIs(orig: word)
    requires orig + 0x40 < WORD
    ensures AlignUp(orig) == orig + 0x40 - orig % 0x40
  {
    var x := Add(Add(orig, 0x3f), 1);
    assert x == orig + 0x40;
    Masks(x);
    ModShift(orig);
  }

  lemma ModShift(orig: nat)
    ensures (orig + 0x40) % 0x40 == orig % 0x40
  {
  }

  /** Wherever malloc puts the block, the node is 64-byte aligned, 1 to 64 bytes above the block's start, and its
      64-byte header, its payload and one more byte are inside the block exactly when the request did not wrap. */
  lemma NodeIsInsideBlock(orig: word, len: word)
    requires orig + 0x40 < WORD && orig + RequestSize(len) <= WORD
    ensures var user := AlignUp(orig);
            && user % 0x40 == 0
            && 1 <= user - orig <= 0x40
            && (user + 64 + len + 1 <= orig + RequestSize(len) <==> len <= SIZE_MAX - 129)
  {
    RequestSizeIs(len);
    AlignUpIs(orig);
    AlignedAbove(orig);
  }

  lemma AlignedAbove(orig: nat)
    ensures (orig + 0x40 - orig % 0x40) % 0x40 == 0
  {
  }

  // ---------------------------------------------------------------- memory

  type octet = x: nat | x < 0x100

  type Memory = nat -> octet

  /** The n-byte little-endian number at an address. */
  function Load(mem: Memory, a: nat, n: nat): nat
    decreases n
  {
    if n == 0 then 0 else mem(a) + 0x100 * Load(mem, a + 1, n - 1)
  }

  lemma {:induction false} LoadIsZero(mem: Memory, a: nat, n: nat)
    ensures Load(mem, a, n) == 0 <==> forall i :: a <= i < a + n ==> mem(i) == 0
    decreases n
  {
    if n > 0 {
      LoadIsZero(mem, a + 1, n - 1);
    }
  }

  /** The header's first two fields. */
  function Next(mem: Memory, user: word): nat {
    Load(mem, user, 8)
  }

  function Prev(mem: Memory, user: word): nat {
    Load(mem, user + 8, 8)
  }

  lemma LinkedIffSomeByte(mem: Memory, user: word)
    ensures Next(mem, user) != 0 || Prev(mem, user) != 0 <==> exists i :: user <= i < user + 16 && mem(i) != 0
  {
    LoadIsZero(mem, user, 8);
    LoadIsZero(mem, user + 8, 8);
  }

  /** A live block: what malloc returned, and the payload length the node was created for. */
  datatype Block = Block(orig: word, len: word) {
    function End(): nat {
      orig + len + 129
    }

    /** The node address create computes for this block. */
    function Node(): (u: nat)
      ensures orig < u <= orig + 0x40
    {
      orig + 0x40 - orig % 0x40
    }

    ghost predicate Apart(b: Block) {
      End() <= b.orig || b.End() <= orig
    }
  }

  /** Every node is where create puts it in its block. */
  ghost predicate Placed(live: map<word, Block>) {
    forall u :: u in live ==> live[u].End() <= WORD && u == live[u].Node()
  }

  /** The byte below every node records how far the node was shifted. */
  ghost predicate Recorded(mem: Memory, live: map<word, Block>) {
    forall u :: u in live ==> u > 0 && mem(u - 1) == u - live[u].orig
  }

  ghost predicate PairwiseApart(live: map<word, Block>) {
    forall u, v :: u in live && v in live && u != v ==> live[u].Apart(live[v])
  }

  lemma InsertKeepsApart(live: map<word, Block>, u: word, b: Block)
    requires PairwiseApart(live) && u !in live && forall v :: v in live ==> live[v].Apart(b)
    ensures PairwiseApart(live[u := b])
  {
  }

  datatype DeleteResult = Nothing | Aborted | Freed(orig: word)

  /** The process memory, as far as nodes are concerned. Other code may do what it likes to bytes outside the
      live blocks; inside, a client writes only to the node it was given. */
  class NodeHeap {
    var mem: Memory
    ghost var live: map<word, Block>    // node address to malloc block

    ghost predicate Valid()
      reads this
    {
      Placed(live) && Recorded(mem, live) && PairwiseApart(live)
    }

    constructor (mem: Memory)
      ensures Valid() && live == map[] && this.mem == mem
    {
      this.mem, live := mem, map[];
    }

    /** Stores bytes from an address on. */
    method Store(at: nat, bytes: seq<octet>)
      modifies this`mem
      ensures forall a: nat :: mem(a) == if at <= a < at + |bytes| then bytes[a - at] else old(mem)(a)
    {
      var m := mem;
      mem := (a: nat) => if at <= a < at + |bytes| then bytes[a - at] else m(a);
    }

    /** The alignment step of create. */
    method AlignAddress(orig: word) returns (user: word)
      requires orig + 0x40 < WORD
      ensures user == Block(orig, 0).Node() && user % 0x40 == 0
    {
      user := AlignUp(orig);
      AlignUpIs(orig);
      AlignedAbove(orig);
    }

    /** bt_qnode_create; `malloced` is what malloc returns: nothing, or a block of the requested size apart from the
        live ones, and not in the last bytes of the address space. For a length whose request wraps, all that is
        promised is where the node is: it reaches beyond the block. */
    method Create(len: word, malloced: Option<word>) returns (user: Option<word>)
      requires Valid()
      requires malloced.Some? ==>
                 && malloced.value + 0x40 < WORD && malloced.value + RequestSize(len) <= WORD
                 && forall u :: u in live ==>
                      live[u].End() <= malloced.value || malloced.value + RequestSize(len) <= live[u].orig
      modifies this
      ensures malloced.None? ==> user.None? && unchanged(this)
      ensures malloced.Some? ==>
                && user.Some? && user.value == Block(malloced.value, len).Node() && user.value % 0x40 == 0
                && 1 <= user.value - malloced.value <= 64 && mem(user.value - 1) == user.value - malloced.value
                && forall a: nat :: a != user.value - 1 ==> mem(a) == old(mem)(a)
      ensures malloced.Some? && len <= SIZE_MAX - 129 ==>
                && Valid() && user.value !in old(live)
                && live == old(live)[user.value := Block(malloced.value, len)]
      ensures malloced.Some? && len > SIZE_MAX - 129 ==>
                && live == old(live)
                && user.value + 64 + len + 1 > malloced.value + RequestSize(len)
    {
      if malloced.None? {
        return None;
      }
      var orig := malloced.value;
      RequestSizeIs(len);
      var u := AlignAddress(orig);
      ghost var b := Block(orig, len);
      assert u == b.Node();
      var shift := (u - orig) % 0x100;
      assert shift == u - orig;
      user := Some(u);
      if len <= SIZE_MAX - 129 {
        forall v | v in live
          ensures v != u
        {
          assert v == live[v].Node() && live[v].Apart(b);
        }
        InsertKeepsApart(live, u, b);
      }
      Store(u - 1, [shift]);
      if len <= SIZE_MAX - 129 {
        live := live[u := b];
      }
    }

    /** A client writes bytes of a live node: header fields, the payload, the extra byte. */
    method Write(user: word, at: nat, bytes: seq<octet>)
      requires Valid() && user in live && user <= at && at + |bytes| <= user + 64 + live[user].len + 1
      modifies this
      ensures Valid() && live == old(live)
      ensures forall a: nat :: mem(a) == if at <= a < at + |bytes| then bytes[a - at] else old(mem)(a)
    {
      forall v | v in live
        ensures !(at <= v - 1 < at + |bytes|)
      {
        assert v != user ==> live[v].Apart(live[user]);
      }
      Store(at, bytes);
    }

    /** Other code writes bytes outside every live block. */
    method WriteElsewhere(at: nat, bytes: seq<octet>)
      requires Valid()
      requires forall u :: u in live ==> at + |bytes| <= live[u].orig || live[u].End() <= at
      modifies this
      ensures Valid() && live == old(live)
      ensures forall a: nat :: mem(a) == if at <= a < at + |bytes| then bytes[a - at] else old(mem)(a)
    {
      Store(at, bytes);
    }

    /** bt_qnode_delete_ignore_ref: frees exactly the block malloc returned for this node. */
    method DeleteIgnoreRef(user: word) returns (freed: word)
      requires Valid() && user in live
      modifies this
      ensures Valid() && mem == old(mem) && freed == old(live)[user].orig && live == old(live) - {user}
    {
      var shift := mem(user - 1);
      freed := user - shift;
      live := live - {user};
    }

    /** bt_qnode_delete: NULL is ignored; a node with a link aborts the process, that is, one with a byte other than
        zero among its first sixteen. */
    method Delete(user: Option<word>) returns (r: DeleteResult)
      requires Valid() && (user.Some? ==> user.value in live)
      modifies this
      ensures Valid() && mem == old(mem)
      ensures r.Nothing? <==> user.None?
      ensures r.Aborted? <==> user.Some? && exists i :: user.value <= i < user.value + 16 && mem(i) != 0
      ensures r.Freed? ==> r.orig == old(live)[user.value].orig
      ensures live == if r.Freed? then old(live) - {user.value} else old(live)
    {
      if user.None? {
        return Nothing;
      }
      var u := user.value;
      LinkedIffSomeByte(mem, u);
      if Next(mem, u) != 0 || Prev(mem, u) != 0 {
        return Aborted;
      }
      var orig := DeleteIgnoreRef(u);
      r := Freed(orig);
    }
  }
}
