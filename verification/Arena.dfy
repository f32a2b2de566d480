/** The bump allocator over a caller's buffer. */
module Arena {
  import opened CBase
  import opened Words

  /** Rounding a request: add 15 in machine arithmetic, then clear the low four bits. */
  function RoundUp(len: word): word {
    Add(len, 0xf) - Add(len, 0xf) % 16
  }

  /** The source's expression, (len + 0xf) & ~0xf, is this rounding. */
  lemma RoundUpIsMask(len: word)
    ensures And(Add(len, 0xf), Not(0xf)) == RoundUp(len)
  {
    Masks(Add(len, 0xf));
  }

  /** It is round-up-to-16, except that it wraps to 0 for the fifteen largest lengths. */
  lemma RoundUpIs(len: word)
    ensures RoundUp(len) % 16 == 0
    ensures len <= SIZE_MAX - 15 ==> RoundUp(len) == (len + 15) / 16 * 16 && len <= RoundUp(len) < len + 16
    ensures len > SIZE_MAX - 15 ==> RoundUp(len) == 0
  {
    assert Add(len, 0xf) == if len <= SIZE_MAX - 15 then len + 15 else len + 15 - WORD;
  }

  /** With capacity a multiple of 16, the test the allocator makes on the rounded length is the test on the
      length asked for, exactly when the rounding does not wrap. */
  lemma FitsIffUnrounded(len: word, capacity: word)
    requires capacity % 16 == 0
    ensures (RoundUp(len) <= capacity <==> len <= capacity) <==> len <= SIZE_MAX - 15
  {
    RoundUpIs(len);
  }

  /** A block handed out: its offset in the buffer and the length asked for. */
  datatype Block = Block(start: nat, len: nat)

  /** A string copied into the arena: where, and its bytes without the NUL. */
  datatype Copy = Copy(start: nat, text: seq<char>)

  /** A returned pointer: NULL, or the buffer's address plus an offset. */
  datatype Ptr = Null | At(off: nat)

  class BtArena {
    var buf: array<char>           // the caller's buffer, from __ar_buf on
    var base: word                 // its address
    var size: word
    var used: word
    ghost var blocks: seq<Block>   // everything handed out since the last init
    ghost var copies: seq<Copy>    // the strings among them

    ghost predicate Valid()
      reads this, buf
    {
      && size <= buf.Length && base + size <= WORD
      && base % 16 == 0 && size % 16 == 0 && used % 16 == 0 && used <= size
      && InOrder(blocks, used)
      && (forall c <- copies :: Block(c.start, |c.text| + 1) in blocks && Stored(c))
    }

    /** Every block is aligned and below `end`, and behind every earlier block. */
    static ghost predicate InOrder(bs: seq<Block>, end: nat) {
      && (forall b <- bs :: b.start % 16 == 0 && b.start + b.len <= end)
      && (forall i, j :: 0 <= i < j < |bs| ==> bs[i].start + bs[i].len <= bs[j].start)
    }

    /** The copy's bytes, and its NUL, are still there. */
    ghost predicate Stored(c: Copy)
      reads this`buf, buf
    {
      c.start + |c.text| < buf.Length && buf[c.start..c.start + |c.text|] == c.text && buf[c.start + |c.text|] == NUL
    }

    /** The state before any init: no buffer, no size. */
    constructor ()
      ensures Valid() && size == 0 && used == 0 && blocks == [] && copies == []
    {
      buf := new char[0];
      base, size, used := 0, 0, 0;
      blocks, copies := [], [];
    }

    /** ar_init: 0, or -EINVAL (22) with nothing changed. A buffer it accepts must be as large as the caller says. */
    method Init(arBuf: array<char>, addr: word, newSize: word) returns (ret: int)
      requires Valid()
      requires newSize % 16 == 0 && addr % 16 == 0 ==> newSize <= arBuf.Length && addr + newSize <= WORD
      modifies this
      ensures Valid()
      ensures ret == if newSize != 0 && newSize % 16 == 0 && addr % 16 == 0 then 0 else -22
      ensures ret == 0 ==> buf == arBuf && base == addr && size == newSize && used == 0 && blocks == [] && copies == []
      ensures ret != 0 ==> unchanged(this)
    {
      Masks(newSize);
      Masks(addr);
      if newSize == 0 || And(newSize, 0xf) != 0 {
        return -22;
      }
      if And(addr, 0xf) != 0 {
        return -22;
      }
      buf, base, size, used := arBuf, addr, newSize, 0;
      blocks, copies := [], [];
      ret := 0;
    }

    /** ar_capacity: used and capacity are multiples of 16 and sum to size. */
    method Capacity() returns (c: word)
      requires Valid()
      ensures c + used == size && c % 16 == 0
    {
      c := size - used;
    }

    /** The mask expression itself. */
    method Round(len: word) returns (r: word)
      ensures r == RoundUp(len) && r % 16 == 0 && (len <= SIZE_MAX - 15 ==> len <= r < len + 16)
    {
      r := And(Add(len, 0xf), Not(0xf));
      RoundUpIsMask(len);
      RoundUpIs(len);
    }

    /** Records a block behind all others. */
    ghost method NoteBlock(b: Block)
      requires Valid() && InOrder(blocks, b.start) && b.start % 16 == 0 && b.start + b.len <= used
      modifies this`blocks
      ensures Valid() && blocks == old(blocks) + [b]
    {
      blocks := blocks + [b];
    }

    /** ar_alloc. A request that fits the rest gets the next offset; one that does not changes nothing. The
        lengths that wrap get the offset without using up any byte, so no block is recorded for them. */
    method Alloc(len: word) returns (p: Ptr)
      requires Valid()
      modifies this`used, this`blocks
      ensures Valid()
      ensures p == Null <==> len <= SIZE_MAX - 15 && len > old(size - used)
      ensures p != Null ==> p == At(old(used))
      ensures p == Null ==> used == old(used) && blocks == old(blocks)
      ensures (p, used) == AllocStep(size, old(used), len)
      ensures p != Null ==> (base + p.off) % 16 == 0
      ensures p != Null && len <= SIZE_MAX - 15 ==>
                && len <= used - old(used) < len + 16
                && blocks == old(blocks) + [Block(old(used), len)]
      ensures p != Null && len > SIZE_MAX - 15 ==> used == old(used) && blocks == old(blocks)
    {
      var capacity := Capacity();
      var rounded := Round(len);
      FitsIffUnrounded(len, capacity);
      if capacity < rounded {
        return Null;
      }
      p := At(used);
      SumOfMultiples(base, used);
      SumOfMultiples(used, rounded);
      used := used + rounded;
      if len <= SIZE_MAX - 15 {
        NoteBlock(Block(p.off, len));
      }
    }

    /** Every recorded copy ends below offset `off`. */
    ghost predicate CopiesBelow(off: nat)
      reads this`copies
    {
      forall c <- copies :: c.start + |c.text| < off
    }

    /** Copies `text` and a NUL to the block just allocated at `off`. */
    method StoreCopy(off: nat, text: seq<char>)
      requires Valid() && CopiesBelow(off) && Block(off, |text| + 1) in blocks
      modifies buf, this`copies
      ensures Valid() && copies == old(copies) + [Copy(off, text)]
      ensures off + |text| < buf.Length && buf[off..off + |text|] == text && buf[off + |text|] == NUL
      ensures forall i :: 0 <= i < buf.Length && !(off <= i <= off + |text|) ==> buf[i] == old(buf[i])
    {
      buf[off + |text|] := NUL;
      forall i | 0 <= i < |text| {
        buf[off + i] := text[i];
      }
      assert Stored(Copy(off, text));
      forall c | c in copies
        ensures Stored(c)
      {
        assert old(Stored(c));
        assert buf[c.start..c.start + |c.text|] == old(buf[c.start..c.start + |c.text|]);
      }
      copies := copies + [Copy(off, text)];
    }

    /** The copies recorded so far end where the next block begins. */
    lemma CopiesBelowUsed()
      requires Valid()
      ensures CopiesBelow(used)
    {
      forall c | c in copies
        ensures c.start + |c.text| < used
      {
        assert Block(c.start, |c.text| + 1) in blocks;
      }
    }

    /** ar_strndup: the copy holds the bytes before the first NUL, at most `inlen`; every earlier copy stays. (No
        object in memory is as large as the address space.) */
    method StrNDup(str: seq<char>, inlen: nat) returns (p: Ptr)
      requires Valid() && (inlen <= |str| || NUL in str) && |str| < SIZE_MAX - 16
      modifies this`used, this`blocks, this`copies, buf
      ensures Valid()
      ensures p == Null <==> StrNLen(str, inlen) + 1 > old(size - used)
      ensures (p, used) == AllocStep(size, old(used), StrNLen(str, inlen) + 1)
      ensures p == Null ==> used == old(used) && blocks == old(blocks)
      ensures p == Null ==> copies == old(copies) && buf[..] == old(buf[..])
      ensures p != Null ==> p == At(old(used)) && copies == old(copies) + [Copy(p.off, str[..StrNLen(str, inlen)])]
    {
      var len := StrNLen(str, inlen);
      CopiesBelowUsed();
      p := Alloc(len + 1);
      if p == Null {
        return;
      }
      StoreCopy(p.off, str[..len]);
    }

    /** ar_strdup */
    method StrDup(str: seq<char>) returns (p: Ptr)
      requires Valid() && NUL in str && |str| < SIZE_MAX - 16
      modifies this`used, this`blocks, this`copies, buf
      ensures Valid()
      ensures p == Null <==> StrLen(str) + 1 > old(size - used)
      ensures (p, used) == AllocStep(size, old(used), StrLen(str) + 1)
      ensures p == Null ==> used == old(used) && blocks == old(blocks)
      ensures p == Null ==> copies == old(copies) && buf[..] == old(buf[..])
      ensures p != Null ==> p == At(old(used)) && copies == old(copies) + [Copy(p.off, str[..StrLen(str)])]
    {
      var len := StrLen(str);
      CopiesBelowUsed();
      p := Alloc(len + 1);
      if p == Null {
        return;
      }
      StoreCopy(p.off, str[..len]);
    }
  }

  // ---------------------------------------------------------------- runs of requests

  /** One request against `used` of `size` bytes. */
  function AllocStep(size: word, used: word, len: word): (Ptr, word)
    requires used <= size
  {
    if size - used < RoundUp(len) then (Null, used) else (At(used), used + RoundUp(len))
  }

  function AllocRun(size: word, used: word, lens: seq<word>): (r: (seq<Ptr>, word))
    requires used <= size
    ensures |r.0| == |lens| && used <= r.1 <= size
    decreases |lens|
  {
    if lens == [] then ([], used)
    else
      var (p, used1) := AllocStep(size, used, lens[0]);
      var (ps, used2) := AllocRun(size, used1, lens[1..]);
      ([p] + ps, used2)
  }

  /** The rounded sizes of the requests that were served. */
  function Served(ps: seq<Ptr>, lens: seq<word>): nat
    requires |ps| == |lens|
  {
    if ps == [] then 0 else (if ps[0] == Null then 0 else RoundUp(lens[0])) + Served(ps[1..], lens[1..])
  }

  lemma StepIs(size: word, used: word, len: word)
    requires used <= size && used % 16 == 0
    ensures var (p, used') := AllocStep(size, used, len);
            && used' == used + (if p == Null then 0 else RoundUp(len)) && used' % 16 == 0
            && (p != Null ==> p.off == used)
  {
    RoundUpIs(len);
    SumOfMultiples(used, RoundUp(len));
  }

  lemma SumOfMultiples(a: nat, b: nat)
    requires a % 16 == 0 && b % 16 == 0
    ensures (a + b) % 16 == 0
  {
  }

  /** Over any run: every block is aligned and inside the buffer, every later block lies behind every earlier
      one, and the bytes used grow by exactly the rounded sizes served. A block is its rounded size; the bytes
      asked for are inside it exactly when the rounding did not wrap. */
  lemma {:induction false} RunKeepsBlocksApart(size: word, used: word, lens: seq<word>)
    requires used <= size && size % 16 == 0 && used % 16 == 0
    ensures var (ps, used') := AllocRun(size, used, lens);
            && used' == used + Served(ps, lens) && used' % 16 == 0
            && (forall i :: 0 <= i < |ps| && ps[i] != Null ==>
                  used <= ps[i].off && ps[i].off % 16 == 0 && ps[i].off + RoundUp(lens[i]) <= used')
            && (forall i, j :: 0 <= i < j < |ps| && ps[i] != Null && ps[j] != Null ==>
                  ps[i].off + RoundUp(lens[i]) <= ps[j].off)
    ensures forall i :: 0 <= i < |lens| ==> (lens[i] <= RoundUp(lens[i]) <==> lens[i] <= SIZE_MAX - 15)
    decreases |lens|
  {
    forall i | 0 <= i < |lens| ensures lens[i] <= RoundUp(lens[i]) <==> lens[i] <= SIZE_MAX - 15 {
      RoundUpIs(lens[i]);
    }
    if lens != [] {
      var (p, used1) := AllocStep(size, used, lens[0]);
      StepIs(size, used, lens[0]);
      RunKeepsBlocksApart(size, used1, lens[1..]);
      var (ps, _) := AllocRun(size, used1, lens[1..]);
      assert AllocRun(size, used, lens).0 == [p] + ps && ([p] + ps)[1..] == ps;
    }
  }

  // ---------------------------------------------------------------- runs of calls

  /** One call a client makes. */
  datatype Op = Alloc(len: word) | StrDup(str: seq<char>) | StrNDup(str: seq<char>, inlen: nat)

  /** The string is one: it ends in a NUL, or is long enough for the bound. */
  predicate IsLegal(op: Op) {
    match op
    case Alloc(_) => true
    case StrDup(str) => NUL in str && |str| < SIZE_MAX - 16
    case StrNDup(str, inlen) => (inlen <= |str| || NUL in str) && |str| < SIZE_MAX - 16
  }

  /** The text a call stores. */
  function TextOf(op: Op): (t: Option<seq<char>>)
    requires IsLegal(op)
    ensures t.None? <==> op.Alloc?
    ensures op.StrDup? ==> t.value <= op.str && |t.value| == StrLen(op.str)
    ensures op.StrNDup? ==> t.value <= op.str && |t.value| == StrNLen(op.str, op.inlen)
  {
    match op
    case Alloc(_) => None
    case StrDup(str) => Some(str[..StrLen(str)])
    case StrNDup(str, inlen) => Some(str[..StrNLen(str, inlen)])
  }

  /** The bytes a call asks for. */
  function Requested(op: Op): (len: word)
    requires IsLegal(op)
    ensures op.StrDup? ==> len == StrLen(op.str) + 1
    ensures op.StrNDup? ==> len == StrNLen(op.str, op.inlen) + 1
  {
    if op.Alloc? then op.len else |TextOf(op).value| + 1
  }

  function RequestedAll(ops: seq<Op>): (lens: seq<word>)
    requires forall op <- ops :: IsLegal(op)
    ensures |lens| == |ops|
  {
    if ops == [] then [] else [Requested(ops[0])] + RequestedAll(ops[1..])
  }

  method Perform(a: BtArena, op: Op) returns (p: Ptr)
    requires a.Valid() && IsLegal(op)
    modifies a`used, a`blocks, a`copies, a.buf
    ensures a.Valid() && old(a.copies) <= a.copies
    ensures (p, a.used) == AllocStep(a.size, old(a.used), Requested(op))
    ensures p != Null && TextOf(op).Some? ==> Copy(p.off, TextOf(op).value) in a.copies
  {
    match op
    case Alloc(len) => p := a.Alloc(len);
    case StrDup(str) => p := a.StrDup(str);
    case StrNDup(str, inlen) => p := a.StrNDup(str, inlen);
  }

  /** Every run of allocations and string copies: the pointers are those of the run of requests, and at its end every
      string copied before or during the run is still there, byte by byte. */
  method Drive(a: BtArena, ops: seq<Op>) returns (ps: seq<Ptr>)
    requires a.Valid() && forall op <- ops :: IsLegal(op)
    modifies a`used, a`blocks, a`copies, a.buf
    ensures a.Valid() && old(a.copies) <= a.copies
    ensures (ps, a.used) == AllocRun(a.size, old(a.used), RequestedAll(ops))
    ensures forall c <- a.copies ::
              && c.start + |c.text| < a.buf.Length
              && a.buf[c.start..c.start + |c.text|] == c.text && a.buf[c.start + |c.text|] == NUL
    ensures forall i :: 0 <= i < |ops| && ps[i] != Null && TextOf(ops[i]).Some? ==>
              Copy(ps[i].off, TextOf(ops[i]).value) in a.copies
    decreases |ops|
  {
    if ops == [] {
      return [];
    }
    var p := Perform(a, ops[0]);
    assert forall op <- ops[1..] :: op in ops;
    ghost var mid := a.copies;
    var rest := Drive(a, ops[1..]);
    ps := [p] + rest;
    forall i | 0 <= i < |ops| && ps[i] != Null && TextOf(ops[i]).Some?
      ensures Copy(ps[i].off, TextOf(ops[i]).value) in a.copies
    {
      if i == 0 {
        assert Copy(p.off, TextOf(ops[0]).value) in mid && mid <= a.copies;
      } else {
        assert ps[i] == rest[i - 1] && ops[i] == ops[1..][i - 1];
      }
    }
  }
}
