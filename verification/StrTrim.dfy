/** Trimming a C string in place: one variant returns an offset, the other moves the text to the front. */
module StrTrim {
  import opened CBase

  /** isspace in the C locale: space, \t, \n, \v, \f, \r. */
  predicate IsWs(c: char) {
    c == ' ' || 9 <= c as int <= 13
  }

  lemma IsWsIs(c: char)
    ensures IsWs(c) <==> c == ' ' || c == '\t' || c == '\n' || c == '\r' || c as int == 11 || c as int == 12
  {
  }

  predicate AllWs(s: seq<char>) {
    forall c <- s :: IsWs(c)
  }

  // ---------------------------------------------------------------- which calls stay inside the buffer

  /** There is something to stop at among the first len bytes. */
  predicate KeepsSome(s: seq<char>, len: nat) {
    len <= |s| && !AllWs(s[..len])
  }

  /** The byte behind the first len is a NUL or whitespace. */
  predicate EndsAt(s: seq<char>, len: nat) {
    len < |s| && (s[len] == NUL || IsWs(s[len]))
  }

  /** What strtriml demands of its caller: no bytes at all; or an end at len; or something to stop at and room for
      the NUL, behind the first len bytes or in place of trailing whitespace. */
  predicate Trimmable(s: seq<char>, len: nat) {
    len == 0 || EndsAt(s, len) || (KeepsSome(s, len) && (len < |s| || IsWs(s[len - 1])))
  }

  /** The same for strtriml_move, which can also put the NUL where leading whitespace makes room for it. */
  predicate TrimmableByMove(s: seq<char>, len: nat) {
    len == 0 || EndsAt(s, len) || (KeepsSome(s, len) && (len < |s| || IsWs(s[len - 1]) || IsWs(s[0])))
  }

  /** The forward scan over the bytes that are really there: where it stops (position len may hold whitespace),
      or None when it reads behind the last byte. */
  function ForwardScan(s: seq<char>, len: nat, p: nat): (r: Option<nat>)
    requires p <= len
    ensures r.Some? ==> p <= r.value <= len && r.value < |s|
    decreases len - p
  {
    if p >= |s| then None
    else if IsWs(s[p]) && p < len then ForwardScan(s, len, p + 1)
    else Some(p)
  }

  /** The backward scan: None when it reads in front of the first byte or behind the last. */
  function BackwardScan(s: seq<char>, end: int): (r: Option<nat>)
    requires end >= -1
    ensures r.Some? ==> r.value <= end && r.value < |s| && !IsWs(s[r.value])
    decreases end + 1
  {
    if end < 0 || end >= |s| then None else if IsWs(s[end]) then BackwardScan(s, end - 1) else Some(end)
  }

  /** Where the final NUL goes: a byte, no byte at all, or outside the buffer. */
  datatype Access = At(pos: nat) | NoWrite | OutOfBounds

  /** Every access of a call, branch by branch; `moves` says which variant. */
  function Accesses(s: seq<char>, len: nat, moves: bool): Access {
    if len == 0 then NoWrite
    else match ForwardScan(s, len, 0)
      case None => OutOfBounds
      case Some(p) =>
        if IsWs(s[p]) then At(if moves then 0 else p)
        else if s[p] == NUL && p == len then (if moves then At(0) else NoWrite)
        else match BackwardScan(s, len - 1)
          case None => OutOfBounds
          case Some(end) =>
            var pos: int := if moves then end - p + 1 else end + 1;
            if 0 <= pos < |s| then At(pos) else OutOfBounds
  }

  lemma {:induction false} ForwardScanIs(s: seq<char>, len: nat, p: nat)
    requires p <= len
    ensures ForwardScan(s, len, p).None? <==> |s| <= len && (p >= |s| || AllWs(s[p..]))
    ensures ForwardScan(s, len, p).Some? ==>
              var q := ForwardScan(s, len, p).value;
              && AllWs(s[p..q]) && (q < len ==> !IsWs(s[q]))
    decreases len - p
  {
    if p < |s| && IsWs(s[p]) && p < len {
      ForwardScanIs(s, len, p + 1);
      assert s[p..] == [s[p]] + s[p + 1..];
      var r := ForwardScan(s, len, p + 1);
      assert r.Some? ==> s[p..r.value] == [s[p]] + s[p + 1..r.value];
    } else if p < |s| {
      assert s[p..p] == [];
      assert s[p] in s[p..];
    }
  }

  lemma {:induction false} BackwardScanIs(s: seq<char>, end: int)
    requires -1 <= end < |s|
    ensures BackwardScan(s, end).None? <==> AllWs(s[..end + 1])
    ensures BackwardScan(s, end).Some? ==>
              var q := BackwardScan(s, end).value;
              AllWs(s[q + 1..end + 1])
    decreases end + 1
  {
    if end >= 0 {
      assert s[..end + 1] == s[..end] + [s[end]];
      BackwardScanIs(s, end - 1);
      var r := BackwardScan(s, end - 1);
      assert r.Some? ==> s[r.value + 1..end + 1] == s[r.value + 1..end] + [s[end]];
    }
  }

  /** The exact condition: a call reads and writes only inside the buffer iff its precondition holds. */
  lemma InBoundsIffTrimmable(s: seq<char>, len: nat)
    ensures Accesses(s, len, false) != OutOfBounds <==> Trimmable(s, len)
    ensures Accesses(s, len, true) != OutOfBounds <==> TrimmableByMove(s, len)
  {
    if len > 0 {
      ForwardScanIs(s, len, 0);
      var f := ForwardScan(s, len, 0);
      if len <= |s| {
        BackwardScanIs(s, len - 1);
        if f.Some? && f.value < len {
          StopsInside(s, len, f.value);
        } else {
          assert s[..len] == s[0..len];
        }
      }
    }
  }

  /** With a byte to stop at in position p, the backward scan stops there or later; it stops at the very last byte
      iff that is no whitespace. */
  lemma StopsInside(s: seq<char>, len: nat, p: nat)
    requires p < len <= |s| && AllWs(s[..p]) && !IsWs(s[p])
    ensures KeepsSome(s, len) && (p > 0 ==> IsWs(s[0]))
    ensures BackwardScan(s, len - 1).Some? && p <= BackwardScan(s, len - 1).value
    ensures BackwardScan(s, len - 1).value == len - 1 <==> !IsWs(s[len - 1])
  {
    assert s[p] == s[..len][p];
    assert p > 0 ==> s[0] == s[..p][0];
    StopsAtOrBehind(s, len - 1, p);
  }

  lemma {:induction false} StopsAtOrBehind(s: seq<char>, end: nat, p: nat)
    requires p <= end < |s| && !IsWs(s[p])
    ensures BackwardScan(s, end).Some? && p <= BackwardScan(s, end).value
  {
    if IsWs(s[end]) {
      StopsAtOrBehind(s, end - 1, p);
    }
  }

  /** Two inputs on which strtriml leaves the buffer: all spaces before len and a letter at len, where the backward
      scan runs off the front; and a full buffer without trailing space, where the NUL goes behind it. With trailing
      space, or when it may move the text, there is room; a NUL behind spaces stays as it is; and whitespace there is
      overwritten. */
  lemma OutOfBoundsExamples()
    ensures Accesses([' ', 'x'], 1, false) == OutOfBounds == Accesses([' ', 'x'], 1, true)
    ensures Accesses(['a'], 1, false) == OutOfBounds
    ensures Accesses(['a', ' '], 2, false) == At(1)
    ensures Accesses([' ', 'a'], 2, false) == OutOfBounds && Accesses([' ', 'a'], 2, true) == At(1)
    ensures Accesses([' ', NUL], 1, false) == NoWrite && Accesses([' ', NUL], 1, true) == At(0)
    ensures Accesses([' ', ' '], 1, false) == At(1) && Accesses([' ', ' '], 1, true) == At(0)
    ensures Accesses(['a', 'b'], 1, false) == At(1)
  {
    assert BackwardScan([' ', 'a'], 1) == Some(1);
    assert ForwardScan([' ', 'a'], 2, 0) == ForwardScan([' ', 'a'], 2, 1);
    assert ForwardScan([' ', NUL], 1, 0) == ForwardScan([' ', NUL], 1, 1);
    assert ForwardScan([' ', ' '], 1, 0) == ForwardScan([' ', ' '], 1, 1);
    assert BackwardScan([' ', 'x'], 0) == BackwardScan([' ', 'x'], -1);
    assert ForwardScan([' ', 'x'], 1, 0) == ForwardScan([' ', 'x'], 1, 1);
    assert BackwardScan(['a', ' '], 1) == BackwardScan(['a', ' '], 0);
  }

  // ---------------------------------------------------------------- the region

  /** The first position, up to len, that is not whitespace. */
  function FirstKept(s: seq<char>, len: nat): (a: nat)
    requires len <= |s|
    ensures a <= len && AllWs(s[..a]) && (a < len ==> !IsWs(s[a]))
  {
    if len == 0 || !IsWs(s[0]) then 0 else 1 + FirstKept(s[1..], len - 1)
  }

  /** One past the last position below len that is not whitespace, or `floor`. */
  function LastKept(s: seq<char>, floor: nat, len: nat): (b: nat)
    requires floor <= len <= |s|
    ensures floor <= b <= len && AllWs(s[b..len]) && (floor < b ==> !IsWs(s[b - 1]))
    decreases len
  {
    if len == floor then floor else if IsWs(s[len - 1]) then LastKept(s, floor, len - 1) else len
  }

  lemma {:induction false} FirstKeptIs(s: seq<char>, len: nat, a: nat)
    requires a <= len <= |s| && AllWs(s[..a]) && (a < len ==> !IsWs(s[a]))
    ensures FirstKept(s, len) == a
  {
    if a > 0 {
      assert s[0] == s[..a][0] && s[..a][1..] == s[1..][..a - 1];
      assert forall c <- s[1..][..a - 1] :: c in s[..a];
      FirstKeptIs(s[1..], len - 1, a - 1);
    }
  }

  lemma {:induction false} LastKeptIs(s: seq<char>, floor: nat, len: nat, b: nat)
    requires floor <= b <= len <= |s| && AllWs(s[b..len]) && (floor < b ==> !IsWs(s[b - 1]))
    ensures LastKept(s, floor, len) == b
    decreases len
  {
    if b < len {
      assert s[len - 1] == s[b..len][len - 1 - b];
      assert forall c <- s[b..len - 1] :: c in s[b..len];
      LastKeptIs(s, floor, len - 1, b);
    }
  }

  datatype Region = Region(a: nat, b: nat)

  function Trimmed(s: seq<char>, len: nat): (r: Region)
    requires len <= |s|
    ensures r.a <= r.b <= len
  {
    var a := FirstKept(s, len);
    Region(a, LastKept(s, a, len))
  }

  /** The region has no whitespace at either end and only whitespace was dropped; no other non-empty region
      does that, and when everything is whitespace the region is the empty one at the end. */
  lemma TrimmedIsTheRegion(s: seq<char>, len: nat, a: nat, b: nat)
    requires len <= |s| && a <= b <= len
    ensures (a < b && !IsWs(s[a]) && !IsWs(s[b - 1]) && AllWs(s[..a]) && AllWs(s[b..len]))
              <==> (Trimmed(s, len) == Region(a, b) && a < b)
    ensures AllWs(s[..len]) <==> Trimmed(s, len) == Region(len, len)
  {
    if a < b && !IsWs(s[a]) && AllWs(s[..a]) {
      FirstKeptIs(s, len, a);
      if !IsWs(s[b - 1]) && AllWs(s[b..len]) {
        LastKeptIs(s, a, len, b);
      }
    }
    if AllWs(s[..len]) {
      FirstKeptIs(s, len, len);
    }
  }

  /** A tab in front and a newline behind are dropped. */
  lemma TrimExample()
    ensures Trimmed("\tab\n", 4) == Region(1, 3) && Text("\tab\n", 4) == "ab"
  {
    var s := "\tab\n";
    assert s[..1] == ['\t'] && s[3..4] == ['\n'];
    TrimmedIsTheRegion(s, 4, 1, 3);
  }

  /** Everything kept is what both variants put between their result and the next NUL they write. */
  function Text(s: seq<char>, len: nat): seq<char>
    requires len <= |s|
  {
    var r := Trimmed(s, len);
    s[r.a..r.b]
  }

  /** The forward loop: stops at the first byte that is not whitespace, or at position len, which may hold
      whitespace too. */
  method SkipLeading(str: array<char>, len: nat) returns (p: nat, spaceAtLen: bool)
    requires len < str.Length || KeepsSome(str[..], len)
    ensures p == FirstKept(str[..], len)
    ensures p == len ==> len < str.Length
    ensures spaceAtLen <==> p == len && IsWs(str[len])
  {
    p := 0;
    assert str[..][..len] == str[..len];
    while IsWs(str[p])
      invariant 0 <= p <= len && p < str.Length && AllWs(str[..p])
      decreases len - p
    {
      if p == len {
        FirstKeptIs(str[..], len, p);
        return p, true;
      }
      assert str[..p + 1] == str[..p] + [str[p]];
      p := p + 1;
    }
    spaceAtLen := false;
    FirstKeptIs(str[..], len, p);
  }

  /** The backward loop; it stops because position p is not whitespace. */
  method SkipTrailing(str: array<char>, p: nat, len: nat) returns (end: nat)
    requires p < len <= str.Length && !IsWs(str[p])
    ensures end + 1 == LastKept(str[..], p, len) && p <= end
  {
    end := len - 1;
    while IsWs(str[end])
      invariant p <= end < len && LastKept(str[..], p, len) == LastKept(str[..], p, end + 1)
      decreases end
    {
      end := end - 1;
    }
  }

  /** Trailing whitespace lies behind the last kept byte. */
  lemma LastKeptLeavesRoom(s: seq<char>, p: nat, len: nat)
    requires p < len <= |s| && !IsWs(s[p])
    ensures LastKept(s, p, len) < len <==> IsWs(s[len - 1])
  {
  }

  /** strtriml: returns the offset of the region; at most the byte behind the region is changed, to NUL. */
  method StrTrimL(str: array<char>, len: nat) returns (ret: nat)
    requires Trimmable(str[..], len)
    modifies str
    ensures len == 0 ==> ret == 0 && str[..] == old(str[..])
    ensures len > 0 ==>
              var r := Trimmed(old(str[..]), len);
              ret == r.a && str[..] == old(str[..])[r.b := NUL]
  {
    if len == 0 {
      return 0;
    }
    var p, spaceAtLen := SkipLeading(str, len);
    if spaceAtLen {
      str[p] := NUL;
      return p;
    }
    if str[p] == NUL && p == len {
      return p;
    }
    assert str[..][..p] == str[..p];
    var end := SkipTrailing(str, p, len);
    LastKeptLeavesRoom(str[..], p, len);
    str[end + 1] := NUL;
    ret := p;
  }

  /** The byte such a call writes is the one behind the region (for the moving variant, behind the moved region). */
  lemma AccessIsBehindTheRegion(s: seq<char>, len: nat, moves: bool)
    requires 0 < len <= |s| && Accesses(s, len, moves).At?
    ensures Accesses(s, len, moves).pos == if moves then |Text(s, len)| else Trimmed(s, len).b
  {
    ForwardScanIs(s, len, 0);
    var p := ForwardScan(s, len, 0).value;
    assert s[0..p] == s[..p];
    FirstKeptIs(s, len, p);
    BackwardScanIs(s, len - 1);
    if p < len {
      ScanEndsAtLastKept(s, len, p);
    } else {
      LastKeptIs(s, p, len, len);
    }
  }

  lemma ScanEndsAtLastKept(s: seq<char>, len: nat, p: nat)
    requires p < len <= |s| && AllWs(s[..p]) && !IsWs(s[p])
    ensures BackwardScan(s, len - 1).Some? && p <= BackwardScan(s, len - 1).value
    ensures LastKept(s, p, len) == BackwardScan(s, len - 1).value + 1
  {
    StopsInside(s, len, p);
    BackwardScanIs(s, len - 1);
    LastKeptIs(s, p, len, BackwardScan(s, len - 1).value + 1);
  }

  /** What moving leaves: the region, a NUL, then the bytes that were there before. */
  function Moved(s: seq<char>, len: nat): (r: seq<char>)
    requires len <= |s| && |Text(s, len)| < |s|
    ensures |r| == |s|
  {
    Text(s, len) + [NUL] + s[|Text(s, len)| + 1..]
  }

  lemma MovedIs(s: seq<char>, len: nat, p: nat, n: nat)
    requires p + n <= len <= |s| && n < |s| && FirstKept(s, len) == p && LastKept(s, p, len) == p + n
    ensures |Text(s, len)| == n && Moved(s, len) == s[p..p + n] + [NUL] + s[n + 1..]
  {
    assert Text(s, len) == s[p..p + n];
  }

  /** strtriml_move */
  method StrTrimLMove(str: array<char>, len: nat)
    requires TrimmableByMove(str[..], len)
    modifies str
    ensures len == 0 ==> str[..] == old(str[..])
    ensures len > 0 ==> |Text(old(str[..]), len)| < str.Length && str[..] == Moved(old(str[..]), len)
  {
    if len == 0 {
      return;
    }
    ghost var s := str[..];
    var p, spaceAtLen := SkipLeading(str, len);
    if spaceAtLen {
      MovedIs(s, len, len, 0);
      str[0] := NUL;
      return;
    }
    if str[p] == NUL && p == len {
      MovedIs(s, len, len, 0);
      str[0] := NUL;
      return;
    }
    assert AllWs(s[..p]) && s[..p] == str[..p] && p < len;
    var end := SkipTrailing(str, p, len);
    var trimmedLen := end - p + 1;
    LastKeptLeavesRoom(s, p, len);
    MovedIs(s, len, p, trimmedLen);
    MoveDown(str, p, trimmedLen);
  }

  /** The memmove, skipped when the text is already at the front, and the NUL behind it. */
  method MoveDown(str: array<char>, p: nat, n: nat)
    requires p + n <= str.Length && n < str.Length
    modifies str
    ensures str[..] == old(str[..])[p..p + n] + [NUL] + old(str[..])[n + 1..]
  {
    if p != 0 {
      forall i | 0 <= i < n {
        str[i] := str[p + i];
      }
    }
    str[n] := NUL;
  }

  /** strtrim and strtrim_move: the same on the whole C string. */
  method StrTrim(str: array<char>) returns (ret: nat)
    requires NUL in str[..]
    modifies str
    ensures var s := old(str[..]); var r := Trimmed(s, StrLen(s));
            && ret == r.a
            && str[..] == if StrLen(s) == 0 then s else s[r.b := NUL]
  {
    ret := StrTrimL(str, StrLen(str[..]));
  }

  method StrTrimMove(str: array<char>)
    requires NUL in str[..]
    modifies str
    ensures var s := old(str[..]); str[..] == if StrLen(s) == 0 then s else Moved(s, StrLen(s))
  {
    StrTrimLMove(str, StrLen(str[..]));
  }

  /** The C string that starts here. */
  function CString(s: seq<char>): seq<char> {
    if NUL in s then s[..StrLen(s)] else s
  }

  lemma CStringAt(t: seq<char>, rest: seq<char>)
    ensures CString(t + [NUL] + rest) == CString(t)
  {
    var s := t + [NUL] + rest;
    assert s[|t|] == NUL;
    assert s[..|CString(t)|] == CString(t);
    StrLenIs(s, |CString(t)|);
  }

  /** Both variants select the same text: the C string at the returned offset of the one buffer and the C string
      at the front of the other are the same, the region itself when it holds no NUL. */
  lemma BothSelectTheSameText(s: seq<char>, len: nat)
    requires Trimmable(s, len) && len > 0
    ensures var r := Trimmed(s, len);
            && CString(s[r.b := NUL][r.a..]) == CString(Moved(s, len)) == CString(Text(s, len))
            && (NUL !in Text(s, len) ==> CString(Moved(s, len)) == Text(s, len))
  {
    RoomBehindRegion(s, len);
    CutText(s, len);
    CStringAt(Text(s, len), s[|Text(s, len)| + 1..]);
  }

  lemma RoomBehindRegion(s: seq<char>, len: nat)
    requires Trimmable(s, len) && len > 0
    ensures len <= |s| && Trimmed(s, len).b < |s|
  {
    if len == |s| {
      assert s == s[..len];
      var a := Trimmed(s, len).a;
      if a < len {
        LastKeptLeavesRoom(s, a, len);
      }
    }
  }

  lemma CutText(s: seq<char>, len: nat)
    requires len <= |s| && Trimmed(s, len).b < |s|
    ensures var r := Trimmed(s, len); CString(s[r.b := NUL][r.a..]) == CString(Text(s, len))
  {
    var r := Trimmed(s, len);
    CutAt(s, r.a, r.b);
    CStringAt(Text(s, len), s[r.b + 1..]);
  }

  lemma CutAt(s: seq<char>, a: nat, b: nat)
    requires a <= b < |s|
    ensures s[b := NUL][a..] == s[a..b] + [NUL] + s[b + 1..]
  {
  }
}
