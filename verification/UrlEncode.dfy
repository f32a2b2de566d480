/** Percent-encoding. A byte is a char below 256. */
module UrlEncode {
  import opened CBase

  type byte = c: char | c as int < 0x100

  const HEXCHARS: string := "0123456789ABCDEF"

  predicate Between(lo: char, c: char, hi: char) {
    lo <= c <= hi
  }

  /** The encoder's range test for bytes it must escape. */
  predicate MustEscape(c: byte, raw: bool) {
    || (c < '0' && c != '-' && c != '.')
    || (c < 'A' && c > '9')
    || (c > 'Z' && c < 'a' && c != '_')
    || (c > 'z' && (!raw || c != '~'))
  }

  function EncodeByte(c: byte, raw: bool): (r: string)
    ensures 1 <= |r| <= 3
  {
    if !raw && c == ' ' then "+"
    else if MustEscape(c, raw) then ['%', HEXCHARS[c as int / 16], HEXCHARS[c as int % 16]]
    else [c]
  }

  function Encode(s: seq<byte>, raw: bool): (r: string)
    ensures |s| <= |r| <= 3 * |s|
  {
    if s == [] then [] else EncodeByte(s[0], raw) + Encode(s[1..], raw)
  }

  /** In raw mode exactly the unreserved bytes (RFC 3986, section 2.3) stay as they are; otherwise '~' is escaped too,
      and a space becomes a plus sign. Everything else is a percent sign and two upper-case digits (section 2.1). */
  lemma EncodedBytes(c: byte)
    ensures EncodeByte(c, true) == [c] <==>
              'A' <= c <= 'Z' || 'a' <= c <= 'z' || '0' <= c <= '9' || c == '-' || c == '.' || c == '_' || c == '~'
    ensures EncodeByte(c, false) == [c] <==>
              'A' <= c <= 'Z' || 'a' <= c <= 'z' || '0' <= c <= '9' || c == '-' || c == '.' || c == '_'
    ensures EncodeByte(c, false) == "+" <==> c == ' '
    ensures forall raw :: EncodeByte(c, raw) != [c] && !(c == ' ' && !raw) ==>
              EncodeByte(c, raw) ==
                ['%', "0123456789ABCDEF"[c as int / 16], "0123456789ABCDEF"[c as int % 16]]
  {
  }

  // ---------------------------------------------------------------- the decoder

  function HexValue(c: char): Option<nat> {
    if Between('0', c, '9') then Some(c as int - '0' as int)
    else if Between('A', c, 'F') then Some(c as int - 'A' as int + 10)
    else if Between('a', c, 'f') then Some(c as int - 'a' as int + 10)
    else None
  }

  lemma HexValueOfDigit(n: nat)
    requires n < 16
    ensures HexValue(HEXCHARS[n]) == Some(n)
  {
    assert HEXCHARS == "0123456789ABCDEF";
  }

  function DecodeFront(s: string, raw: bool): (r: (char, nat))
    requires s != []
    ensures 1 <= r.1 <= |s|
  {
    if s[0] == '%' && |s| >= 3 && HexValue(s[1]).Some? && HexValue(s[2]).Some? then
      ((HexValue(s[1]).value * 16 + HexValue(s[2]).value) as char, 3)
    else if !raw && s[0] == '+' then (' ', 1)
    else (s[0], 1)
  }

  function Decode(s: string, raw: bool): string
    decreases |s|
  {
    if s == [] then [] else
    var (c, n) := DecodeFront(s, raw);
    [c] + Decode(s[n..], raw)
  }

  lemma FrontOfEncoded(c: byte, raw: bool, rest: string)
    ensures DecodeFront(EncodeByte(c, raw) + rest, raw) == (c, |EncodeByte(c, raw)|)
  {
    var e := EncodeByte(c, raw);
    var s := e + rest;
    assert forall i :: 0 <= i < |e| ==> s[i] == e[i];
    HexValueOfDigit(c as int / 16);
    HexValueOfDigit(c as int % 16);
    assert c as int / 16 * 16 + c as int % 16 == c as int;
  }

  /** Round trip for every byte string, in both modes. */
  lemma {:induction false} DecodeEncode(s: seq<byte>, raw: bool)
    ensures Decode(Encode(s, raw), raw) == s
  {
    if s != [] {
      var rest := Encode(s[1..], raw);
      FrontOfEncoded(s[0], raw, rest);
      assert (EncodeByte(s[0], raw) + rest)[|EncodeByte(s[0], raw)|..] == rest;
      DecodeEncode(s[1..], raw);
    }
  }

  lemma {:induction false} EncodeConcat(a: seq<byte>, b: seq<byte>, raw: bool)
    ensures Encode(a + b, raw) == Encode(a, raw) + Encode(b, raw)
  {
    if a == [] {
      assert a + b == b;
    } else {
      assert (a + b)[1..] == a[1..] + b;
      EncodeConcat(a[1..], b, raw);
    }
  }

  lemma EncodeSnoc(s: seq<byte>, raw: bool, k: nat)
    requires k < |s|
    ensures Encode(s[..k + 1], raw) == Encode(s[..k], raw) + EncodeByte(s[k], raw)
    ensures |Encode(s[..k + 1], raw)| <= |Encode(s, raw)|
  {
    assert s[..k + 1] == s[..k] + [s[k]];
    EncodeConcat(s[..k], [s[k]], raw);
    assert Encode([s[k]], raw) == EncodeByte(s[k], raw) + Encode([], raw);
    assert s == s[..k + 1] + s[k + 1..];
    EncodeConcat(s[..k + 1], s[k + 1..], raw);
  }

  /** The three-way branch of the loop. */
  method PutByte(start: array<char>, at: nat, c: byte, raw: bool) returns (to: nat)
    requires at + |EncodeByte(c, raw)| <= start.Length
    modifies start
    ensures to == at + |EncodeByte(c, raw)|
    ensures start[..at] == old(start[..at]) && start[at..to] == EncodeByte(c, raw) && start[to..] == old(start[to..])
  {
    to := at;
    if !raw && c == ' ' {
      start[to] := '+';
      to := to + 1;
    } else if MustEscape(c, raw) {
      start[to] := '%';
      start[to + 1] := HEXCHARS[c as int / 16];
      start[to + 2] := HEXCHARS[c as int % 16];
      to := to + 3;
    } else {
      start[to] := c;
      to := to + 1;
    }
  }

  /** What the buffer holds once `from` bytes of s are encoded, `to` bytes in all. */
  ghost predicate Begun(before: seq<char>, now: seq<char>, s: seq<byte>, raw: bool, from: nat, to: nat) {
    && |now| == |before| && from <= |s|
    && to == |Encode(s[..from], raw)| <= |Encode(s, raw)| < |now|
    && now[..to] == Encode(s[..from], raw)
    && now[to..] == before[to..]
  }

  lemma BegunNext(before: seq<char>, was: seq<char>, now: seq<char>, s: seq<byte>, raw: bool, from: nat, to: nat,
                  next: nat)
    requires Begun(before, was, s, raw, from, to) && from < |s| && |now| == |was|
    requires next == to + |EncodeByte(s[from], raw)| <= |now|
    requires now[..to] == was[..to] && now[to..next] == EncodeByte(s[from], raw) && now[next..] == was[next..]
    ensures Begun(before, now, s, raw, from + 1, next)
  {
    EncodeSnoc(s, raw, from);
    Extend(before, was, now, to, next, Encode(s[..from], raw), EncodeByte(s[from], raw));
  }

  lemma RoomForNext(before: seq<char>, now: seq<char>, s: seq<byte>, raw: bool, from: nat, to: nat)
    requires Begun(before, now, s, raw, from, to) && from < |s|
    ensures to + |EncodeByte(s[from], raw)| < |now|
  {
    EncodeSnoc(s, raw, from);
  }

  lemma BegunAll(before: seq<char>, now: seq<char>, s: seq<byte>, raw: bool, to: nat)
    requires Begun(before, now, s, raw, |s|, to)
    ensures to == |Encode(s, raw)| < |now| && now[..to] == Encode(s, raw) && now[to + 1..] == before[to + 1..]
  {
    assert s[..|s|] == s;
    assert now[to + 1..] == now[to..][1..] && before[to + 1..] == before[to..][1..];
  }

  /** The loop and the NUL, into a buffer that is large enough. */
  method Fill(start: array<char>, s: seq<byte>, raw: bool)
    requires |Encode(s, raw)| < start.Length
    modifies start
    ensures var n := |Encode(s, raw)|;
            start[..n] == Encode(s, raw) && start[n] == NUL && start[n + 1..] == old(start[n + 1..])
  {
    ghost var before := start[..];
    var from, to := 0, 0;
    while from < |s|
      invariant 0 <= from <= |s| && 0 <= to && Begun(before, start[..], s, raw, from, to)
    {
      RoomForNext(before, start[..], s, raw, from, to);
      ghost var was := start[..];
      var next := PutByte(start, to, s[from], raw);
      BegunNext(before, was, start[..], s, raw, from, to, next);
      to, from := next, from + 1;
    }
    BegunAll(before, start[..], s, raw, to);
    start[to] := NUL;
  }

  /** urlencode: into the caller's buffer, or into 3 * len + 1 bytes of its own. */
  method UrlEncode(alloc: array?<char>, s: seq<byte>, raw: bool) returns (start: array<char>)
    requires alloc != null ==> |Encode(s, raw)| < alloc.Length
    modifies alloc
    ensures alloc != null ==> start == alloc
    ensures alloc == null ==> fresh(start) && start.Length == 3 * |s| + 1
    ensures var n := |Encode(s, raw)|;
            n < start.Length && start[..n] == Encode(s, raw) && start[n] == NUL
    ensures alloc != null ==> alloc[|Encode(s, raw)| + 1..] == old(alloc[|Encode(s, raw)| + 1..])
  {
    if alloc == null {
      start := new char[3 * |s| + 1];
    } else {
      start := alloc;
    }
    Fill(start, s, raw);
  }
}
