/** Shared C notions: optional values, 32-bit counters, and NUL-terminated strings. */
module CBase {

  datatype Option<+T> = None | Some(value: T)

  newtype uint32 = x: int | 0 <= x < 0x1_0000_0000

  const NUL: char := '\0'

  /** strlen: the index of the first NUL. */
  function StrLen(s: seq<char>): (n: nat)
    requires NUL in s
    ensures n < |s| && s[n] as int == 0 && forall i :: 0 <= i < n ==> s[i] as int != 0
  {
    if s[0] == NUL then 0 else 1 + StrLen(s[1..])
  }

  lemma {:induction false} StrLenIs(s: seq<char>, m: nat)
    requires m < |s| && s[m] == NUL && NUL !in s[..m]
    ensures StrLen(s) == m
  {
    if m > 0 {
      assert s[0] == s[..m][0] && s[..m][1..] == s[1..][..m - 1];
      assert forall c <- s[1..][..m - 1] :: c in s[..m];
      StrLenIs(s[1..], m - 1);
    }
  }

  /** strnlen: the number of bytes before the first NUL, never looking past `limit` bytes. */
  function StrNLen(s: seq<char>, limit: nat): (n: nat)
    requires limit <= |s| || NUL in s
    ensures n <= limit && n <= |s| && forall i :: 0 <= i < n ==> s[i] as int != 0
    ensures n < limit ==> n < |s| && s[n] as int == 0
  {
    if limit == 0 || s[0] == NUL then 0 else 1 + StrNLen(s[1..], limit - 1)
  }

  function Reverse<T>(s: seq<T>): (r: seq<T>)
    ensures |r| == |s|
    ensures forall i :: 0 <= i < |s| ==> r[i] == s[|s| - 1 - i]
  {
    if s == [] then [] else Reverse(s[1..]) + [s[0]]
  }

  /** One step of a writer that fills a buffer from the front: `done` is written and the rest is as before, then
      a piece is written behind it. */
  lemma Extend(before: seq<char>, was: seq<char>, now: seq<char>, n: nat, next: nat, done: string, piece: string)
    requires n <= next <= |before| == |was| == |now|
    requires was[..n] == done && was[n..] == before[n..]
    requires now[..n] == was[..n] && now[n..next] == piece && now[next..] == was[next..]
    ensures now[..next] == done + piece && now[next..] == before[next..]
  {
    assert now[..next] == now[..n] + now[n..next];
    assert was[next..] == was[n..][next - n..];
    assert before[next..] == before[n..][next - n..];
  }
}
