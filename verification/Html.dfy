/** HTML escaping into a bounded buffer. Bytes are chars. */
module Html {
  import opened CBase

  /** The table: the replacement of a mapped character, "" for the others. */
  function MapTo(c: char): string {
    match c
    case '<' => "&lt;"
    case '>' => "&gt;"
    case '"' => "&quot;"
    case '\'' => "&#039;"
    case '&' => "&amp;"
    case _ => ""
  }

  function EscapeChar(c: char): (r: string)
    ensures 1 <= |r| <= 6
  {
    if MapTo(c) == "" then [c] else MapTo(c)
  }

  function Escape(s: string): (r: string)
    ensures |r| >= |s|
  {
    if s == [] then [] else EscapeChar(s[0]) + Escape(s[1..])
  }

  /** The five replacements, and no other. */
  lemma EscapeCharIs(c: char)
    ensures EscapeChar('<') == "&lt;" && EscapeChar('>') == "&gt;" && EscapeChar('&') == "&amp;"
    ensures EscapeChar('"') == "&quot;" && EscapeChar('\'') == "&#039;"
    ensures c !in {'<', '>', '&', '"', '\''} <==> EscapeChar(c) == [c]
  {
  }

  /** An escape is the replacements of the characters, one behind the other. */
  lemma EscapeIsPiecewise(a: string, c: char, b: string)
    ensures Escape(a + [c] + b) == Escape(a) + EscapeChar(c) + Escape(b)
  {
    EscapeConcat(a + [c], b);
    EscapeConcat(a, [c]);
    assert Escape([c]) == EscapeChar(c) + Escape([]);
  }

  lemma {:induction false} EscapeConcat(a: string, b: string)
    ensures Escape(a + b) == Escape(a) + Escape(b)
  {
    if a == [] {
      assert a + b == b;
    } else {
      calc {
        Escape(a + b);
      ==  { assert (a + b)[1..] == a[1..] + b; }
        EscapeChar(a[0]) + Escape(a[1..] + b);
      ==  { EscapeConcat(a[1..], b); }
        EscapeChar(a[0]) + (Escape(a[1..]) + Escape(b));
      ==
        Escape(a) + Escape(b);
      }
    }
  }

  lemma EscapeSnoc(s: string, k: nat)
    requires k < |s|
    ensures Escape(s[..k + 1]) == Escape(s[..k]) + EscapeChar(s[k])
  {
    assert s[..k + 1] == s[..k] + [s[k]];
    EscapeConcat(s[..k], [s[k]]);
    assert Escape([s[k]]) == EscapeChar(s[k]) + Escape([]);
  }

  // ---------------------------------------------------------------- an inverse: character references

  /** The digits at the front. */
  function DigitCount(s: string): (n: nat)
    ensures n <= |s| && forall i :: 0 <= i < n ==> '0' <= s[i] <= '9'
  {
    if s == [] || !('0' <= s[0] <= '9') then 0 else 1 + DigitCount(s[1..])
  }

  /** The value of a decimal character reference's digits (HTML 4.01, section 5.3.1). */
  function Decimal(s: string): nat
    requires forall i :: 0 <= i < |s| ==> '0' <= s[i] <= '9'
  {
    if s == [] then 0 else Decimal(s[..|s| - 1]) * 10 + (s[|s| - 1] as int - '0' as int)
  }

  /** The character at the front of marked-up text, and how many bytes it takes: one of the entities lt, gt, quot
      and amp (section 5.3.2), a decimal reference below 256, or the byte itself. */
  function DecodeFront(s: string): (r: (char, nat))
    requires s != []
    ensures 1 <= r.1 <= |s|
  {
    if "&lt;" <= s then ('<', 4)
    else if "&gt;" <= s then ('>', 4)
    else if "&quot;" <= s then ('"', 6)
    else if "&amp;" <= s then ('&', 5)
    else if "&#" <= s then
      var digits := s[2..];
      var n := DigitCount(digits);
      if 0 < n < |digits| && digits[n] == ';' && Decimal(digits[..n]) < 256
      then (Decimal(digits[..n]) as char, n + 3) else (s[0], 1)
    else (s[0], 1)
  }

  function Decode(s: string): string
    decreases |s|
  {
    if s == [] then [] else
    var (c, n) := DecodeFront(s);
    [c] + Decode(s[n..])
  }

  lemma FrontOfEscape(c: char, rest: string)
    ensures DecodeFront(EscapeChar(c) + rest) == (c, |EscapeChar(c)|)
  {
    var s := EscapeChar(c) + rest;
    assert s[0] == EscapeChar(c)[0];
    if c == '\'' {
      QuoteReference(rest);
    } else if MapTo(c) != "" {
      assert s[1] == EscapeChar(c)[1];
    }
  }

  lemma QuoteReference(rest: string)
    ensures DecodeFront("&#039;" + rest) == ('\'', 6)
  {
    var s := "&#039;" + rest;
    assert s[2..] == ['0', '3', '9', ';'] + rest;
    assert s[2..][1..] == ['3', '9', ';'] + rest;
    assert s[2..][1..][1..] == ['9', ';'] + rest;
    assert s[2..][1..][1..][1..] == [';'] + rest;
    assert DigitCount([';'] + rest) == 0;
    assert DigitCount(['9', ';'] + rest) == 1;
    assert DigitCount(['3', '9', ';'] + rest) == 2;
    assert DigitCount(s[2..]) == 3;
    assert s[2..][..3] == ['0', '3', '9'];
    assert ['0', '3', '9'][..2] == ['0', '3'] && ['0', '3'][..1] == ['0'] && ['0'][..0] == [];
    assert Decimal(['0']) == 0;
    assert Decimal(['0', '3']) == 3;
    assert Decimal(['0', '3', '9']) == 39;
    assert s[1] == '#' && s[5] == ';';
    assert "&#" <= s;
  }

  /** Decoding the escape gives the text back, for every text. */
  lemma {:induction false} DecodeEscape(s: string)
    ensures Decode(Escape(s)) == s
  {
    if s != [] {
      var rest := Escape(s[1..]);
      FrontOfEscape(s[0], rest);
      assert (EscapeChar(s[0]) + rest)[|EscapeChar(s[0])|..] == rest;
      DecodeEscape(s[1..]);
    }
  }

  /** No escaped text contains a character that could open or close markup or an attribute value. */
  lemma {:induction false} EscapeHasNoMarkup(s: string)
    ensures forall c <- Escape(s) :: c !in {'<', '>', '"', '\''}
  {
    if s != [] {
      EscapeHasNoMarkup(s[1..]);
    }
  }

  // ---------------------------------------------------------------- the bounded writer

  /** The number of characters of `s` whose escape fits in `cap` bytes, taken greedily from the front. */
  function Fitting(s: string, cap: nat): (k: nat)
    ensures k <= |s|
  {
    if s == [] || |EscapeChar(s[0])| > cap then 0 else 1 + Fitting(s[1..], cap - |EscapeChar(s[0])|)
  }

  /** Greedy is longest: a prefix's escape fits exactly when the prefix is no longer than `Fitting`. */
  lemma {:induction false} FittingIsLongest(s: string, cap: nat, j: nat)
    requires j <= |s|
    ensures |Escape(s[..j])| <= cap <==> j <= Fitting(s, cap)
  {
    if j != 0 {
      assert s[..j][1..] == s[1..][..j - 1];
      if |EscapeChar(s[0])| <= cap {
        FittingIsLongest(s[1..], cap - |EscapeChar(s[0])|, j - 1);
      }
    }
  }

  lemma FittingIs(s: string, cap: nat, k: nat)
    requires k <= |s| && |Escape(s[..k])| <= cap
    requires k == |s| || |Escape(s[..k + 1])| > cap
    ensures k == Fitting(s, cap)
  {
    FittingIsLongest(s, cap, k);
    if k < |s| {
      FittingIsLongest(s, cap, k + 1);
    }
  }

  /** What a call leaves in the buffer: nothing changed when there is no room or no input; otherwise the escape
      of the longest prefix that leaves room for the NUL, the NUL, and the old bytes behind it. */
  ghost predicate Written(before: seq<char>, after: seq<char>, outlen: nat, input: string, n: nat) {
    |after| == |before| &&
    if outlen == 0 || input == [] then n == 0 && after == before
    else
      && n == |Escape(input[..Fitting(input, outlen - 1)])| < outlen <= |after|
      && after[..n] == Escape(input[..Fitting(input, outlen - 1)])
      && after[n] == NUL
      && after[n + 1..] == before[n + 1..]
  }

  /** What a reader recovers from the output is the longest prefix that fits, all of the input when there is
      room for its whole escape. */
  lemma WrittenDecodes(before: seq<char>, after: seq<char>, outlen: nat, input: string, n: nat)
    requires Written(before, after, outlen, input, n) && outlen > 0 && input != []
    ensures Decode(after[..n]) == input[..Fitting(input, outlen - 1)]
    ensures Fitting(input, outlen - 1) == |input| <==> |Escape(input)| < outlen
  {
    DecodeEscape(input[..Fitting(input, outlen - 1)]);
    AllFits(input, outlen - 1);
  }

  /** Both functions leave the same buffer and return the same length for the same text. */
  lemma WrittenIsUnique(before: seq<char>, after1: seq<char>, after2: seq<char>, outlen: nat, input: string,
                        n1: nat, n2: nat)
    requires Written(before, after1, outlen, input, n1) && Written(before, after2, outlen, input, n2)
    ensures n1 == n2 && after1 == after2
  {
    if outlen > 0 && input != [] {
      assert after1 == after1[..n1] + [NUL] + after1[n1 + 1..];
      assert after2 == after2[..n2] + [NUL] + after2[n2 + 1..];
    }
  }

  lemma AllFits(s: string, cap: nat)
    ensures |Escape(s)| <= cap <==> Fitting(s, cap) == |s|
  {
    FittingIsLongest(s, cap, |s|);
    assert s[..|s|] == s;
  }

  /** short_memcpy */
  method ShortMemcpy(dst: array<char>, at: nat, src: string)
    requires at + |src| <= dst.Length
    modifies dst
    ensures dst[..] == old(dst[..at]) + src + old(dst[at + |src|..])
  {
    var i := 0;
    while i < |src|
      invariant 0 <= i <= |src|
      invariant dst[..] == old(dst[..at]) + src[..i] + old(dst[at + i..])
    {
      dst[at + i] := src[i];
      i := i + 1;
    }
    assert src[..i] == src;
  }

  /** One turn of the loop both writers share: copy the escape of `c` unless it and the NUL do not fit. */
  method Put(out: array<char>, outlen: nat, at: nat, c: char) returns (next: nat, full: bool)
    requires at < outlen <= out.Length
    modifies out
    ensures full <==> at + |EscapeChar(c)| >= outlen
    ensures full ==> next == at && out[..] == old(out[..])
    ensures !full ==>
              && next == at + |EscapeChar(c)| < outlen
              && out[..at] == old(out[..at]) && out[at..next] == EscapeChar(c) && out[next..] == old(out[next..])
  {
    var mapTo := MapTo(c);
    if mapTo == "" {
      if at + 1 >= outlen {
        return at, true;
      }
      out[at] := c;
      return at + 1, false;
    }
    if at + |mapTo| >= outlen {
      return at, true;
    }
    ShortMemcpy(out, at, mapTo);
    next, full := at + |mapTo|, false;
  }

  /** What the buffer holds once k characters are escaped into it, n bytes in all, with room left for the NUL. */
  ghost predicate Begun(before: seq<char>, now: seq<char>, outlen: nat, text: string, k: nat, n: nat) {
    && |now| == |before| && k <= |text|
    && n == |Escape(text[..k])| < outlen <= |now|
    && now[..n] == Escape(text[..k])
    && now[n..] == before[n..]
  }

  lemma BegunNext(before: seq<char>, was: seq<char>, now: seq<char>, outlen: nat, text: string, k: nat, n: nat,
                  next: nat)
    requires Begun(before, was, outlen, text, k, n) && k < |text| && |now| == |was|
    requires next == n + |EscapeChar(text[k])| < outlen
    requires now[..n] == was[..n] && now[n..next] == EscapeChar(text[k]) && now[next..] == was[next..]
    ensures Begun(before, now, outlen, text, k + 1, next)
  {
    EscapeSnoc(text, k);
    Extend(before, was, now, n, next, Escape(text[..k]), EscapeChar(text[k]));
  }

  lemma Finish(before: seq<char>, now: seq<char>, after: seq<char>, outlen: nat, text: string, k: nat, n: nat)
    requires Begun(before, now, outlen, text, k, n) && text != [] && after == now[n := NUL]
    requires k == |text| || n + |EscapeChar(text[k])| >= outlen
    ensures Written(before, after, outlen, text, n)
  {
    if k < |text| {
      EscapeSnoc(text, k);
    }
    FittingIs(text, outlen - 1, k);
    assert after[n + 1..] == now[n..][1..] && before[n + 1..] == before[n..][1..];
  }

  /** htmlspecialcharsl */
  method HtmlSpecialCharsL(out: array<char>, outlen: nat, input: seq<char>, inlen: nat) returns (n: nat)
    requires outlen <= out.Length && inlen <= |input|
    modifies out
    ensures Written(old(out[..]), out[..], outlen, input[..inlen], n)
    ensures outlen == 0 || inlen == 0 ==> n == 0 && out[..] == old(out[..])
    ensures outlen > 0 && inlen > 0 ==> n < outlen && out[n] == NUL && out[n + 1..] == old(out[n + 1..])
  {
    if outlen == 0 || inlen == 0 {
      return 0;
    }
    ghost var text, before := input[..inlen], out[..];
    var i := 0;
    n := 0;
    while i < inlen
      invariant 0 <= i <= inlen && Begun(before, out[..], outlen, text, i, n)
    {
      ghost var was := out[..];
      var next, full := Put(out, outlen, n, input[i]);
      if full {
        break;
      }
      BegunNext(before, was, out[..], outlen, text, i, n, next);
      n, i := next, i + 1;
    }
    ghost var begun := out[..];
    out[n] := NUL;
    Finish(before, begun, out[..], outlen, text, i, n);
  }

  /** htmlspecialchars: the same on the bytes before the first NUL. */
  method HtmlSpecialChars(out: array<char>, outlen: nat, input: seq<char>) returns (n: nat)
    requires outlen <= out.Length && NUL in input
    modifies out
    ensures Written(old(out[..]), out[..], outlen, input[..StrLen(input)], n)
    ensures outlen == 0 || input[0] == NUL ==> n == 0 && out[..] == old(out[..])
    ensures outlen > 0 && input[0] != NUL ==> n < outlen && out[n] == NUL && out[n + 1..] == old(out[n + 1..])
  {
    ghost var text, before := input[..StrLen(input)], out[..];
    assert forall i :: 0 <= i < |text| ==> input[i] == text[i] != NUL;
    if outlen == 0 || input[0] == NUL {
      return 0;
    }
    var i := 0;
    n := 0;
    while input[i] != NUL
      invariant 0 <= i <= |text| && Begun(before, out[..], outlen, text, i, n)
      decreases |text| - i
    {
      ghost var was := out[..];
      var next, full := Put(out, outlen, n, input[i]);
      if full {
        break;
      }
      BegunNext(before, was, out[..], outlen, text, i, n, next);
      n, i := next, i + 1;
    }
    ghost var begun := out[..];
    out[n] := NUL;
    Finish(before, begun, out[..], outlen, text, i, n);
  }
}
