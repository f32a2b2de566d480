/** Quoting a shell argument (the POSIX branch). Bytes are chars. */
module ShellArg {
  import opened CBase

  const QUOTE: char := '\''

  /** A quote inside the argument: close, backslash-quote, reopen. */
  function Piece(c: char): string {
    if c == QUOTE then [QUOTE, '\\', QUOTE, QUOTE] else [c]
  }

  function Body(s: string): string {
    if s == [] then [] else Piece(s[0]) + Body(s[1..])
  }

  function Escape(s: string): (r: string)
    ensures |r| >= 2 && r[0] == '\'' == r[|r| - 1]
  {
    [QUOTE] + Body(s) + [QUOTE]
  }

  /** A quote becomes the four bytes of close, backslash, quote, open; every other byte stays. */
  lemma PieceIs(c: char)
    ensures Piece('\'') == "'\\''" && (c != '\'' <==> Piece(c) == [c])
  {
  }

  function QuotesIn(s: string): (n: nat)
    ensures n <= |s|
  {
    multiset(s)['\'']
  }

  // ---------------------------------------------------------------- the reader

  /** Reading one word of a command (IEEE Std 1003.1 XCU, sections 2.2.1, 2.2.2 and 2.3): inside single quotes
      every byte but the closing quote is literal; outside, a backslash makes the next byte literal (and with a
      newline disappears), blanks and operators end the word. `Expands` is a byte that makes the shell do more
      than quote removal. */
  datatype Mode = Plain | Quoted

  datatype Read = Word(text: string, rest: string) | Unterminated | Expands

  predicate EndsWord(c: char) {
    c in {' ', '\t', '\n', '&', '|', ';', '<', '>', '(', ')'}
  }

  function ReadWord(s: string, mode: Mode, word: string): Read
    decreases |s|
  {
    if s == [] then (if mode == Plain then Word(word, []) else Unterminated)
    else if mode == Quoted then
      if s[0] == '\'' then ReadWord(s[1..], Plain, word) else ReadWord(s[1..], Quoted, word + [s[0]])
    else if s[0] == '\'' then ReadWord(s[1..], Quoted, word)
    else if s[0] == '\\' then
      if |s| == 1 then Unterminated
      else if s[1] == '\n' then ReadWord(s[2..], Plain, word)
      else ReadWord(s[2..], Plain, word + [s[1]])
    else if EndsWord(s[0]) then Word(word, s)
    else if s[0] in {'"', '$', '`', '*', '?', '['} then Expands
    else ReadWord(s[1..], Plain, word + [s[0]])
  }

  lemma ReadQuotePiece(tail: string, word: string)
    ensures ReadWord(Piece(QUOTE) + tail, Quoted, word) == ReadWord(tail, Quoted, word + [QUOTE])
  {
    var a, b := ['\\', QUOTE, QUOTE] + tail, [QUOTE] + tail;
    assert (Piece(QUOTE) + tail)[1..] == a;
    assert ReadWord(Piece(QUOTE) + tail, Quoted, word) == ReadWord(a, Plain, word);
    assert a[2..] == b;
    assert ReadWord(a, Plain, word) == ReadWord(b, Plain, word + [QUOTE]);
    assert b[1..] == tail;
  }

  lemma {:induction false} ReadBody(s: string, word: string, rest: string)
    requires rest == [] || EndsWord(rest[0])
    ensures ReadWord(Body(s) + ([QUOTE] + rest), Quoted, word) == Word(word + s, rest)
    decreases |s|
  {
    var tail := Body(s[if s == [] then 0 else 1..]) + ([QUOTE] + rest);
    if s == [] {
      assert tail == [QUOTE] + rest && tail[1..] == rest;
      assert word + s == word;
    } else {
      assert Body(s) + ([QUOTE] + rest) == Piece(s[0]) + tail;
      ReadBody(s[1..], word + [s[0]], rest);
      assert word + [s[0]] + s[1..] == word + s;
      if s[0] == QUOTE {
        ReadQuotePiece(tail, word);
      } else {
        assert (Piece(s[0]) + tail)[1..] == tail;
      }
    }
  }

  /** The shell reads the quoted argument as one word, equal to the argument, whatever bytes it has and whatever
      follows it in the command line. */
  lemma ShellReadsArgument(s: string, rest: string)
    requires rest == [] || EndsWord(rest[0])
    ensures ReadWord(Escape(s) + rest, Plain, "") == Word(s, rest)
  {
    var tail := Body(s) + ([QUOTE] + rest);
    assert Escape(s) + rest == [QUOTE] + tail;
    OpenQuote(tail);
    ReadBody(s, "", rest);
    assert "" + s == s;
  }

  lemma OpenQuote(tail: string)
    ensures ReadWord([QUOTE] + tail, Plain, "") == ReadWord(tail, Quoted, "")
  {
    assert ([QUOTE] + tail)[1..] == tail;
  }

  /** The exact output size. */
  lemma {:induction false} EscapeSize(s: string)
    ensures |Body(s)| == |s| + 3 * QuotesIn(s)
    ensures |Escape(s)| == |s| + 3 * QuotesIn(s) + 2
  {
    if s != [] {
      EscapeSize(s[1..]);
      assert s == [s[0]] + s[1..];
    }
  }

  /** The buffer the function allocates itself, 4 * len + 1 bytes, is large enough for the output and its NUL
      exactly when some byte of the argument is not a quote. */
  lemma SelfAllocatedFits(s: string)
    ensures |Escape(s)| + 1 <= 4 * |s| + 1 <==> exists c <- s :: c != '\''
  {
    EscapeSize(s);
    AllQuotes(s);
  }

  lemma {:induction false} AllQuotes(s: string)
    ensures QuotesIn(s) == |s| <==> forall c <- s :: c == QUOTE
  {
    if s != [] {
      AllQuotes(s[1..]);
      assert s == [s[0]] + s[1..];
      assert s[0] in s && forall c <- s[1..] :: c in s;
    }
  }

  lemma {:induction false} BodyConcat(a: string, b: string)
    ensures Body(a + b) == Body(a) + Body(b)
  {
    if a == [] {
      assert a + b == b;
    } else {
      assert (a + b)[1..] == a[1..] + b;
      BodyConcat(a[1..], b);
    }
  }

  lemma BodySnoc(s: string, k: nat)
    requires k < |s|
    ensures Body(s[..k + 1]) == Body(s[..k]) + Piece(s[k])
    ensures |Body(s[..k + 1])| <= |Body(s)|
  {
    assert s[..k + 1] == s[..k] + [s[k]];
    BodyConcat(s[..k], [s[k]]);
    assert Body([s[k]]) == Piece(s[k]) + Body([]);
    assert s == s[..k + 1] + s[k + 1..];
    BodyConcat(s[..k + 1], s[k + 1..]);
  }

  /** The switch in the loop: a quote falls through to the default case. */
  method PutPiece(cmd: array<char>, at: nat, c: char) returns (y: nat)
    requires at + |Piece(c)| <= cmd.Length
    modifies cmd
    ensures y == at + |Piece(c)|
    ensures cmd[..at] == old(cmd[..at]) && cmd[at..y] == Piece(c) && cmd[y..] == old(cmd[y..])
  {
    y := at;
    if c == QUOTE {
      cmd[y] := QUOTE;
      cmd[y + 1] := '\\';
      cmd[y + 2] := QUOTE;
      y := y + 3;
    }
    cmd[y] := c;
    y := y + 1;
  }

  /** `Overrun` stands for the first store behind the end of the buffer, which the source does not prevent; otherwise
      `resLen` is the length without the NUL. */
  datatype Outcome = Overrun | Filled(resLen: nat)

  /** What the buffer holds once the first x bytes of the argument are quoted, `y` bytes in all. */
  ghost predicate Begun(before: seq<char>, now: seq<char>, arg: seq<char>, x: nat, y: nat) {
    && |now| == |before| && x <= |arg|
    && y == 1 + |Body(arg[..x])| <= |now|
    && now[..y] == [QUOTE] + Body(arg[..x])
    && now[y..] == before[y..]
  }

  lemma BegunNext(before: seq<char>, was: seq<char>, now: seq<char>, arg: seq<char>, x: nat, y: nat, next: nat)
    requires Begun(before, was, arg, x, y) && x < |arg| && |now| == |was|
    requires next == y + |Piece(arg[x])| <= |now|
    requires now[..y] == was[..y] && now[y..next] == Piece(arg[x]) && now[next..] == was[next..]
    ensures Begun(before, now, arg, x + 1, next)
  {
    BodySnoc(arg, x);
    Extend(before, was, now, y, next, [QUOTE] + Body(arg[..x]), Piece(arg[x]));
    assert [QUOTE] + Body(arg[..x]) + Piece(arg[x]) == [QUOTE] + Body(arg[..x + 1]);
  }

  /** The opening quote and the loop; `full` when a piece does not fit. */
  method Begin(cmd: array<char>, arg: seq<char>) returns (y: nat, full: bool)
    requires cmd.Length > 0
    modifies cmd
    ensures full ==> |Escape(arg)| >= cmd.Length
    ensures !full ==> Begun(old(cmd[..]), cmd[..], arg, |arg|, y)
  {
    ghost var before := cmd[..];
    y := 0;
    cmd[y] := QUOTE;
    y := y + 1;
    var x := 0;
    while x < |arg|
      invariant 0 <= x <= |arg| && Begun(before, cmd[..], arg, x, y)
    {
      if y + |Piece(arg[x])| > cmd.Length {
        BodySnoc(arg, x);
        return y, true;
      }
      ghost var was := cmd[..];
      var next := PutPiece(cmd, y, arg[x]);
      BegunNext(before, was, cmd[..], arg, x, y, next);
      y, x := next, x + 1;
    }
    full := false;
  }

  /** The closing quote and the NUL. */
  method Close(cmd: array<char>, at: nat) returns (y: nat)
    requires at + 2 <= cmd.Length
    modifies cmd
    ensures y == at + 1
    ensures cmd[..y] == old(cmd[..at]) + [QUOTE] && cmd[y] == NUL && cmd[y + 1..] == old(cmd[y + 1..])
  {
    y := at;
    cmd[y] := QUOTE;
    y := y + 1;
    cmd[y] := NUL;
  }

  /** escapeshellarg into a given buffer. */
  method Fill(cmd: array<char>, arg: seq<char>) returns (r: Outcome)
    modifies cmd
    ensures r == if |Escape(arg)| < cmd.Length then Filled(|Escape(arg)|) else Overrun
    ensures r.Filled? ==>
              && cmd[..r.resLen] == Escape(arg) && cmd[r.resLen] == NUL
              && cmd[r.resLen + 1..] == old(cmd[r.resLen + 1..])
  {
    if cmd.Length == 0 {
      return Overrun;
    }
    ghost var before := cmd[..];
    var y, full := Begin(cmd, arg);
    if full {
      return Overrun;
    }
    BegunAll(before, cmd[..], arg, y);
    if y + 2 > cmd.Length {
      return Overrun;
    }
    ghost var begun := cmd[..];
    y := Close(cmd, y);
    assert begun[y + 1..] == begun[y - 1..][2..] && before[y + 1..] == before[y - 1..][2..];
    r := Filled(y);
  }

  lemma BegunAll(before: seq<char>, now: seq<char>, arg: seq<char>, y: nat)
    requires Begun(before, now, arg, |arg|, y)
    ensures now[..y] + [QUOTE] == Escape(arg) && y + 1 == |Escape(arg)|
  {
    assert arg[..|arg|] == arg;
  }

  /** The bytes quoted: `len` of them, or with length 0 those before the NUL. */
  function Argument(str: seq<char>, len: nat): seq<char>
    requires len <= |str| && (len == 0 ==> NUL in str)
  {
    str[..if len > 0 then len else StrLen(str)]
  }

  /** escapeshellarg: `alloc` is the caller's buffer, or null to have 4 * l + 1 bytes allocated. The function's own
      buffer is overrun exactly by arguments made of quotes only, the empty one included. */
  method EscapeShellArg(alloc: array?<char>, str: seq<char>, len: nat) returns (cmd: array<char>, r: Outcome)
    requires len <= |str| && (len == 0 ==> NUL in str)
    modifies alloc
    ensures alloc != null ==> cmd == alloc
    ensures alloc == null ==> fresh(cmd) && cmd.Length == 4 * |Argument(str, len)| + 1
    ensures r.Overrun? <==> cmd.Length <= |Escape(Argument(str, len))|
    ensures alloc == null ==> (r.Overrun? <==> forall c <- Argument(str, len) :: c == '\'')
    ensures r.Filled? ==>
              && r.resLen == |Escape(Argument(str, len))|
              && cmd[..r.resLen] == Escape(Argument(str, len)) && cmd[r.resLen] == NUL
    ensures r.Filled? && len > 0 ==> cmd[..r.resLen] == Escape(str[..len])
    ensures r.Filled? && len == 0 ==>
              exists n :: 0 <= n < |str| && str[n] == NUL && NUL !in str[..n] && cmd[..r.resLen] == Escape(str[..n])
    ensures r.Filled? && alloc != null ==> cmd[r.resLen + 1..] == old(alloc[r.resLen + 1..])
  {
    var l := if len > 0 then len else StrLen(str);
    if alloc == null {
      cmd := new char[4 * l + 1];
    } else {
      cmd := alloc;
    }
    SelfAllocatedFits(str[..l]);
    r := Fill(cmd, str[..l]);
  }
}
