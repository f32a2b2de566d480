/** The option parser: a cursor over argv, a short option string, a table of long options. */
module Getopt {
  import opened CBase

  datatype ArgReq = EmptyStruct | RequiredVal | OptionalVal | NoVal

  datatype LongOpt = LongOpt(opt: string, argReq: ArgReq, val: char)

  /** What a call returns. `Crash` is the read through argv[argc], which is NULL: the source does not check
      that an option looking for a separate value has an argument behind it. */
  datatype Ret = End | UnknownOpt | NonOpt | EInval | MissingArg | Opt(val: char) | Crash

  /** retval: NULL, or a pointer to byte `off` of argv[arg]. */
  datatype Ptr = Null | At(arg: nat, off: nat)

  /** The part of the parser's state that calls only read. */
  datatype Config = Config(argv: seq<string>, shortOpt: Option<string>, longOpt: Option<seq<LongOpt>>)

  /** One call's effect: returned code, new retval, new cursor. */
  datatype Effect = Effect(ret: Ret, retval: Ptr, curIdx: nat)

  // ---------------------------------------------------------------- the short option string

  datatype Arity = NoValue | RequiredValue | OptionalValue

  /** The number of colons from position p on. */
  function Colons(spec: string, p: nat): (n: nat)
    requires p <= |spec|
    ensures p + n <= |spec|
    ensures forall i :: p <= i < p + n ==> spec[i] == ':'
    ensures p + n < |spec| ==> spec[p + n] != ':'
    decreases |spec| - p
  {
    if p == |spec| || spec[p] != ':' then 0 else 1 + Colons(spec, p + 1)
  }

  function ArityOf(colons: nat): Arity {
    if colons == 0 then NoValue else if colons == 1 then RequiredValue else OptionalValue
  }

  /** The option string, read as a list: a character, then its colons, then the rest. */
  function ParseSpec(spec: string): seq<(char, Arity)> {
    if spec == "" then [] else
    var n := Colons(spec, 1);
    [(spec[0], ArityOf(n))] + ParseSpec(spec[1 + n..])
  }

  lemma Advance(s1: string, p1: nat, s2: string, p2: nat, k: nat)
    requires p1 + k <= |s1| && p2 <= |s2| && s1[p1..] == s2[p2..]
    ensures p2 + k <= |s2| && s1[p1 + k..] == s2[p2 + k..]
  {
    assert |s1[p1..]| == |s2[p2..]|;
    assert s1[p1 + k..] == s1[p1..][k..] && s2[p2 + k..] == s2[p2..][k..];
  }

  lemma {:induction false} ColonsSame(s1: string, p1: nat, s2: string, p2: nat)
    requires p1 <= |s1| && p2 <= |s2| && s1[p1..] == s2[p2..]
    ensures Colons(s1, p1) == Colons(s2, p2)
    decreases |s1| - p1
  {
    if p1 < |s1| {
      assert s1[p1] == s1[p1..][0] == s2[p2];
      Advance(s1, p1, s2, p2, 1);
      ColonsSame(s1, p1 + 1, s2, p2 + 1);
    } else {
      assert |s1[p1..]| == |s2[p2..]|;
    }
  }

  /** The arity of the first pair for `c`. */
  function Lookup(pairs: seq<(char, Arity)>, c: char): Option<Arity> {
    if pairs == [] then None else if pairs[0].0 == c then Some(pairs[0].1) else Lookup(pairs[1..], c)
  }

  /** Lookup finds the first pair for the character, if there is one. */
  lemma {:induction false} LookupIsFirst(pairs: seq<(char, Arity)>, c: char, i: nat)
    requires i <= |pairs| && forall j :: 0 <= j < i ==> pairs[j].0 != c
    ensures i == |pairs| ==> Lookup(pairs, c) == None
    ensures i < |pairs| && pairs[i].0 == c ==> Lookup(pairs, c) == Some(pairs[i].1)
  {
    if i > 0 {
      LookupIsFirst(pairs[1..], c, i - 1);
    }
  }

  /** Looking up from position p on: the character there, or what follows its colons. */
  lemma LookupFrom(spec: string, p: nat, next: nat, c: char)
    requires p < |spec| && next == p + 1 + Colons(spec, p + 1)
    ensures Lookup(ParseSpec(spec[p..]), c)
              == if spec[p] == c then Some(ArityOf(next - p - 1)) else Lookup(ParseSpec(spec[next..]), c)
  {
    ParseUnfold(spec, p);
    LookupCons((spec[p], ArityOf(next - p - 1)), ParseSpec(spec[next..]), c);
  }

  lemma ParseUnfold(spec: string, p: nat)
    requires p < |spec|
    ensures var n := Colons(spec, p + 1);
            ParseSpec(spec[p..]) == [(spec[p], ArityOf(n))] + ParseSpec(spec[p + 1 + n..])
  {
    var n, tail := Colons(spec, p + 1), spec[p..];
    var m := Colons(tail, 1);
    ColonsSame(spec, p + 1, tail, 1);
    calc {
      ParseSpec(tail);
    ==
      [(tail[0], ArityOf(m))] + ParseSpec(tail[1 + m..]);
    ==  { assert tail[1 + m..] == spec[p + 1 + n..]; }
      [(spec[p], ArityOf(n))] + ParseSpec(spec[p + 1 + n..]);
    }
  }

  lemma LookupCons(pair: (char, Arity), rest: seq<(char, Arity)>, c: char)
    ensures Lookup([pair] + rest, c) == if pair.0 == c then Some(pair.1) else Lookup(rest, c)
  {
    assert ([pair] + rest)[1..] == rest;
  }

  /** An option string spelled out: each character with the number of colons behind it. */
  function Spell(items: seq<(char, nat)>): string {
    if items == [] then "" else [items[0].0] + ColonString(items[0].1) + Spell(items[1..])
  }

  function ColonString(n: nat): (r: string)
    ensures |r| == n && forall c <- r :: c == ':'
  {
    seq(n, _ => ':')
  }

  /** Reading any option string: no colon means no value, one a required value, more an optional one. (A colon can be
      an option character only at the very start.) */
  lemma {:induction false} SpellingIsRead(items: seq<(char, nat)>)
    requires forall i :: 0 < i < |items| ==> items[i].0 != ':'
    ensures var pairs := ParseSpec(Spell(items));
            && |pairs| == |items|
            && forall i :: 0 <= i < |items| ==>
                 && pairs[i].0 == items[i].0
                 && (pairs[i].1 == NoValue <==> items[i].1 == 0)
                 && (pairs[i].1 == RequiredValue <==> items[i].1 == 1)
                 && (pairs[i].1 == OptionalValue <==> items[i].1 >= 2)
  {
    if items != [] {
      var (c, n) := items[0];
      var rest := Spell(items[1..]);
      SpellingIsRead(items[1..]);
      assert rest != "" ==> rest[0] == items[1].0;
      FirstItemIsRead(c, n, rest);
      var pairs := ParseSpec(Spell(items));
      assert Spell(items) == [c] + ColonString(n) + rest;
      assert pairs == [(c, ArityOf(n))] + ParseSpec(rest);
      assert forall i :: 0 < i < |items| ==> pairs[i] == ParseSpec(rest)[i - 1] && items[i] == items[1..][i - 1];
    }
  }

  /** Every option string is such a spelling. */
  lemma {:induction false} EverySpecIsSpelled(spec: string, p: nat) returns (items: seq<(char, nat)>)
    requires p <= |spec|
    ensures Spell(items) == spec[p..]
    ensures p < |spec| ==> items != [] && items[0].0 == spec[p]
    ensures forall i :: 0 < i < |items| ==> items[i].0 != ':'
    decreases |spec| - p
  {
    if p == |spec| {
      return [];
    }
    var n := Colons(spec, p + 1);
    var rest := EverySpecIsSpelled(spec, p + 1 + n);
    items := [(spec[p], n)] + rest;
    assert items[1..] == rest;
    assert spec[p..] == [spec[p]] + ColonString(n) + spec[p + 1 + n..];
    assert rest != [] ==> p + 1 + n < |spec|;
  }

  lemma FirstItemIsRead(c: char, n: nat, rest: string)
    requires rest != "" ==> rest[0] != ':'
    ensures ParseSpec([c] + ColonString(n) + rest) == [(c, ArityOf(n))] + ParseSpec(rest)
  {
    var spec := [c] + ColonString(n) + rest;
    ColonsAre(spec, 1, n);
    assert spec[1 + n..] == rest;
  }

  lemma {:induction false} ColonsAre(spec: string, p: nat, n: nat)
    requires p + n <= |spec| && (p + n < |spec| ==> spec[p + n] != ':')
    requires forall i :: p <= i < p + n ==> spec[i] == ':'
    ensures Colons(spec, p) == n
    decreases n
  {
    if n > 0 {
      ColonsAre(spec, p + 1, n - 1);
    }
  }

  /** The inner loop of the scan. */
  method SkipColons(spec: string, from: nat) returns (p: nat)
    requires from <= |spec|
    ensures p == from + Colons(spec, from)
  {
    p := from;
    while p < |spec| && spec[p] == ':'
      invariant from <= p <= |spec|
      invariant from + Colons(spec, from) == p + Colons(spec, p)
    {
      p := p + 1;
    }
  }

  /** Where the search has got to: nothing before position p matches. */
  predicate FoundFrom(spec: string, p: nat, c: char) {
    p <= |spec| && Lookup(ParseSpec(spec), c) == Lookup(ParseSpec(spec[p..]), c)
  }

  lemma FoundNext(spec: string, p: nat, next: nat, c: char)
    requires p < |spec| && FoundFrom(spec, p, c) && next == p + 1 + Colons(spec, p + 1)
    ensures spec[p] == c ==> Lookup(ParseSpec(spec), c) == Some(ArityOf(Colons(spec, p + 1)))
    ensures spec[p] != c ==> FoundFrom(spec, next, c)
  {
    LookupFrom(spec, p, next, c);
  }

  /** The pointer scan over the option string, ending at the character that matches. */
  method ScanShort(spec: string, c: char) returns (at: Option<nat>)
    ensures at.None? ==> Lookup(ParseSpec(spec), c).None?
    ensures at.Some? ==>
              && at.value < |spec| && spec[at.value] == c
              && Lookup(ParseSpec(spec), c) == Some(ArityOf(Colons(spec, at.value + 1)))
  {
    var p := 0;
    assert spec[0..] == spec;
    while p < |spec|
      invariant 0 <= p <= |spec| && FoundFrom(spec, p, c)
    {
      if spec[p] == c {
        FoundNext(spec, p, p + 1 + Colons(spec, p + 1), c);
        return Some(p);
      }
      var next := SkipColons(spec, p + 1);
      FoundNext(spec, p, next, c);
      p := next;
    }
    at := None;
  }

  /** A colon is an option character only at the very start of the option string. */
  lemma ColonOnlyFirst(spec: string)
    ensures Lookup(ParseSpec(spec), ':').Some? <==> spec != [] && spec[0] == ':'
  {
    if spec != [] {
      assert spec[0..] == spec;
      LookupFrom(spec, 0, 1 + Colons(spec, 1), ':');
      NoColonBehind(spec, 1 + Colons(spec, 1));
    }
  }

  lemma {:induction false} NoColonBehind(spec: string, p: nat)
    requires p <= |spec| && (p < |spec| ==> spec[p] != ':')
    ensures Lookup(ParseSpec(spec[p..]), ':').None?
    decreases |spec| - p
  {
    if p < |spec| {
      var next := p + 1 + Colons(spec, p + 1);
      LookupFrom(spec, p, next, ':');
      NoColonBehind(spec, next);
    }
  }

  // ---------------------------------------------------------------- the long option table

  /** `body` is the argument without its two dashes. */
  predicate Matches(e: LongOpt, body: string) {
    e.opt <= body && (|body| > |e.opt| ==> body[|e.opt|] == '=')
  }

  /** The position of the first matching entry. */
  function FirstMatch(table: seq<LongOpt>, body: string): (r: Option<nat>)
    ensures r.None? ==> forall e <- table :: !Matches(e, body)
    ensures r.Some? ==> r.value < |table| && Matches(table[r.value], body)
    ensures r.Some? ==> forall i :: 0 <= i < r.value ==> !Matches(table[i], body)
  {
    if table == [] then None
    else if Matches(table[0], body) then Some(0)
    else
      var r := FirstMatch(table[1..], body);
      if r.None? then None else Some(r.value + 1)
  }

  /** A table entry matches exactly its name, or its name, '=' and anything. */
  lemma MatchesNameOrNameEq(e: LongOpt, body: string)
    ensures Matches(e, body) <==> body == e.opt || e.opt + "=" <= body
  {
  }

  predicate GoodNames(table: seq<LongOpt>) {
    && (forall e <- table :: '=' !in e.opt)
    && (forall i, j :: 0 <= i < j < |table| ==> table[i].opt != table[j].opt)
  }

  /** The bytes of an argument before its first '='. */
  function NamePart(body: string): string {
    if body == [] || body[0] == '=' then [] else [body[0]] + NamePart(body[1..])
  }

  lemma {:induction false} NamePartIs(body: string, name: string)
    requires name <= body && '=' !in name && (|body| > |name| ==> body[|name|] == '=')
    ensures NamePart(body) == name
  {
    if name != [] {
      assert name[0] in name && forall c <- name[1..] :: c in name;
      NamePartIs(body[1..], name[1..]);
    }
  }

  /** With '='-free distinct names at most one entry matches, so table order does not matter. */
  lemma AtMostOneMatch(table: seq<LongOpt>, body: string, i: nat, j: nat)
    requires GoodNames(table) && i < |table| && j < |table|
    requires Matches(table[i], body) && Matches(table[j], body)
    ensures i == j && FirstMatch(table, body) == Some(i)
  {
    NamePartIs(body, table[i].opt);
    NamePartIs(body, table[j].opt);
    NamePartIs(body, table[FirstMatch(table, body).value].opt);
  }

  /** Two tables with the same entries in any order select the same entry for every argument. */
  lemma OrderDoesNotMatter(t1: seq<LongOpt>, t2: seq<LongOpt>, body: string)
    requires GoodNames(t1) && GoodNames(t2) && (forall e <- t1 :: e in t2) && (forall e <- t2 :: e in t1)
    ensures var m1, m2 := FirstMatch(t1, body), FirstMatch(t2, body);
            (m1.None? <==> m2.None?) && (m1.Some? ==> t1[m1.value] == t2[m2.value])
  {
    var m1 := FirstMatch(t1, body);
    if m1.Some? {
      assert t1[m1.value] in t1 && t1[m1.value] in t2;
      var k :| 0 <= k < |t2| && t2[k] == t1[m1.value];
      AtMostOneMatch(t2, body, k, k);
    }
  }

  // ---------------------------------------------------------------- one call, as a function

  /** Looking for a value behind the option at `idx`: take the next argument unless it starts with a dash. */
  function SeparateValue(cfg: Config, idx: nat): (r: (Ptr, nat))
    requires idx + 1 < |cfg.argv|
  {
    var next := cfg.argv[idx + 1];
    if next != [] && next[0] == '-' then (Null, idx + 1) else (At(idx + 1, 0), idx + 2)
  }

  /** An option that takes a value, required or not; `merged` is the value inside the same argument. */
  function ValueEffect(cfg: Config, idx: nat, oldRetval: Ptr, val: char, required: bool, merged: Ptr): Effect {
    if merged != Null then Effect(Opt(val), merged, idx + 1)
    else if idx + 1 >= |cfg.argv| then Effect(Crash, oldRetval, idx)
    else
      var (p, next) := SeparateValue(cfg, idx);
      Effect(if required && p == Null then MissingArg else Opt(val), p, next)
  }

  function LongEffect(cfg: Config, idx: nat, oldRetval: Ptr): Effect
    requires idx < |cfg.argv| && "--" <= cfg.argv[idx]
  {
    if cfg.longOpt.None? then Effect(NonOpt, At(idx, 0), idx + 1)
    else
      var body := cfg.argv[idx][2..];
      var m := FirstMatch(cfg.longOpt.value, body);
      if m.None? then Effect(UnknownOpt, Null, idx + 1)
      else
        var e := cfg.longOpt.value[m.value];
        var merged := if |body| > |e.opt| then At(idx, |e.opt| + 3) else Null;
        match e.argReq
        case RequiredVal => ValueEffect(cfg, idx, oldRetval, e.val, true, merged)
        case OptionalVal => ValueEffect(cfg, idx, oldRetval, e.val, false, merged)
        case NoVal => Effect(Opt(e.val), Null, idx + 1)
        case EmptyStruct => Effect(EInval, oldRetval, idx + 1)
  }

  function ShortEffect(cfg: Config, idx: nat, oldRetval: Ptr): Effect
    requires idx < |cfg.argv| && |cfg.argv[idx]| >= 2
  {
    if cfg.shortOpt.None? then Effect(NonOpt, At(idx, 0), idx + 1)
    else
      var arg := cfg.argv[idx];
      var arity := Lookup(ParseSpec(cfg.shortOpt.value), arg[1]);
      var merged := if |arg| > 2 then At(idx, 2) else Null;
      match arity
      case None => Effect(UnknownOpt, Null, idx + 1)
      case Some(NoValue) => Effect(Opt(arg[1]), Null, idx + 1)
      case Some(RequiredValue) => ValueEffect(cfg, idx, oldRetval, arg[1], true, merged)
      case Some(OptionalValue) => ValueEffect(cfg, idx, oldRetval, arg[1], false, merged)
  }

  function Step(cfg: Config, idx: nat, oldRetval: Ptr): Effect {
    if idx >= |cfg.argv| then Effect(End, Null, idx)
    else
      var arg := cfg.argv[idx];
      if |arg| >= 2 && arg[0] == '-' then
        if arg[1] == '-' then LongEffect(cfg, idx, oldRetval) else ShortEffect(cfg, idx, oldRetval)
      else Effect(NonOpt, At(idx, 0), idx + 1)
  }

  // ---------------------------------------------------------------- the parser object

  class BtGetopt {
    const cfg: Config
    var retval: Ptr
    var curIdx: nat

    constructor (cfg: Config, curIdx: nat)
      ensures this.cfg == cfg && this.curIdx == curIdx && retval == Null
    {
      this.cfg, this.curIdx, retval := cfg, curIdx, Null;
    }

    /** Looks at argv[idx + 1] for a value; the cursor moves on when the value is taken. */
    method TakeSeparate(idx: nat) returns (takeArg: Ptr, crashed: bool)
      requires idx < |cfg.argv| && curIdx == idx
      modifies this`curIdx
      ensures crashed <==> idx + 1 == |cfg.argv|
      ensures crashed ==> curIdx == idx
      ensures !crashed ==> takeArg == SeparateValue(cfg, idx).0 && curIdx + 1 == SeparateValue(cfg, idx).1
    {
      takeArg, crashed := Null, false;
      if idx + 1 == |cfg.argv| {
        return Null, true;
      }
      var next := cfg.argv[idx + 1];
      if next == [] || next[0] != '-' {
        curIdx := curIdx + 1;
        takeArg := At(idx + 1, 0);
      }
    }

    /** track_getopt_long; the cursor's final increment is the caller's. */
    method TrackLong(idx: nat) returns (ret: Ret)
      requires idx < |cfg.argv| && "--" <= cfg.argv[idx] && curIdx == idx
      modifies this
      ensures ret == LongEffect(cfg, idx, old(retval)).ret
      ensures retval == LongEffect(cfg, idx, old(retval)).retval
      ensures curIdx + (if ret == Crash then 0 else 1) == LongEffect(cfg, idx, old(retval)).curIdx
    {
      if cfg.longOpt.None? {
        retval := At(idx, 0);
        return NonOpt;
      }
      var table, body := cfg.longOpt.value, cfg.argv[idx][2..];
      var l := 0;
      while l < |table|
        invariant 0 <= l <= |table| && retval == old(retval) && curIdx == idx
        invariant forall i :: 0 <= i < l ==> !Matches(table[i], body)
      {
        var e := table[l];
        if !(e.opt <= body) {
          l := l + 1;
          continue;
        }
        if |body| > |e.opt| && body[|e.opt|] != '=' {
          l := l + 1;
          continue;
        }
        assert table[l] in table && Matches(table[l], body);
        assert FirstMatch(table, body) == Some(l);
        if e.argReq == RequiredVal || e.argReq == OptionalVal {
          var takeArg := Null;
          if |body| > |e.opt| {
            takeArg := At(idx, 2 + |e.opt| + 1);
          } else {
            var crashed;
            takeArg, crashed := TakeSeparate(idx);
            if crashed {
              return Crash;
            }
          }
          retval := takeArg;
          if e.argReq == RequiredVal && takeArg == Null {
            return MissingArg;
          }
          return Opt(e.val);
        } else if e.argReq == NoVal {
          retval := Null;
          return Opt(e.val);
        } else {
          return EInval;
        }
      }
      assert FirstMatch(table, body) == None;
      retval := Null;
      ret := UnknownOpt;
    }

    /** track_getopt_short */
    method TrackShort(idx: nat) returns (ret: Ret)
      requires idx < |cfg.argv| && |cfg.argv[idx]| >= 2 && curIdx == idx
      modifies this
      ensures ret == ShortEffect(cfg, idx, old(retval)).ret
      ensures retval == ShortEffect(cfg, idx, old(retval)).retval
      ensures curIdx + (if ret == Crash then 0 else 1) == ShortEffect(cfg, idx, old(retval)).curIdx
    {
      if cfg.shortOpt.None? {
        retval := At(idx, 0);
        return NonOpt;
      }
      var spec, arg := cfg.shortOpt.value, cfg.argv[idx];
      var c := arg[1];
      var at := ScanShort(spec, c);
      if at.None? {
        retval := Null;
        return UnknownOpt;
      }
      var p := at.value;
      if p + 1 == |spec| || spec[p + 1] != ':' {
        retval := Null;
        return Opt(c);
      }
      var takeArg := Null;
      if |arg| > 2 {
        takeArg := At(idx, 2);
      } else {
        var crashed;
        takeArg, crashed := TakeSeparate(idx);
        if crashed {
          return Crash;
        }
      }
      retval := takeArg;
      if p + 2 < |spec| && spec[p + 2] == ':' {
        return Opt(c);
      }
      if takeArg == Null {
        return MissingArg;
      }
      ret := Opt(c);
    }

    /** bt_getopt */
    method Next() returns (ret: Ret)
      modifies this
      ensures Effect(ret, retval, curIdx) == Step(cfg, old(curIdx), old(retval))
    {
      if curIdx >= |cfg.argv| {
        retval := Null;
        return End;
      }
      var idx := curIdx;
      var arg := cfg.argv[idx];
      if |arg| >= 2 && arg[0] == '-' {
        if arg[1] == '-' {
          ret := TrackLong(idx);
        } else {
          ret := TrackShort(idx);
        }
        if ret == Crash {
          return;
        }
      } else {
        retval := At(idx, 0);
        ret := NonOpt;
      }
      curIdx := curIdx + 1;
    }
  }
}
