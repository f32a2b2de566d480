/** The option parser's own tests: four command lines, and what every call returns, points to, and moves to. */
module GetoptExamples {
  import opened CBase
  import opened Getopt
  import opened GetoptRuns

  /** The calls from this cursor on, whatever retval was before. */
  ghost predicate CallsAre(cfg: Config, idx: nat, calls: seq<Effect>) {
    forall rv :: Calls(cfg, idx, rv) == calls
  }

  lemma NoMoreCalls(cfg: Config)
    ensures CallsAre(cfg, |cfg.argv|, [])
  {
  }

  lemma OneMoreCall(cfg: Config, idx: nat, e: Effect, rest: seq<Effect>)
    requires forall rv :: Step(cfg, idx, rv) == e
    requires e.ret !in {End, Crash} && idx < e.curIdx && CallsAre(cfg, e.curIdx, rest)
    ensures CallsAre(cfg, idx, [e] + rest)
  {
    forall rv
      ensures Calls(cfg, idx, rv) == [e] + rest
    {
      assert Step(cfg, idx, rv) == e;
    }
  }

  // ---------------------------------------------------------------- short options

  const SHORT: string := "H:P:O::D"

  /** H and P need a value, O may have one, D has none, and there is no other option. */
  lemma ShortArities(spec: string, c: char)
    requires spec == SHORT
    ensures Lookup(ParseSpec(spec), c) ==
              if c == 'H' || c == 'P' then Some(RequiredValue) else if c == 'O' then Some(OptionalValue)
              else if c == 'D' then Some(NoValue) else None
  {
    FourItems(spec, c);
  }

  lemma FourItems(spec: string, c: char)
    requires |spec| == 8 && spec[0] != ':' && spec[1] == ':' && spec[2] != ':' && spec[3] == ':'
    requires spec[4] != ':' && spec[5] == ':' && spec[6] == ':' && spec[7] != ':'
    ensures Lookup(ParseSpec(spec), c) ==
              if c == spec[0] || c == spec[2] then Some(RequiredValue) else if c == spec[4] then Some(OptionalValue)
              else if c == spec[7] then Some(NoValue) else None
  {
    assert spec[0..] == spec;
    ItemAt(spec, 0, 2, c);
    ItemAt(spec, 2, 4, c);
    LastItems(spec, c);
  }

  lemma LastItems(spec: string, c: char)
    requires |spec| == 8 && spec[4] != ':' && spec[5] == ':' && spec[6] == ':' && spec[7] != ':'
    ensures Lookup(ParseSpec(spec[4..]), c) ==
              if c == spec[4] then Some(OptionalValue) else if c == spec[7] then Some(NoValue) else None
  {
    assert spec[8..] == "";
    ItemAt(spec, 4, 7, c);
    ItemAt(spec, 7, 8, c);
  }

  lemma ItemAt(spec: string, p: nat, next: nat, c: char)
    requires p < next <= |spec| && (next < |spec| ==> spec[next] != ':') && forall i :: p < i < next ==> spec[i] == ':'
    ensures Lookup(ParseSpec(spec[p..]), c)
              == if spec[p] == c then Some(ArityOf(next - p - 1)) else Lookup(ParseSpec(spec[next..]), c)
  {
    ColonsAre(spec, p + 1, next - p - 1);
    LookupFrom(spec, p, next, c);
  }

  /** An option of the tests that takes a value, is followed by one, holds one, or is not known. */
  datatype Form = Alone | Followed | Merged | Missing

  predicate HasForm(argv: seq<string>, idx: nat, c: char, form: Form) {
    && idx < |argv| && |argv[idx]| >= 2 && argv[idx][0] == '-' && argv[idx][1] == c && c != '-'
    && match form
       case Alone => c == 'D' || c == 'U'
       case Followed => c in {'H', 'P', 'O'} && |argv[idx]| == 2 && idx + 1 < |argv| && !StartsWithDash(argv[idx + 1])
       case Merged => c in {'H', 'P', 'O'} && |argv[idx]| > 2
       case Missing => c == 'O' && |argv[idx]| == 2 && idx + 1 < |argv| && StartsWithDash(argv[idx + 1])
  }

  function EffectOf(idx: nat, c: char, form: Form): Effect {
    match form
    case Alone => Effect(if c == 'D' then Opt(c) else UnknownOpt, Null, idx + 1)
    case Followed => Effect(Opt(c), At(idx + 1, 0), idx + 2)
    case Merged => Effect(Opt(c), At(idx, 2), idx + 1)
    case Missing => Effect(Opt(c), Null, idx + 1)
  }

  lemma ShortStep(cfg: Config, idx: nat, rv: Ptr, c: char, form: Form)
    requires cfg.shortOpt.Some? && HasForm(cfg.argv, idx, c, form)
    requires Lookup(ParseSpec(cfg.shortOpt.value), c) ==
               if c == 'H' || c == 'P' then Some(RequiredValue) else if c == 'O' then Some(OptionalValue)
               else if c == 'D' then Some(NoValue) else None
    ensures Step(cfg, idx, rv) == EffectOf(idx, c, form)
  {
  }

  lemma ShortCall(cfg: Config, idx: nat, c: char, form: Form, rest: seq<Effect>) returns (calls: seq<Effect>)
    requires cfg.shortOpt == Some(SHORT) && HasForm(cfg.argv, idx, c, form)
    requires CallsAre(cfg, EffectOf(idx, c, form).curIdx, rest)
    ensures calls == [EffectOf(idx, c, form)] + rest && CallsAre(cfg, idx, calls)
  {
    var e := EffectOf(idx, c, form);
    forall rv
      ensures Step(cfg, idx, rv) == e
    {
      ShortArities(cfg.shortOpt.value, c);
      ShortStep(cfg, idx, rv, c, form);
    }
    OneMoreCall(cfg, idx, e, rest);
    calls := [e] + rest;
  }

  lemma ProgramName(cfg: Config, rest: seq<Effect>) returns (calls: seq<Effect>)
    requires cfg.argv != [] && cfg.argv[0] == "server" && CallsAre(cfg, 1, rest)
    ensures calls == [Effect(NonOpt, At(0, 0), 1)] + rest && CallsAre(cfg, 0, calls)
  {
    OneMoreCall(cfg, 0, Effect(NonOpt, At(0, 0), 1), rest);
    calls := [Effect(NonOpt, At(0, 0), 1)] + rest;
  }

  /** A value that can be its own argument. */
  predicate IsValue(v: string) {
    v != "" && !StartsWithDash(v)
  }

  /** simple_short_opt, for any three values */
  lemma SimpleShortOpt(cfg: Config, h: string, p: string, o: string) returns (calls: seq<Effect>)
    requires cfg.shortOpt == Some(SHORT) && IsValue(h) && IsValue(p) && IsValue(o)
    requires cfg.argv == ["server", "-H", h, "-P", p, "-O", "-D", "-O", o, "-U"]
    ensures CallsAre(cfg, 0, calls) && calls ==
              [Effect(NonOpt, At(0, 0), 1), Effect(Opt('H'), At(2, 0), 3), Effect(Opt('P'), At(4, 0), 5),
               Effect(Opt('O'), Null, 6), Effect(Opt('D'), Null, 7), Effect(Opt('O'), At(8, 0), 9),
               Effect(UnknownOpt, Null, 10)]
  {
    NoMoreCalls(cfg);
    calls := ShortCall(cfg, 9, 'U', Alone, []);
    calls := ShortCall(cfg, 7, 'O', Followed, calls);
    calls := ShortCall(cfg, 6, 'D', Alone, calls);
    calls := ShortCall(cfg, 5, 'O', Missing, calls);
    calls := ShortCall(cfg, 3, 'P', Followed, calls);
    calls := ShortCall(cfg, 1, 'H', Followed, calls);
    calls := ProgramName(cfg, calls);
  }

  /** short_opt_merged_val, for any three values */
  lemma ShortOptMergedVal(cfg: Config, h: string, p: string, o: string) returns (calls: seq<Effect>)
    requires cfg.shortOpt == Some(SHORT) && IsValue(h) && IsValue(p) && IsValue(o)
    requires cfg.argv == ["server", "-H" + h, "-P" + p, "-O", "-D", "-O" + o, "-U"]
    ensures CallsAre(cfg, 0, calls) && calls ==
              [Effect(NonOpt, At(0, 0), 1), Effect(Opt('H'), At(1, 2), 2), Effect(Opt('P'), At(2, 2), 3),
               Effect(Opt('O'), Null, 4), Effect(Opt('D'), Null, 5), Effect(Opt('O'), At(5, 2), 6),
               Effect(UnknownOpt, Null, 7)]
  {
    NoMoreCalls(cfg);
    calls := ShortCall(cfg, 6, 'U', Alone, []);
    calls := ShortCall(cfg, 5, 'O', Merged, calls);
    calls := ShortCall(cfg, 4, 'D', Alone, calls);
    calls := ShortCall(cfg, 3, 'O', Missing, calls);
    calls := ShortCall(cfg, 2, 'P', Merged, calls);
    calls := ShortCall(cfg, 1, 'H', Merged, calls);
    calls := ProgramName(cfg, calls);
  }

  // ---------------------------------------------------------------- long options

  const LONG: seq<LongOpt> := [
    LongOpt("bind-addr", RequiredVal, 'H'),
    LongOpt("bind-port", RequiredVal, 'P'),
    LongOpt("daemon", NoVal, 'D'),
    LongOpt("optional-arg", OptionalVal, 'O'),
    LongOpt("unused-arg", RequiredVal, 'u')
  ]

  lemma LongNames(table: seq<LongOpt>)
    requires table == LONG
    ensures GoodNames(table)
  {
    forall i | 0 <= i < |table|
      ensures '=' !in table[i].opt && i < |table[i].opt|
    {
    }
    assert table[0].opt[5] == 'a' && table[1].opt[5] == 'p';
  }

  predicate HasLongForm(argv: seq<string>, idx: nat, k: nat, form: Form) {
    && idx < |argv| && k < |LONG| && "--" <= argv[idx]
    && var body := argv[idx][2..];
    && (if form == Merged then LONG[k].opt + "=" <= body else body == LONG[k].opt)
    && match form
       case Alone => LONG[k].argReq == NoVal
       case Followed => LONG[k].argReq != NoVal && idx + 1 < |argv| && !StartsWithDash(argv[idx + 1])
       case Merged => LONG[k].argReq != NoVal
       case Missing => LONG[k].argReq == OptionalVal && idx + 1 < |argv| && StartsWithDash(argv[idx + 1])
  }

  function LongEffectOf(idx: nat, k: nat, form: Form): Effect
    requires k < |LONG|
  {
    match form
    case Alone => Effect(Opt(LONG[k].val), Null, idx + 1)
    case Followed => Effect(Opt(LONG[k].val), At(idx + 1, 0), idx + 2)
    case Merged => Effect(Opt(LONG[k].val), At(idx, |LONG[k].opt| + 3), idx + 1)
    case Missing => Effect(Opt(LONG[k].val), Null, idx + 1)
  }

  lemma LongStep(cfg: Config, idx: nat, rv: Ptr, k: nat, form: Form)
    requires cfg.longOpt == Some(LONG) && HasLongForm(cfg.argv, idx, k, form)
    ensures Step(cfg, idx, rv) == LongEffectOf(idx, k, form)
  {
    LongNames(cfg.longOpt.value);
    EntryEffect(cfg, idx, rv, k);
  }

  lemma LongCall(cfg: Config, idx: nat, k: nat, form: Form, rest: seq<Effect>) returns (calls: seq<Effect>)
    requires cfg.longOpt == Some(LONG) && HasLongForm(cfg.argv, idx, k, form)
    requires CallsAre(cfg, LongEffectOf(idx, k, form).curIdx, rest)
    ensures calls == [LongEffectOf(idx, k, form)] + rest && CallsAre(cfg, idx, calls)
  {
    var e := LongEffectOf(idx, k, form);
    forall rv
      ensures Step(cfg, idx, rv) == e
    {
      LongStep(cfg, idx, rv, k, form);
    }
    OneMoreCall(cfg, idx, e, rest);
    calls := [e] + rest;
  }

  lemma HasValue(argv: seq<string>, idx: nat, k: nat, name: string, v: string)
    requires idx < |argv| && k < |LONG| && LONG[k].argReq != NoVal
    requires argv[idx] == name + v && name == "--" + LONG[k].opt + "="
    ensures HasLongForm(argv, idx, k, Merged)
  {
    assert argv[idx][2..] == LONG[k].opt + "=" + v;
  }

  lemma HaveValues(argv: seq<string>, h: string, p: string, o: string)
    requires |argv| > 5 && argv[1] == "--bind-addr=" + h && argv[2] == "--bind-port=" + p
    requires argv[5] == "--optional-arg=" + o
    ensures HasLongForm(argv, 1, 0, Merged) && HasLongForm(argv, 2, 1, Merged) && HasLongForm(argv, 5, 3, Merged)
  {
    HasValue(argv, 1, 0, "--bind-addr=", h);
    HasValue(argv, 2, 1, "--bind-port=", p);
    HasValue(argv, 5, 3, "--optional-arg=", o);
  }

  lemma UnknownCall(cfg: Config, idx: nat) returns (calls: seq<Effect>)
    requires cfg.longOpt == Some(LONG) && idx + 1 == |cfg.argv| && cfg.argv[idx] == "--unknown-option"
    ensures calls == [Effect(UnknownOpt, Null, idx + 1)] && CallsAre(cfg, idx, calls)
  {
    var body := cfg.argv[idx][2..];
    assert body == "unknown-option";
    forall i | 0 <= i < |LONG|
      ensures !Matches(LONG[i], body)
    {
      assert "unused-arg"[2] != body[2];
    }
    assert FirstMatch(LONG, body).None?;
    NoMoreCalls(cfg);
    OneMoreCall(cfg, idx, Effect(UnknownOpt, Null, idx + 1), []);
    calls := [Effect(UnknownOpt, Null, idx + 1)];
  }

  /** simple_long_opt, for any three values */
  lemma SimpleLongOpt(cfg: Config, h: string, p: string, o: string) returns (calls: seq<Effect>)
    requires cfg.longOpt == Some(LONG) && IsValue(h) && IsValue(p) && IsValue(o)
    requires cfg.argv == ["server", "--bind-addr", h, "--bind-port", p, "--optional-arg", "--daemon",
                          "--optional-arg", o, "--unknown-option"]
    ensures CallsAre(cfg, 0, calls) && calls ==
              [Effect(NonOpt, At(0, 0), 1), Effect(Opt('H'), At(2, 0), 3), Effect(Opt('P'), At(4, 0), 5),
               Effect(Opt('O'), Null, 6), Effect(Opt('D'), Null, 7), Effect(Opt('O'), At(8, 0), 9),
               Effect(UnknownOpt, Null, 10)]
  {
    calls := UnknownCall(cfg, 9);
    calls := LongCall(cfg, 7, 3, Followed, calls);
    calls := LongCall(cfg, 6, 2, Alone, calls);
    calls := LongCall(cfg, 5, 3, Missing, calls);
    calls := LongCall(cfg, 3, 1, Followed, calls);
    calls := LongCall(cfg, 1, 0, Followed, calls);
    calls := ProgramName(cfg, calls);
  }

  /** long_opt_with_eq_sign, for any three values */
  lemma LongOptWithEqSign(cfg: Config, h: string, p: string, o: string) returns (calls: seq<Effect>)
    requires cfg.longOpt == Some(LONG)
    requires cfg.argv == ["server", "--bind-addr=" + h, "--bind-port=" + p, "--optional-arg", "--daemon",
                          "--optional-arg=" + o, "--unknown-option"]
    ensures CallsAre(cfg, 0, calls) && calls ==
              [Effect(NonOpt, At(0, 0), 1), Effect(Opt('H'), At(1, 12), 2), Effect(Opt('P'), At(2, 12), 3),
               Effect(Opt('O'), Null, 4), Effect(Opt('D'), Null, 5), Effect(Opt('O'), At(5, 15), 6),
               Effect(UnknownOpt, Null, 7)]
  {
    HaveValues(cfg.argv, h, p, o);
    calls := UnknownCall(cfg, 6);
    calls := LongCall(cfg, 5, 3, Merged, calls);
    calls := LongCall(cfg, 4, 2, Alone, calls);
    calls := LongCall(cfg, 3, 3, Missing, calls);
    calls := LongCall(cfg, 2, 1, Merged, calls);
    calls := LongCall(cfg, 1, 0, Merged, calls);
    calls := ProgramName(cfg, calls);
  }
}
