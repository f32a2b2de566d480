/** What repeated calls of the option parser do to a whole argv. */
module GetoptRuns {
  import opened CBase
  import opened Getopt

  /** The option in this argument takes a value and has none inside the argument. */
  predicate WantsNextArgument(cfg: Config, arg: string) {
    if "--" <= arg then
      && cfg.longOpt.Some?
      && var m := FirstMatch(cfg.longOpt.value, arg[2..]);
      && m.Some?
      && cfg.longOpt.value[m.value].opt == arg[2..]
      && (cfg.longOpt.value[m.value].argReq.RequiredVal? || cfg.longOpt.value[m.value].argReq.OptionalVal?)
    else
      && |arg| == 2 && arg[0] == '-'
      && cfg.shortOpt.Some?
      && Lookup(ParseSpec(cfg.shortOpt.value), arg[1]) in {Some(RequiredValue), Some(OptionalValue)}
  }

  /** A call dereferences NULL exactly when the last argument is an option that wants the next one. */
  lemma CrashIffLastWantsNext(cfg: Config, idx: nat, rv: Ptr)
    ensures Step(cfg, idx, rv).ret == Crash <==>
              idx + 1 == |cfg.argv| && WantsNextArgument(cfg, cfg.argv[idx])
  {
  }

  predicate StartsWithDash(s: string) {
    s != [] && s[0] == '-'
  }

  /** An argument handed back as it is: too short for an option, no dash, or no option list of its kind. */
  predicate IsOperand(cfg: Config, s: string) {
    |s| < 2 || s[0] != '-' || (if s[1] == '-' then cfg.longOpt.None? else cfg.shortOpt.None?)
  }

  /** No table entry, or no character of the option string, is for this argument. */
  predicate IsUnknown(cfg: Config, arg: string)
    requires !IsOperand(cfg, arg)
  {
    if arg[1] == '-' then forall e <- cfg.longOpt.value :: !Matches(e, arg[2..])
    else Lookup(ParseSpec(cfg.shortOpt.value), arg[1]).None?
  }

  /** The option in this argument, which wants the next one, cannot do without a value. */
  predicate IsRequired(cfg: Config, arg: string)
    requires WantsNextArgument(cfg, arg)
  {
    if "--" <= arg then cfg.longOpt.value[FirstMatch(cfg.longOpt.value, arg[2..]).value].argReq.RequiredVal?
    else Lookup(ParseSpec(cfg.shortOpt.value), arg[1]) == Some(RequiredValue)
  }

  /** When each code that is not an option's is returned. */
  lemma CodesMean(cfg: Config, idx: nat, rv: Ptr)
    requires idx < |cfg.argv|
    ensures var arg, ret := cfg.argv[idx], Step(cfg, idx, rv).ret;
            && (ret == NonOpt <==> IsOperand(cfg, arg))
            && (ret == UnknownOpt <==> !IsOperand(cfg, arg) && IsUnknown(cfg, arg))
            && (ret == MissingArg <==>
                  && WantsNextArgument(cfg, arg) && IsRequired(cfg, arg)
                  && idx + 1 < |cfg.argv| && StartsWithDash(cfg.argv[idx + 1]))
            && (ret == EInval <==>
                  && !IsOperand(cfg, arg) && !IsUnknown(cfg, arg) && arg[1] == '-'
                  && cfg.longOpt.value[FirstMatch(cfg.longOpt.value, arg[2..]).value].argReq.EmptyStruct?)
  {
    var arg := cfg.argv[idx];
    if !IsOperand(cfg, arg) && arg[1] == '-' {
      var m := FirstMatch(cfg.longOpt.value, arg[2..]);
      assert m.Some? ==> cfg.longOpt.value[m.value] in cfg.longOpt.value;
    }
  }

  /** The option in this argument takes a value, required or not, wherever it stands. */
  predicate TakesValue(cfg: Config, arg: string)
    requires !IsOperand(cfg, arg) && !IsUnknown(cfg, arg)
  {
    if arg[1] == '-' then
      var argReq := cfg.longOpt.value[FirstMatch(cfg.longOpt.value, arg[2..]).value].argReq;
      argReq.RequiredVal? || argReq.OptionalVal?
    else
      var arity := Lookup(ParseSpec(cfg.shortOpt.value), arg[1]).value;
      arity.RequiredValue? || arity.OptionalValue?
  }

  /** Where a value inside the argument begins: behind the equals sign, or behind the option character. */
  function ValueOffset(cfg: Config, arg: string): nat
    requires !IsOperand(cfg, arg) && !IsUnknown(cfg, arg)
  {
    if arg[1] == '-' then |cfg.longOpt.value[FirstMatch(cfg.longOpt.value, arg[2..]).value].opt| + 3 else 2
  }

  /** What every call leaves in retval, and what an option returns: NULL at the end, for an unknown option and for a
      missing value; the argument itself for an operand; nothing new on a wrong table entry or the crash; for an
      option its value, inside its argument or in the next one, or NULL. */
  lemma RetvalMeans(cfg: Config, idx: nat, rv: Ptr)
    ensures var e := Step(cfg, idx, rv);
            && (e.ret in {End, UnknownOpt, MissingArg} ==> e.retval == Null)
            && (e.ret == NonOpt ==> e.retval == At(idx, 0))
            && (e.ret in {EInval, Crash} ==> e.retval == rv)
    ensures var e := Step(cfg, idx, rv);
            e.ret.Opt? ==>
              var arg := cfg.argv[idx];
              && !IsOperand(cfg, arg) && !IsUnknown(cfg, arg)
              && e.ret.val == (if arg[1] != '-' then arg[1]
                               else cfg.longOpt.value[FirstMatch(cfg.longOpt.value, arg[2..]).value].val)
              && e.retval ==
                 if !TakesValue(cfg, arg) then Null
                 else if !WantsNextArgument(cfg, arg) then At(idx, ValueOffset(cfg, arg))
                 else if StartsWithDash(cfg.argv[idx + 1]) then Null
                 else At(idx + 1, 0)
  {
    if idx < |cfg.argv| && !IsOperand(cfg, cfg.argv[idx]) {
      CodesMean(cfg, idx, rv);
    }
  }

  /** An option without value ignores text in its argument: "--name=text" and "-ctext" read like "--name", "-c". */
  lemma ExtraTextIsDropped(cfg: Config, idx: nat, rv: Ptr, k: nat, c: char, text: string)
    requires idx < |cfg.argv| && cfg.longOpt.Some? && cfg.shortOpt.Some?
    ensures k < |cfg.longOpt.value| && GoodNames(cfg.longOpt.value) && cfg.longOpt.value[k].argReq.NoVal? &&
            cfg.argv[idx] == "--" + cfg.longOpt.value[k].opt + "=" + text ==>
              Step(cfg, idx, rv) == Effect(Opt(cfg.longOpt.value[k].val), Null, idx + 1)
    ensures c != '-' && Lookup(ParseSpec(cfg.shortOpt.value), c) == Some(NoValue) &&
            cfg.argv[idx] == "-" + [c] + text ==>
              Step(cfg, idx, rv) == Effect(Opt(c), Null, idx + 1)
  {
    var arg := cfg.argv[idx];
    if k < |cfg.longOpt.value| && GoodNames(cfg.longOpt.value) && arg == "--" + cfg.longOpt.value[k].opt + "=" + text {
      assert arg[2..] == cfg.longOpt.value[k].opt + "=" + text;
      AtMostOneMatch(cfg.longOpt.value, arg[2..], k, k);
    }
  }

  predicate PointsInto(argv: seq<string>, p: Ptr) {
    p == Null || (p.arg < |argv| && p.off <= |argv[p.arg]|)
  }

  /** The effect of a call at `idx`: END exactly at argc, where the cursor then stays; any other call that does
      not crash moves the cursor by one, or by two exactly when the following argument is handed out as the
      value, and never past argc; retval always points into argv. */
  ghost predicate Advances(cfg: Config, idx: nat, rv: Ptr, e: Effect) {
    && (e.ret == End <==> idx >= |cfg.argv|)
    && (e.ret in {End, Crash} ==> e.curIdx == idx)
    && (e.ret !in {End, Crash} ==> e.curIdx in {idx + 1, idx + 2} && e.curIdx <= |cfg.argv|)
    && (e.ret !in {End, Crash, EInval} ==> (e.curIdx == idx + 2 <==> e.retval == At(idx + 1, 0)))
    && (e.ret == EInval ==> e.retval == rv && e.curIdx == idx + 1)
    && PointsInto(cfg.argv, e.retval)
  }

  lemma ValueAdvances(cfg: Config, idx: nat, rv: Ptr, val: char, required: bool, merged: Ptr)
    requires idx < |cfg.argv| && PointsInto(cfg.argv, rv)
    requires merged == Null || (PointsInto(cfg.argv, merged) && merged.arg == idx)
    ensures Advances(cfg, idx, rv, ValueEffect(cfg, idx, rv, val, required, merged))
  {
  }

  lemma LongAdvances(cfg: Config, idx: nat, rv: Ptr)
    requires idx < |cfg.argv| && "--" <= cfg.argv[idx] && PointsInto(cfg.argv, rv)
    ensures Advances(cfg, idx, rv, LongEffect(cfg, idx, rv))
  {
    var arg := cfg.argv[idx];
    if cfg.longOpt.Some? && FirstMatch(cfg.longOpt.value, arg[2..]).Some? {
      var e := cfg.longOpt.value[FirstMatch(cfg.longOpt.value, arg[2..]).value];
      ValueAdvances(cfg, idx, rv, e.val, e.argReq.RequiredVal?,
                    if |arg[2..]| > |e.opt| then At(idx, |e.opt| + 3) else Null);
    }
  }

  lemma ShortAdvances(cfg: Config, idx: nat, rv: Ptr)
    requires idx < |cfg.argv| && |cfg.argv[idx]| >= 2 && PointsInto(cfg.argv, rv)
    ensures Advances(cfg, idx, rv, ShortEffect(cfg, idx, rv))
  {
    var arg := cfg.argv[idx];
    var merged := if |arg| > 2 then At(idx, 2) else Null;
    ValueAdvances(cfg, idx, rv, arg[1], true, merged);
    ValueAdvances(cfg, idx, rv, arg[1], false, merged);
  }

  lemma StepAdvances(cfg: Config, idx: nat, rv: Ptr)
    requires PointsInto(cfg.argv, rv)
    ensures Advances(cfg, idx, rv, Step(cfg, idx, rv))
    ensures var e := Step(cfg, idx, rv);
            && (e.ret == End <==> idx >= |cfg.argv|)
            && (e.ret in {End, Crash} ==> e.curIdx == idx)
            && (e.ret !in {End, Crash} ==> e.curIdx in {idx + 1, idx + 2} && e.curIdx <= |cfg.argv|)
            && (e.ret !in {End, Crash, EInval} ==> (e.curIdx == idx + 2 <==> e.retval == At(idx + 1, 0)))
            && (e.ret == EInval ==> e.curIdx == idx + 1)
            && (e.retval == Null || (e.retval.arg < |cfg.argv| && e.retval.off <= |cfg.argv[e.retval.arg]|))
  {
    if idx < |cfg.argv| && |cfg.argv[idx]| >= 2 && cfg.argv[idx][0] == '-' {
      if cfg.argv[idx][1] == '-' {
        LongAdvances(cfg, idx, rv);
      } else {
        ShortAdvances(cfg, idx, rv);
      }
    }
  }

  /** The calls from `idx` on, up to but without the one that ends or crashes. */
  function Calls(cfg: Config, idx: nat, rv: Ptr): seq<Effect>
    decreases |cfg.argv| - idx
  {
    var e := Step(cfg, idx, rv);
    if e.ret in {End, Crash} || e.curIdx <= idx then [] else [e] + Calls(cfg, e.curIdx, e.retval)
  }

  /** The cursor after a list of calls that starts at `idx`. */
  function LastCursor(idx: nat, calls: seq<Effect>): nat {
    if calls == [] then idx else calls[|calls| - 1].curIdx
  }

  /** The arguments consumed by a list of calls that starts at `idx`, in order. */
  function Consumed(argv: seq<string>, idx: nat, calls: seq<Effect>): seq<string>
    decreases |calls|
  {
    if calls == [] then []
    else (if idx <= calls[0].curIdx <= |argv| then argv[idx..calls[0].curIdx] else [])
         + Consumed(argv, calls[0].curIdx, calls[1..])
  }

  /** The calls from `idx` on: none at the end or before the crash, else one and the calls after it. */
  lemma FirstCall(cfg: Config, idx: nat, rv: Ptr) returns (e: Effect)
    requires idx <= |cfg.argv| && PointsInto(cfg.argv, rv)
    ensures e == Step(cfg, idx, rv)
    ensures e.ret in {End, Crash} ==>
              && Calls(cfg, idx, rv) == []
              && (idx == |cfg.argv| || (idx == |cfg.argv| - 1 && WantsNextArgument(cfg, cfg.argv[idx])))
    ensures e.ret !in {End, Crash} ==>
              && Calls(cfg, idx, rv) == [e] + Calls(cfg, e.curIdx, e.retval)
              && idx < e.curIdx <= |cfg.argv| && PointsInto(cfg.argv, e.retval)
  {
    StepAdvances(cfg, idx, rv);
    CrashIffLastWantsNext(cfg, idx, rv);
    e := Step(cfg, idx, rv);
  }

  /** A list of calls that starts at `idx` and moves the cursor forward consumes what lies between. */
  ghost predicate Partition(argv: seq<string>, idx: nat, calls: seq<Effect>, last: nat) {
    && |calls| <= last - idx
    && idx <= last <= |argv|
    && Consumed(argv, idx, calls) == argv[idx..last]
  }

  lemma PartitionCons(argv: seq<string>, idx: nat, e: Effect, calls: seq<Effect>, last: nat)
    requires idx < e.curIdx <= |argv| && Partition(argv, e.curIdx, calls, last)
    ensures Partition(argv, idx, [e] + calls, last)
  {
    assert ([e] + calls)[1..] == calls;
    assert argv[idx..e.curIdx] + argv[e.curIdx..last] == argv[idx..last];
  }

  lemma {:induction false} CallsPartition(cfg: Config, idx: nat, rv: Ptr)
    requires idx <= |cfg.argv| && PointsInto(cfg.argv, rv)
    ensures var calls := Calls(cfg, idx, rv); var last := LastCursor(idx, calls);
            && Partition(cfg.argv, idx, calls, last)
            && (last == |cfg.argv| || (last == |cfg.argv| - 1 && WantsNextArgument(cfg, cfg.argv[last])))
    decreases |cfg.argv| - idx
  {
    var e := FirstCall(cfg, idx, rv);
    if e.ret !in {End, Crash} {
      CallsPartition(cfg, e.curIdx, e.retval);
      var rest := Calls(cfg, e.curIdx, e.retval);
      PartitionCons(cfg.argv, idx, e, rest, LastCursor(e.curIdx, rest));
    }
  }

  /** The calls partition argv: from any cursor they consume the arguments one after the other, in order and
      without a gap, in at most argc - idx calls, until END or the crash. */
  lemma CallsPartitionArgv(cfg: Config, idx: nat, rv: Ptr)
    requires idx <= |cfg.argv| && PointsInto(cfg.argv, rv)
    ensures var calls := Calls(cfg, idx, rv); var last := LastCursor(idx, calls);
            && |calls| <= last - idx && idx <= last <= |cfg.argv|
            && Consumed(cfg.argv, idx, calls) == cfg.argv[idx..last]
            && (last == |cfg.argv| || (last == |cfg.argv| - 1 && WantsNextArgument(cfg, cfg.argv[last])))
  {
    CallsPartition(cfg, idx, rv);
  }

  /** What a caller can check before the first call: a run reaches END, without a crash, exactly when the last
      argument is not an option that wants another one. */
  lemma {:induction false} ReachesEndIffLastIsSatisfied(cfg: Config, idx: nat, rv: Ptr)
    requires idx < |cfg.argv| && PointsInto(cfg.argv, rv)
    ensures (LastCursor(idx, Calls(cfg, idx, rv)) == |cfg.argv|)
              <==> !WantsNextArgument(cfg, cfg.argv[|cfg.argv| - 1])
    decreases |cfg.argv| - idx
  {
    var e := CallOutcome(cfg, idx, rv);
    if e.ret !in {End, Crash} && e.curIdx < |cfg.argv| {
      ReachesEndIffLastIsSatisfied(cfg, e.curIdx, e.retval);
    }
  }

  /** Whether the last argument wants another one, as one call shows it. */
  lemma CallOutcome(cfg: Config, idx: nat, rv: Ptr) returns (e: Effect)
    requires idx < |cfg.argv| && PointsInto(cfg.argv, rv)
    ensures var last := |cfg.argv| - 1; var wants := WantsNextArgument(cfg, cfg.argv[last]);
            var calls := Calls(cfg, idx, rv);
            if e.ret in {End, Crash} then calls == [] && idx == last && wants
            else
              && PointsInto(cfg.argv, e.retval) && idx < e.curIdx <= |cfg.argv|
              && LastCursor(idx, calls) == LastCursor(e.curIdx, Calls(cfg, e.curIdx, e.retval))
              && (e.curIdx == |cfg.argv| ==> !wants && Calls(cfg, e.curIdx, e.retval) == [])
  {
    e := FirstCall(cfg, idx, rv);
    StepAdvances(cfg, idx, rv);
    CrashIffLastWantsNext(cfg, idx, rv);
    TakenValueHasNoDash(cfg, idx, rv);
  }

  /** An argument handed out as a separate value is no option. */
  lemma TakenValueHasNoDash(cfg: Config, idx: nat, rv: Ptr)
    requires idx < |cfg.argv| && PointsInto(cfg.argv, rv)
    ensures Step(cfg, idx, rv).ret !in {End, Crash} && Step(cfg, idx, rv).curIdx == idx + 2 ==>
              idx + 1 < |cfg.argv| && !StartsWithDash(cfg.argv[idx + 1])
  {
    StepAdvances(cfg, idx, rv);
  }

  /** A lone "-H" with option string "H:" crashes on the first call. */
  lemma LoneOptionCrashes()
    ensures var cfg := Config(["-H"], Some("H:"), None);
            Step(cfg, 0, Null).ret == Crash && LastCursor(0, Calls(cfg, 0, Null)) == 0
  {
    var cfg := Config(["-H"], Some("H:"), None);
    assert Colons("H:", 1) == 1 + Colons("H:", 2);
    assert "H:"[0..] == "H:";
    LookupFrom("H:", 0, 2, 'H');
    CrashIffLastWantsNext(cfg, 0, Null);
  }

  /** A client that calls until END (or the crash) and notes every call. */
  method CallUntilEnd(p: BtGetopt) returns (calls: seq<Effect>)
    requires p.curIdx <= |p.cfg.argv| && PointsInto(p.cfg.argv, p.retval)
    modifies p
    ensures calls == Calls(p.cfg, old(p.curIdx), old(p.retval))
    ensures p.curIdx == LastCursor(old(p.curIdx), calls)
    decreases |p.cfg.argv| - p.curIdx
  {
    var _ := FirstCall(p.cfg, p.curIdx, p.retval);
    var ret := p.Next();
    if ret in {End, Crash} {
      return [];
    }
    var e := Effect(ret, p.retval, p.curIdx);
    var rest := CallUntilEnd(p);
    calls := [e] + rest;
  }

  // ---------------------------------------------------------------- render, then parse

  /** A command line as a list: options with or without a value, operands and unknown options. `inside` says that the
      value is written into the option's own argument. */
  datatype Item =
    | Short(c: char, value: Option<string>, inside: bool)
    | Long(k: nat, value: Option<string>, inside: bool)
    | Operand(s: string)
    | Unknown(s: string)

  function RenderItem(table: seq<LongOpt>, item: Item): (r: seq<string>)
    requires item.Long? ==> item.k < |table|
    ensures 1 <= |r| <= 2
  {
    match item
    case Short(c, None, _) => ["-" + [c]]
    case Short(c, Some(v), inside) => if inside then ["-" + [c] + v] else ["-" + [c], v]
    case Long(k, None, _) => ["--" + table[k].opt]
    case Long(k, Some(v), inside) =>
      if inside then ["--" + table[k].opt + "=" + v] else ["--" + table[k].opt, v]
    case Operand(s) => [s]
    case Unknown(s) => [s]
  }

  function Table(cfg: Config): seq<LongOpt> {
    if cfg.longOpt.Some? then cfg.longOpt.value else []
  }

  /** The value fits the arity, and its way of writing can be read back. */
  predicate ValueFits(arity: Arity, value: Option<string>, inside: bool, restArgs: seq<string>) {
    match value
    case None => arity == NoValue || (arity == OptionalValue && restArgs != [] && StartsWithDash(restArgs[0]))
    case Some(v) => arity != NoValue && (inside || !StartsWithDash(v))
  }

  predicate Renderable(cfg: Config, item: Item, restArgs: seq<string>) {
    match item
    case Short(c, value, inside) =>
      && c != '-' && cfg.shortOpt.Some? && (inside ==> value != Some(""))
      && var arity := Lookup(ParseSpec(cfg.shortOpt.value), c);
      && arity.Some? && ValueFits(arity.value, value, inside, restArgs)
    case Long(k, value, inside) =>
      && k < |Table(cfg)| && GoodNames(Table(cfg)) && !Table(cfg)[k].argReq.EmptyStruct?
      && ValueFits(LongArity(Table(cfg)[k].argReq), value, inside, restArgs)
    case Operand(s) => IsOperand(cfg, s)
    case Unknown(s) => !IsOperand(cfg, s) && IsUnknown(cfg, s)
  }

  function LongArity(r: ArgReq): Arity {
    match r
    case RequiredVal => RequiredValue
    case OptionalVal => OptionalValue
    case _ => NoValue
  }

  predicate AllRenderable(cfg: Config, items: seq<Item>) {
    items != [] ==>
      && AllRenderable(cfg, items[1..])
      && Renderable(cfg, items[0], Render(cfg, items[1..]))
  }

  function Render(cfg: Config, items: seq<Item>): seq<string> {
    if items == [] then []
    else (if items[0].Long? && items[0].k >= |Table(cfg)| then [] else RenderItem(Table(cfg), items[0]))
         + Render(cfg, items[1..])
  }

  /** What a caller sees of one call: the code, and the string retval points to. */
  datatype Seen = Seen(ret: Ret, text: Option<string>)

  function See(argv: seq<string>, e: Effect): Seen {
    Seen(e.ret, if e.retval != Null && PointsInto(argv, e.retval)
                then Some(argv[e.retval.arg][e.retval.off..]) else None)
  }

  function Expected(cfg: Config, item: Item): Seen {
    match item
    case Short(c, value, _) => Seen(Opt(c), value)
    case Long(k, value, _) => if k < |Table(cfg)| then Seen(Opt(Table(cfg)[k].val), value) else Seen(EInval, None)
    case Operand(s) => Seen(NonOpt, Some(s))
    case Unknown(s) => Seen(UnknownOpt, None)
  }

  lemma ShortReadsBack(cfg: Config, idx: nat, rv: Ptr, item: Item, restArgs: seq<string>)
    requires item.Short? && Renderable(cfg, item, restArgs)
    requires idx <= |cfg.argv| && cfg.argv[idx..] == RenderItem(Table(cfg), item) + restArgs
    ensures var e := Step(cfg, idx, rv);
            e.curIdx == idx + |RenderItem(Table(cfg), item)| && See(cfg.argv, e) == Expected(cfg, item)
  {
    var r := RenderItem(Table(cfg), item);
    assert cfg.argv[idx] == cfg.argv[idx..][0] == r[0];
    if item.value.Some? && item.inside {
      assert r[0][2..] == item.value.value;
    } else if |cfg.argv| > idx + 1 {
      assert cfg.argv[idx + 1] == cfg.argv[idx..][1] == (r + restArgs)[1];
    }
    if item.value.Some? && !item.inside {
      assert cfg.argv[idx + 1][0..] == item.value.value;
    }
  }

  /** A call on an argument that matches entry k of a well-named table. */
  lemma EntryEffect(cfg: Config, idx: nat, rv: Ptr, k: nat)
    requires idx < |cfg.argv| && "--" <= cfg.argv[idx]
    requires k < |Table(cfg)| && GoodNames(Table(cfg)) && Matches(Table(cfg)[k], cfg.argv[idx][2..])
    ensures var e := Table(cfg)[k];
            var merged := if |cfg.argv[idx]| > |e.opt| + 2 then At(idx, |e.opt| + 3) else Null;
            Step(cfg, idx, rv) ==
              match e.argReq
              case NoVal => Effect(Opt(e.val), Null, idx + 1)
              case EmptyStruct => Effect(EInval, rv, idx + 1)
              case _ => ValueEffect(cfg, idx, rv, e.val, e.argReq == RequiredVal, merged)
  {
    AtMostOneMatch(Table(cfg), cfg.argv[idx][2..], k, k);
  }

  lemma LongReadsBack(cfg: Config, idx: nat, rv: Ptr, item: Item, restArgs: seq<string>)
    requires item.Long? && Renderable(cfg, item, restArgs)
    requires idx <= |cfg.argv| && cfg.argv[idx..] == RenderItem(Table(cfg), item) + restArgs
    ensures var e := Step(cfg, idx, rv);
            e.curIdx == idx + |RenderItem(Table(cfg), item)| && See(cfg.argv, e) == Expected(cfg, item)
  {
    var r, name := RenderItem(Table(cfg), item), Table(cfg)[item.k].opt;
    var arg := cfg.argv[idx];
    assert arg == cfg.argv[idx..][0] == r[0];
    if item.value.Some? && item.inside {
      assert arg[2..] == name + "=" + item.value.value;
      assert arg[|name| + 3..] == item.value.value;
    } else {
      assert arg[2..] == name;
      assert |cfg.argv| > idx + 1 ==> cfg.argv[idx + 1] == cfg.argv[idx..][1] == (r + restArgs)[1];
      assert item.value.Some? ==> cfg.argv[idx + 1][0..] == item.value.value;
    }
    EntryEffect(cfg, idx, rv, item.k);
  }

  lemma ItemReadsBack(cfg: Config, idx: nat, rv: Ptr, item: Item, restArgs: seq<string>)
    requires Renderable(cfg, item, restArgs)
    requires idx <= |cfg.argv| && cfg.argv[idx..] == RenderItem(Table(cfg), item) + restArgs
    ensures var e := Step(cfg, idx, rv);
            e.curIdx == idx + |RenderItem(Table(cfg), item)| && See(cfg.argv, e) == Expected(cfg, item)
  {
    match item
    case Short(_, _, _) => ShortReadsBack(cfg, idx, rv, item, restArgs);
    case Long(_, _, _) => LongReadsBack(cfg, idx, rv, item, restArgs);
    case Operand(s) =>
      assert cfg.argv[idx] == cfg.argv[idx..][0] == s;
      assert s[0..] == s;
    case Unknown(s) =>
      assert cfg.argv[idx] == cfg.argv[idx..][0] == s;
      CodesMean(cfg, idx, rv);
  }

  function SeenIn(argv: seq<string>, calls: seq<Effect>): seq<Seen> {
    if calls == [] then [] else [See(argv, calls[0])] + SeenIn(argv, calls[1..])
  }

  function ExpectedOf(cfg: Config, items: seq<Item>): seq<Seen> {
    if items == [] then [] else [Expected(cfg, items[0])] + ExpectedOf(cfg, items[1..])
  }

  /** Round trip: calling the parser until END on a rendered command line gives back the list, item by item,
      and reaches END without a crash. */
  lemma {:induction false} RenderThenParse(cfg: Config, idx: nat, rv: Ptr, items: seq<Item>)
    requires AllRenderable(cfg, items)
    requires idx <= |cfg.argv| && cfg.argv[idx..] == Render(cfg, items)
    ensures SeenIn(cfg.argv, Calls(cfg, idx, rv)) == ExpectedOf(cfg, items)
    ensures LastCursor(idx, Calls(cfg, idx, rv)) == |cfg.argv|
    decreases |items|
  {
    if items != [] {
      var restArgs := Render(cfg, items[1..]);
      ItemReadsBack(cfg, idx, rv, items[0], restArgs);
      var e := Step(cfg, idx, rv);
      assert cfg.argv[e.curIdx..] == cfg.argv[idx..][e.curIdx - idx..] == restArgs;
      RenderThenParse(cfg, e.curIdx, e.retval, items[1..]);
      var rest := Calls(cfg, e.curIdx, e.retval);
      assert Calls(cfg, idx, rv) == [e] + rest && ([e] + rest)[1..] == rest;
    }
  }

  // ---------------------------------------------------------------- parse, then render

  /** A call that reads something that can be written down as an item: no error, and no text that is dropped. */
  predicate IsPlain(cfg: Config, idx: nat, rv: Ptr)
    requires idx < |cfg.argv|
  {
    var arg := cfg.argv[idx];
    && Step(cfg, idx, rv).ret !in {MissingArg, EInval, Crash}
    && (Step(cfg, idx, rv).ret.Opt? && !TakesValue(cfg, arg) ==>
          if arg[1] == '-' then '=' !in arg else |arg| == 2)
  }

  /** The item a plain call reads. */
  function ItemRead(cfg: Config, idx: nat): Item
    requires idx < |cfg.argv|
  {
    var arg := cfg.argv[idx];
    if IsOperand(cfg, arg) then Operand(arg)
    else if IsUnknown(cfg, arg) then Unknown(arg)
    else
      var inside := TakesValue(cfg, arg) && !WantsNextArgument(cfg, arg);
      var value :=
        if inside && ValueOffset(cfg, arg) <= |arg| then Some(arg[ValueOffset(cfg, arg)..])
        else if TakesValue(cfg, arg) && idx + 1 < |cfg.argv| && !StartsWithDash(cfg.argv[idx + 1])
        then Some(cfg.argv[idx + 1])
        else None;
      if arg[1] == '-' then Long(FirstMatch(cfg.longOpt.value, arg[2..]).value, value, inside)
      else Short(arg[1], value, inside)
  }

  /** A plain option call, seen from its argument: the value inside it, in the next argument, or none. */
  lemma PlainOption(cfg: Config, idx: nat, rv: Ptr)
    requires GoodNames(Table(cfg)) && idx < |cfg.argv| && IsPlain(cfg, idx, rv)
    requires var arg := cfg.argv[idx]; !IsOperand(cfg, arg) && !IsUnknown(cfg, arg)
    ensures var arg, item, next := cfg.argv[idx], ItemRead(cfg, idx), Step(cfg, idx, rv).curIdx;
            && Renderable(cfg, item, cfg.argv[next..])
            && (if item.Short? || item.Long? then
                  && (item.inside ==> item.value.Some? && next == idx + 1)
                  && (item.value.Some? && !item.inside ==>
                        next == idx + 2 <= |cfg.argv| && item.value == Some(cfg.argv[idx + 1]))
                  && (item.value.None? ==> next == idx + 1)
                else false)
  {
  }

  /** An option's argument is its dashes, its name, and the value if it is inside. */
  lemma OptionArgument(cfg: Config, idx: nat, rv: Ptr)
    requires GoodNames(Table(cfg)) && idx < |cfg.argv| && IsPlain(cfg, idx, rv)
    requires var arg := cfg.argv[idx]; !IsOperand(cfg, arg) && !IsUnknown(cfg, arg)
    ensures RenderItem(Table(cfg), ItemRead(cfg, idx))[0] == cfg.argv[idx]
  {
    var arg, item := cfg.argv[idx], ItemRead(cfg, idx);
    PlainOption(cfg, idx, rv);
    if item.Long? {
      LongForm(cfg, idx, rv);
      LongText(arg, Table(cfg)[item.k].opt);
    } else {
      assert arg == "-" + [arg[1]] + arg[2..];
    }
  }

  lemma LongForm(cfg: Config, idx: nat, rv: Ptr)
    requires GoodNames(Table(cfg)) && idx < |cfg.argv| && IsPlain(cfg, idx, rv)
    requires var arg := cfg.argv[idx]; !IsOperand(cfg, arg) && !IsUnknown(cfg, arg) && arg[1] == '-'
    ensures var item := ItemRead(cfg, idx); var arg, opt := cfg.argv[idx], Table(cfg)[item.k].opt;
            && opt <= arg[2..]
            && (item.inside ==>
                  && |arg| > |opt| + 2 && arg[|opt| + 2] == '='
                  && item.value == Some(arg[|opt| + 3..]))
            && (!item.inside ==> |arg| == |opt| + 2)
  {
    var arg, item := cfg.argv[idx], ItemRead(cfg, idx);
    assert Matches(Table(cfg)[item.k], arg[2..]);
    PlainOption(cfg, idx, rv);
  }

  lemma LongText(arg: string, opt: string)
    requires "--" <= arg && opt <= arg[2..]
    ensures |arg| == |opt| + 2 ==> arg == "--" + opt
    ensures |arg| > |opt| + 2 && arg[|opt| + 2] == '=' ==> arg == "--" + opt + "=" + arg[|opt| + 3..]
  {
    assert arg == "--" + opt + arg[|opt| + 2..];
  }

  /** Such a call reads a renderable item, and the item's rendering is what the call consumed. */
  lemma ItemIsRendered(cfg: Config, idx: nat, rv: Ptr)
    requires GoodNames(Table(cfg)) && idx < |cfg.argv| && IsPlain(cfg, idx, rv)
    ensures var item, next := ItemRead(cfg, idx), Step(cfg, idx, rv).curIdx;
            && idx < next <= |cfg.argv|
            && Renderable(cfg, item, cfg.argv[next..])
            && RenderItem(Table(cfg), item) == cfg.argv[idx..next]
  {
    var arg, next := cfg.argv[idx], Step(cfg, idx, rv).curIdx;
    if !IsOperand(cfg, arg) && !IsUnknown(cfg, arg) {
      PlainOption(cfg, idx, rv);
      OptionArgument(cfg, idx, rv);
      assert next == idx + 2 ==> cfg.argv[idx..next] == [arg, cfg.argv[idx + 1]];
    }
  }

  /** Every call from here on is plain. */
  predicate AllPlain(cfg: Config, idx: nat, rv: Ptr)
    decreases |cfg.argv| - idx
  {
    idx < |cfg.argv| ==>
      var e := Step(cfg, idx, rv);
      IsPlain(cfg, idx, rv) && idx < e.curIdx && AllPlain(cfg, e.curIdx, e.retval)
  }

  /** The other way round: a command line all of whose calls are plain is the rendering of a renderable list, and by
      RenderThenParse of the one its calls read. */
  lemma {:induction false} ParseThenRender(cfg: Config, idx: nat, rv: Ptr) returns (items: seq<Item>)
    requires GoodNames(Table(cfg)) && idx <= |cfg.argv| && AllPlain(cfg, idx, rv)
    ensures AllRenderable(cfg, items) && Render(cfg, items) == cfg.argv[idx..]
    decreases |cfg.argv| - idx
  {
    if idx == |cfg.argv| {
      return [];
    }
    var e, item := Step(cfg, idx, rv), ItemRead(cfg, idx);
    ItemIsRendered(cfg, idx, rv);
    var rest := ParseThenRender(cfg, e.curIdx, e.retval);
    items := [item] + rest;
    assert items[1..] == rest;
    assert cfg.argv[idx..] == cfg.argv[idx..e.curIdx] + cfg.argv[e.curIdx..];
  }

  /** A rendered item is read by a plain call. */
  lemma ItemIsPlain(cfg: Config, idx: nat, rv: Ptr, item: Item, restArgs: seq<string>)
    requires GoodNames(Table(cfg)) && Renderable(cfg, item, restArgs)
    requires idx <= |cfg.argv| && cfg.argv[idx..] == RenderItem(Table(cfg), item) + restArgs
    ensures idx < |cfg.argv| && IsPlain(cfg, idx, rv)
  {
    ItemReadsBack(cfg, idx, rv, item, restArgs);
    var arg, r := cfg.argv[idx], RenderItem(Table(cfg), item);
    assert arg == cfg.argv[idx..][0] == r[0];
    if item.Long? && item.value.None? {
      assert Table(cfg)[item.k] in Table(cfg);
      assert arg == "--" + Table(cfg)[item.k].opt;
    } else if item.Long? {
      EntryOfItem(cfg, item, arg);
    }
  }

  lemma EntryOfItem(cfg: Config, item: Item, arg: string)
    requires GoodNames(Table(cfg)) && item.Long? && item.k < |Table(cfg)| && arg == RenderItem(Table(cfg), item)[0]
    ensures "--" <= arg && FirstMatch(Table(cfg), arg[2..]) == Some(item.k)
  {
    var opt := Table(cfg)[item.k].opt;
    if item.value.Some? && item.inside {
      assert arg[2..] == opt + "=" + item.value.value;
    } else {
      assert arg[2..] == opt;
    }
    AtMostOneMatch(Table(cfg), arg[2..], item.k, item.k);
  }

  /** And only such a command line: all calls on a rendered one are plain. */
  lemma {:induction false} RenderedIsPlain(cfg: Config, idx: nat, rv: Ptr, items: seq<Item>)
    requires GoodNames(Table(cfg)) && AllRenderable(cfg, items)
    requires idx <= |cfg.argv| && cfg.argv[idx..] == Render(cfg, items)
    ensures AllPlain(cfg, idx, rv)
    decreases |items|
  {
    if items != [] {
      var restArgs := Render(cfg, items[1..]);
      ItemReadsBack(cfg, idx, rv, items[0], restArgs);
      ItemIsPlain(cfg, idx, rv, items[0], restArgs);
      var e := Step(cfg, idx, rv);
      assert cfg.argv[e.curIdx..] == cfg.argv[idx..][e.curIdx - idx..] == restArgs;
      RenderedIsPlain(cfg, e.curIdx, e.retval, items[1..]);
    }
  }
}
