/** The crash-reporting protocol of the test harness: the child counts, and reports a snapshot of the totals
    through a bounded, non-blocking pipe after every test entry and, from its signal handler, when it crashes;
    the parent reads the pipe only after the child is gone and keeps the last record. */
module BlueTest {
  import opened CBase

  /** bluetest_data_t: four 32-bit counters. */
  datatype Data = Data(nTest: uint32, nPass: uint32, dynFail: uint32, dynPass: uint32)

  const ZERO: Data := Data(0, 0, 0, 0)

  /** One assertion of a test: a predictable one (TQ_ASSERT, TQ_ASSERT_S) or a dynamic one (the _DYN forms). */
  datatype Check = Assert(ok: bool) | Dyn(ok: bool)

  /** The assertions an entry reaches when it is only counted, and when it is run. The two can differ: a test may
      put assertions under TQ_IF_RUN. */
  datatype Entry = Entry(counted: seq<Check>, ran: seq<Check>) {
    function Checks(running: bool): seq<Check> {
      if running then ran else counted
    }
  }

  /** Where the child dies: in the given phase, inside the given entry, after `checks` of its assertions;
      `handled` says that the signal handler gets to run (SIGSEGV, SIGABRT). */
  datatype Crash = NoCrash | InEntry(running: bool, entry: nat, checks: nat, handled: bool)

  // ---------------------------------------------------------------- what the totals should be

  function To32(n: nat): uint32 {
    (n % 0x1_0000_0000) as uint32
  }

  /** How often an assertion with this outcome occurs. */
  function Count(checks: seq<Check>, c: Check): nat {
    multiset(checks)[c]
  }

  lemma CountSnoc(checks: seq<Check>, last: Check, c: Check)
    ensures Count(checks + [last], c) == Count(checks, c) + if last == c then 1 else 0
  {
  }

  /** The number of predictable assertions. */
  function Predictable(checks: seq<Check>): nat {
    Count(checks, Assert(true)) + Count(checks, Assert(false))
  }

  /** The totals of some counted and some run assertions, modulo 2^32. */
  function Totals(counted: seq<Check>, ran: seq<Check>): Data {
    Data(To32(Predictable(counted)),
         To32(Count(ran, Assert(true))),
         To32(Count(ran, Dyn(false))),
         To32(Count(ran, Dyn(true))))
  }

  /** Each counter is the number of occurrences modulo 2^32. */
  lemma TotalsAre(counted: seq<Check>, ran: seq<Check>)
    ensures var d := Totals(counted, ran); var c, r := multiset(counted), multiset(ran);
            && d.nTest as int == (c[Assert(true)] + c[Assert(false)]) % 0x1_0000_0000
            && d.nPass as int == r[Assert(true)] % 0x1_0000_0000
            && d.dynFail as int == r[Dyn(false)] % 0x1_0000_0000
            && d.dynPass as int == r[Dyn(true)] % 0x1_0000_0000
  {
  }

  /** The assertions of the first n entries in one phase. */
  function ChecksOf(entries: seq<Entry>, running: bool, n: nat): seq<Check>
    requires n <= |entries|
  {
    if n == 0 then [] else ChecksOf(entries, running, n - 1) + entries[n - 1].Checks(running)
  }

  lemma {:induction false} ChecksOfFront(a: seq<Entry>, b: seq<Entry>, running: bool, n: nat)
    requires n <= |a|
    ensures ChecksOf(a + b, running, n) == ChecksOf(a, running, n)
  {
    if n > 0 {
      ChecksOfFront(a, b, running, n - 1);
    }
  }

  /** They are those of the entries in their order: of a list those of its front, then those of its back, and of one
      entry its own. */
  lemma {:induction false} ChecksOfConcat(a: seq<Entry>, b: seq<Entry>, running: bool, n: nat)
    requires n <= |b|
    ensures ChecksOf(a + b, running, |a| + n) == ChecksOf(a, running, |a|) + ChecksOf(b, running, n)
    decreases n
  {
    if n == 0 {
      ChecksOfFront(a, b, running, |a|);
    } else {
      var k := |a| + n;
      assert (a + b)[k - 1] == b[n - 1];
      calc {
        ChecksOf(a + b, running, k);
      ==
        ChecksOf(a + b, running, |a| + (n - 1)) + b[n - 1].Checks(running);
      ==  { ChecksOfConcat(a, b, running, n - 1); }
        ChecksOf(a, running, |a|) + ChecksOf(b, running, n - 1) + b[n - 1].Checks(running);
      ==
        ChecksOf(a, running, |a|) + ChecksOf(b, running, n);
      }
    }
  }

  lemma ChecksOfOne(e: Entry, running: bool)
    ensures ChecksOf([e], running, 1) == if running then e.ran else e.counted
  {
    assert ChecksOf([e], running, 0) == [];
  }

  // ---------------------------------------------------------------- how they come about

  /** ++ on a uint32_t. */
  function Inc(n: uint32): uint32 {
    if n == 0xFFFF_FFFF then 0 else n + 1
  }

  /** The counters after one assertion. */
  function After(d: Data, running: bool, c: Check): Data {
    match c
    case Assert(ok) =>
      if !running then d.(nTest := Inc(d.nTest)) else if ok then d.(nPass := Inc(d.nPass)) else d
    case Dyn(ok) =>
      if !running then d else if ok then d.(dynPass := Inc(d.dynPass)) else d.(dynFail := Inc(d.dynFail))
  }

  function AfterAll(d: Data, running: bool, checks: seq<Check>): Data {
    if checks == [] then d else After(AfterAll(d, running, checks[..|checks| - 1]), running, checks[|checks| - 1])
  }

  /** The counters when m of the 2 * |entries| entry calls are complete: all entries are counted, then all are run. */
  function Snapshot(entries: seq<Entry>, m: nat): Data
    requires m <= 2 * |entries|
  {
    var n := |entries|;
    if m == 0 then ZERO
    else if m <= n then AfterAll(Snapshot(entries, m - 1), false, entries[m - 1].counted)
    else AfterAll(Snapshot(entries, m - 1), true, entries[m - 1 - n].ran)
  }

  lemma IncTo32(n: nat)
    ensures Inc(To32(n)) == To32(n + 1)
  {
  }

  lemma TotalsNext(counted: seq<Check>, ran: seq<Check>, c: Check)
    ensures After(Totals(counted, ran), false, c) == Totals(counted + [c], ran)
    ensures After(Totals(counted, ran), true, c) == Totals(counted, ran + [c])
  {
    CountSnoc(counted, c, Assert(true));
    CountSnoc(counted, c, Assert(false));
    CountSnoc(ran, c, Assert(true));
    CountSnoc(ran, c, Dyn(false));
    CountSnoc(ran, c, Dyn(true));
    IncTo32(Predictable(counted));
    IncTo32(Count(ran, Assert(true)));
    IncTo32(Count(ran, Dyn(false)));
    IncTo32(Count(ran, Dyn(true)));
  }

  lemma {:induction false} TotalsAfterCounting(counted: seq<Check>, ran: seq<Check>, checks: seq<Check>)
    ensures AfterAll(Totals(counted, ran), false, checks) == Totals(counted + checks, ran)
  {
    if checks == [] {
      assert counted + checks == counted;
    } else {
      var init, c := checks[..|checks| - 1], checks[|checks| - 1];
      TotalsAfterCounting(counted, ran, init);
      TotalsNext(counted + init, ran, c);
      assert counted + checks == counted + init + [c];
    }
  }

  lemma {:induction false} TotalsAfterRunning(counted: seq<Check>, ran: seq<Check>, checks: seq<Check>)
    ensures AfterAll(Totals(counted, ran), true, checks) == Totals(counted, ran + checks)
  {
    if checks == [] {
      assert ran + checks == ran;
    } else {
      var init, c := checks[..|checks| - 1], checks[|checks| - 1];
      TotalsAfterRunning(counted, ran, init);
      TotalsNext(counted, ran + init, c);
      assert ran + checks == ran + init + [c];
    }
  }

  lemma {:induction false} CountedTotals(entries: seq<Entry>, i: nat)
    requires i <= |entries|
    ensures Snapshot(entries, i) == Totals(ChecksOf(entries, false, i), [])
  {
    if i > 0 {
      CountedTotals(entries, i - 1);
      TotalsAfterCounting(ChecksOf(entries, false, i - 1), [], entries[i - 1].counted);
    }
  }

  lemma {:induction false} RunTotals(entries: seq<Entry>, j: nat)
    requires j <= |entries|
    ensures Snapshot(entries, |entries| + j) == Totals(ChecksOf(entries, false, |entries|), ChecksOf(entries, true, j))
  {
    if j == 0 {
      CountedTotals(entries, |entries|);
    } else {
      var all, before := ChecksOf(entries, false, |entries|), ChecksOf(entries, true, j - 1);
      calc {
        Snapshot(entries, |entries| + j);
      ==
        AfterAll(Snapshot(entries, |entries| + (j - 1)), true, entries[j - 1].ran);
      ==  { RunTotals(entries, j - 1); }
        AfterAll(Totals(all, before), true, entries[j - 1].ran);
      ==  { TotalsAfterRunning(all, before, entries[j - 1].ran); }
        Totals(all, before + entries[j - 1].ran);
      }
    }
  }

  /** Every snapshot is exact: n_test counts the predictable assertions of the entries counted so far, the other
      three the passed, failed and passed ones of the entries run so far. */
  lemma SnapshotIsTotals(entries: seq<Entry>, j: nat)
    requires j <= |entries|
    ensures Snapshot(entries, j) == Totals(ChecksOf(entries, false, j), [])
    ensures Snapshot(entries, |entries| + j) == Totals(ChecksOf(entries, false, |entries|), ChecksOf(entries, true, j))
  {
    CountedTotals(entries, j);
    RunTotals(entries, j);
  }

  // ---------------------------------------------------------------- the harness

  class Harness {
    // the child
    var data: Data         // the counters the entries increment through pointers
    var gData: Data        // what the signal handler reports
    var willRun: bool
    // the pipe
    const capacity: nat    // the records it can hold
    var pipe: seq<Data>
    ghost var sent: seq<Data>   // every record handed to write(), kept or dropped

    /** The pipe holds the oldest records. */
    ghost predicate Valid()
      reads this
    {
      pipe == Kept(sent, capacity)
    }

    constructor (capacity: nat)
      ensures this.capacity == capacity && Valid() && sent == []
    {
      this.capacity := capacity;
      data, gData, willRun := ZERO, ZERO, false;
      pipe, sent := [], [];
    }

    /** A non-blocking write of one record: a full pipe drops it (EAGAIN). */
    method Write(d: Data)
      requires Valid()
      modifies this`pipe, this`sent
      ensures Valid() && sent == old(sent) + [d]
      ensures pipe == if |old(pipe)| < capacity then old(pipe) + [d] else old(pipe)
    {
      if |pipe| < capacity {
        pipe := pipe + [d];
      }
      sent := sent + [d];
    }

    /** The assertion macros: an assertion is counted in the first phase and judged in the second. */
    method TqAssert(c: Check, ret: int) returns (ret': int)
      modifies this`data
      ensures data == After(old(data), willRun, c)
      ensures data.nTest == if !willRun && c.Assert? then Inc(old(data).nTest) else old(data).nTest
      ensures data.nPass == if willRun && c == Assert(true) then Inc(old(data).nPass) else old(data).nPass
      ensures data.dynFail == if willRun && c == Dyn(false) then Inc(old(data).dynFail) else old(data).dynFail
      ensures data.dynPass == if willRun && c == Dyn(true) then Inc(old(data).dynPass) else old(data).dynPass
      ensures ret' == if willRun && !c.ok then 1 else ret
    {
      ret' := ret;
      match c
      case Assert(ok) =>
        if willRun {
          if ok {
            data := data.(nPass := Inc(data.nPass));
          } else {
            ret' := 1;
          }
        } else {
          data := data.(nTest := Inc(data.nTest));
        }
      case Dyn(ok) =>
        if willRun {
          if !ok {
            ret' := 1;
            data := data.(dynFail := Inc(data.dynFail));
          } else {
            data := data.(dynPass := Inc(data.dynPass));
          }
        }
    }

    /** One call of a test entry, cut off after `stop` assertions. It returns 1 exactly when it was run and some
        assertion failed. */
    method CallEntry(checks: seq<Check>, stop: nat) returns (ret: int)
      requires stop <= |checks|
      modifies this`data
      ensures data == AfterAll(old(data), willRun, checks[..stop])
      ensures ret == if willRun && exists c <- checks[..stop] :: !c.ok then 1 else 0
    {
      ret := 0;
      for k := 0 to stop
        invariant data == AfterAll(old(data), willRun, checks[..k])
        invariant ret == if willRun && exists c <- checks[..k] :: !c.ok then 1 else 0
      {
        assert checks[..k + 1] == checks[..k] + [checks[k]];
        assert checks[..k + 1][..k] == checks[..k];
        ret := TqAssert(checks[k], ret);
      }
    }

    /** The signal handler reports the totals saved before the entry that crashed. */
    method SigHandler()
      requires Valid()
      modifies this`pipe, this`sent
      ensures Valid() && sent == old(sent) + [gData]
    {
      Write(gData);
    }
  }

  /** All snapshots of a session, in order: number m is the totals after m completed entry calls. */
  ghost predicate IsTimeline(entries: seq<Entry>, timeline: seq<Data>) {
    && |timeline| == 2 * |entries| + 1
    && forall m {:trigger Snapshot(entries, m)} :: 0 <= m <= 2 * |entries| ==> timeline[m] == Snapshot(entries, m)
  }

  function Timeline(entries: seq<Entry>): seq<Data> {
    seq(2 * |entries| + 1, m requires 0 <= m <= 2 * |entries| => Snapshot(entries, m))
  }

  /** What the child hands to write() when m entry calls complete: a record after each, and from a signal handler
      the totals saved last once more. */
  function Sent(timeline: seq<Data>, m: nat, handled: bool): seq<Data>
    requires m < |timeline|
  {
    timeline[1..m + 1] + if handled then [timeline[m]] else []
  }

  /** The completed entry calls when i of a phase are complete. */
  function Calls(entries: seq<Entry>, running: bool, i: nat): (m: nat)
    requires i <= |entries|
    ensures m <= 2 * |entries|
  {
    if running then |entries| + i else i
  }

  lemma TimelineAt(entries: seq<Entry>, timeline: seq<Data>, m: nat)
    requires IsTimeline(entries, timeline) && m < |timeline|
    ensures timeline[m] == Snapshot(entries, m)
  {
  }

  lemma TimelineStarts(entries: seq<Entry>, timeline: seq<Data>)
    requires IsTimeline(entries, timeline)
    ensures timeline[0] == ZERO
  {
    assert timeline[0] == Snapshot(entries, 0);
  }

  /** An entry call takes the timeline from one snapshot to the next. */
  lemma TimelineStep(entries: seq<Entry>, timeline: seq<Data>, running: bool, i: nat)
    requires i < |entries| && IsTimeline(entries, timeline)
    ensures var m := Calls(entries, running, i);
            timeline[m + 1] == AfterAll(timeline[m], running, entries[i].Checks(running))
  {
    var m := Calls(entries, running, i);
    TimelineAt(entries, timeline, m);
    TimelineAt(entries, timeline, m + 1);
  }

  lemma SentNext(timeline: seq<Data>, m: nat)
    requires m + 1 < |timeline|
    ensures timeline[1..m + 1] + [timeline[m + 1]] == timeline[1..m + 2]
  {
  }

  /** One phase, the common loop of init_test and run_test, from `h.data` on. Returns whether the child died. */
  method Phase(h: Harness, entries: seq<Entry>, running: bool, crash: Crash, ghost timeline: seq<Data>)
    returns (crashed: bool)
    requires h.Valid() && IsTimeline(entries, timeline)
    requires h.data == timeline[Calls(entries, running, 0)]
    requires h.sent == timeline[1..Calls(entries, running, 0) + 1]
    modifies h
    ensures h.Valid()
    ensures crashed <==> crash.InEntry? && crash.running == running && crash.entry < |entries|
    ensures crashed ==> h.sent == Sent(timeline, Calls(entries, running, crash.entry), crash.handled)
    ensures !crashed ==>
              && h.data == h.gData == timeline[Calls(entries, running, |entries|)]
              && h.sent == timeline[1..Calls(entries, running, |entries|) + 1]
  {
    for i := 0 to |entries|
      invariant h.Valid()
      invariant h.data == timeline[Calls(entries, running, i)]
      invariant h.sent == timeline[1..Calls(entries, running, i) + 1]
      invariant crash.InEntry? && crash.running == running ==> i <= crash.entry
    {
      if crash.InEntry? && crash.running == running && crash.entry == i {
        CrashingCall(h, entries, i, running, crash, timeline);
        return true;
      }
      SentNext(timeline, Calls(entries, running, i));
      CompletedCall(h, entries, i, running, timeline);
    }
    h.gData := h.data;
    crashed := false;
  }

  /** One turn of the loop: save the totals for the handler, call the entry, report. */
  method CompletedCall(h: Harness, entries: seq<Entry>, i: nat, running: bool, ghost timeline: seq<Data>)
    requires h.Valid() && i < |entries| && IsTimeline(entries, timeline)
    requires h.data == timeline[Calls(entries, running, i)]
    modifies h
    ensures h.Valid()
    ensures h.gData == old(h.data) && h.data == timeline[Calls(entries, running, i) + 1]
    ensures h.sent == old(h.sent) + [h.data]
  {
    TimelineStep(entries, timeline, running, i);
    h.willRun := running;
    h.gData := h.data;
    var checks := entries[i].Checks(running);
    var _ := h.CallEntry(checks, |checks|);
    assert checks[..|checks|] == checks;
    h.Write(h.data);
  }

  /** The turn in which the child dies. */
  method CrashingCall(h: Harness, entries: seq<Entry>, i: nat, running: bool, crash: Crash, ghost timeline: seq<Data>)
    requires h.Valid() && i < |entries| && IsTimeline(entries, timeline)
    requires h.data == timeline[Calls(entries, running, i)]
    requires crash.InEntry?
    modifies h
    ensures h.Valid() && h.gData == old(h.data)
    ensures h.sent == old(h.sent) + if crash.handled then [old(h.data)] else []
  {
    h.willRun := running;
    h.gData := h.data;
    var checks := entries[i].Checks(running);
    var _ := h.CallEntry(checks, if crash.checks < |checks| then crash.checks else |checks|);
    if crash.handled {
      h.SigHandler();
    }
  }

  /** The child: count everything, then run everything. */
  method Child(h: Harness, entries: seq<Entry>, crash: Crash, ghost timeline: seq<Data>)
    requires h.Valid() && h.sent == [] && IsTimeline(entries, timeline)
    modifies h
    ensures h.Valid()
    ensures h.sent ==
              if crash.NoCrash? || crash.entry >= |entries| then Sent(timeline, 2 * |entries|, false)
              else Sent(timeline, if crash.running then |entries| + crash.entry else crash.entry, crash.handled)
  {
    TimelineStarts(entries, timeline);
    h.data := ZERO;
    var crashed := Phase(h, entries, false, crash, timeline);
    if crashed {
      return;
    }
    h.data := h.gData;
    crashed := Phase(h, entries, true, crash, timeline);
  }

  /** handle_wait after the child is gone: drain the pipe, keep the last record, and turn a clean exit with
      failed dynamic tests into exit code 1. */
  method HandleWait(h: Harness, exitCode: int) returns (data: Data, code: int)
    requires h.Valid()
    modifies h`pipe
    ensures h.pipe == []
    ensures data == if old(h.pipe) == [] then ZERO else old(h.pipe)[|old(h.pipe)| - 1]
    ensures code == if exitCode == 0 && data.dynFail > 0 then 1 else exitCode
  {
    data := ZERO;
    while h.pipe != []
      invariant |h.pipe| <= |old(h.pipe)| && h.pipe == old(h.pipe)[|old(h.pipe)| - |h.pipe|..]
      invariant data == if |h.pipe| == |old(h.pipe)| then ZERO else old(h.pipe)[|old(h.pipe)| - |h.pipe| - 1]
      decreases |h.pipe|
    {
      data := h.pipe[0];
      h.pipe := h.pipe[1..];
    }
    code := if exitCode == 0 && data.dynFail > 0 then 1 else exitCode;
  }

  /** The whole protocol, for every list of entries, every crash and every pipe; the child never waits. The parent's
      record is the totals of `counted` counted and `ran` run entries. With room for every record these are: without a
      crash, all of both phases; after a crash in a run entry, all counted ones and those run before that one; after a
      crash while counting, those counted before it. A smaller pipe leaves the first `capacity` entry calls. */
  method Session(entries: seq<Entry>, crash: Crash, capacity: nat, exitCode: int)
    returns (data: Data, code: int, ghost counted: nat, ghost ran: nat)
    ensures counted <= |entries| && ran <= |entries|
    ensures data == Totals(ChecksOf(entries, false, counted), ChecksOf(entries, true, ran))
    ensures (crash.NoCrash? || crash.entry >= |entries|) && 2 * |entries| <= capacity ==>
              counted == ran == |entries|
    ensures crash.InEntry? && crash.running && crash.entry < |entries| && |entries| + crash.entry <= capacity ==>
              counted == |entries| && ran == crash.entry
    ensures crash.InEntry? && !crash.running && crash.entry < |entries| && crash.entry <= capacity ==>
              counted == crash.entry && ran == 0
    ensures counted + ran < capacity ==>
              if crash.NoCrash? || crash.entry >= |entries| then counted + ran == 2 * |entries|
              else counted + ran == if crash.running then |entries| + crash.entry else crash.entry
    ensures counted + ran <= capacity && (counted < |entries| ==> ran == 0)
    ensures code == if exitCode == 0 && data.dynFail > 0 then 1 else exitCode
  {
    ghost var dies := crash.InEntry? && crash.entry < |entries|;
    ghost var m := if !dies then 2 * |entries| else if crash.running then |entries| + crash.entry else crash.entry;
    data, code := ChildAndParent(entries, crash, capacity, exitCode, m, dies && crash.handled);
    counted, ran := SnapshotSplits(entries, if m <= capacity then m else capacity);
  }

  /** The child's run, in which m entry calls complete, and the parent's wait. */
  method ChildAndParent(entries: seq<Entry>, crash: Crash, capacity: nat, exitCode: int, ghost m: nat,
                        ghost handled: bool)
    returns (data: Data, code: int)
    requires handled == (crash.InEntry? && crash.entry < |entries| && crash.handled)
    requires m == if crash.NoCrash? || crash.entry >= |entries| then 2 * |entries|
                  else if crash.running then |entries| + crash.entry else crash.entry
    ensures data == Snapshot(entries, if m <= capacity then m else capacity)
    ensures code == if exitCode == 0 && data.dynFail > 0 then 1 else exitCode
  {
    var h := new Harness(capacity);
    ghost var timeline := Timeline(entries);
    Child(h, entries, crash, timeline);
    TimelineStarts(entries, timeline);
    LastKept(timeline, m, handled, capacity);
    data, code := HandleWait(h, exitCode);
  }

  /** The first k entry calls as counted and run entries. */
  lemma SnapshotSplits(entries: seq<Entry>, k: nat) returns (counted: nat, ran: nat)
    requires k <= 2 * |entries|
    ensures counted + ran == k && counted <= |entries| && ran <= |entries| && (counted < |entries| ==> ran == 0)
    ensures Snapshot(entries, k) == Totals(ChecksOf(entries, false, counted), ChecksOf(entries, true, ran))
  {
    if k <= |entries| {
      CountedTotals(entries, k);
      return k, 0;
    }
    counted, ran := |entries|, k - |entries|;
    RunTotals(entries, ran);
  }

  /** The records a pipe of this capacity keeps, and the last of them. */
  function Kept(sent: seq<Data>, capacity: nat): seq<Data> {
    if |sent| <= capacity then sent else sent[..capacity]
  }

  lemma LastKept(timeline: seq<Data>, m: nat, handled: bool, capacity: nat)
    requires m < |timeline| && timeline[0] == ZERO
    ensures var kept := Kept(Sent(timeline, m, handled), capacity);
            (if kept == [] then ZERO else kept[|kept| - 1]) == timeline[if m <= capacity then m else capacity]
  {
  }

  lemma {:induction false} RunningKeepsNTest(d: Data, checks: seq<Check>)
    ensures AfterAll(d, true, checks).nTest == d.nTest
    ensures AfterAll(d, false, checks) == d.(nTest := AfterAll(d, false, checks).nTest)
  {
    if checks != [] {
      RunningKeepsNTest(d, checks[..|checks| - 1]);
    }
  }

  /** Once every entry has been counted the number of tests is final; before that nothing has been judged. */
  lemma {:induction false} NTestIsFinal(entries: seq<Entry>, m: nat)
    requires m <= 2 * |entries|
    ensures m >= |entries| ==> Snapshot(entries, m).nTest == Snapshot(entries, |entries|).nTest
    ensures m <= |entries| ==> Snapshot(entries, m) == ZERO.(nTest := Snapshot(entries, m).nTest)
  {
    if m > 0 {
      NTestIsFinal(entries, m - 1);
      var entry := entries[if m <= |entries| then m - 1 else m - 1 - |entries|];
      RunningKeepsNTest(Snapshot(entries, m - 1), entry.Checks(m > |entries|));
    }
  }

  lemma CountZero(checks: seq<Check>, c: Check)
    ensures Count(checks, c) == 0 <==> c !in checks
  {
    assert c in checks <==> c in multiset(checks);
  }

  /** The message print_info gives about predictable tests: none at all when there are none. */
  datatype Verdict = Silent | AllPassed | SomeFailed

  function VerdictOf(d: Data): Verdict {
    if d.nTest > 0 then (if d.nPass == d.nTest then AllPassed else SomeFailed) else Silent
  }

  /** Unless a counter has wrapped, "all predictable tests passed" is printed exactly when there are predictable tests
      and as many passed as were counted, and the failure message exactly when there are some and another number
      passed. When no more were run than counted, the first says that all of them were run and none failed, the second
      that fewer were run, as after a crash, or that one failed. */
  lemma AllPassedMeansNoneFailed(counted: seq<Check>, ran: seq<Check>)
    requires Predictable(counted) < 0x1_0000_0000 && Predictable(ran) < 0x1_0000_0000
    ensures var c, passed := Predictable(counted), Count(ran, Assert(true));
            var verdict := VerdictOf(Totals(counted, ran));
            && (verdict == AllPassed <==> c > 0 && passed == c)
            && (verdict == SomeFailed <==> c > 0 && passed != c)
    ensures var c, r := Predictable(counted), Predictable(ran);
            var verdict := VerdictOf(Totals(counted, ran));
            r <= c ==>
              && (verdict == AllPassed <==> c > 0 && r == c && Assert(false) !in ran)
              && (verdict == SomeFailed <==> c > 0 && (r < c || Assert(false) in ran))
  {
    CountZero(ran, Assert(false));
    var passed := Count(ran, Assert(true));
    assert To32(Predictable(counted)) as int == Predictable(counted) && To32(passed) as int == passed;
  }
}
