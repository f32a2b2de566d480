/** What a bounded queue is for: a sequence with at most `cap` payloads, and runs of operations on it. */
module BoundedFifo {

  /** One client call. `mallocOk` says whether the allocator would serve this call; `DetachAt(k)` hands in
      the node that currently sits at position k, or a node of no queue when there is no such position. */
  datatype Op<P> = Enqueue(payload: P, mallocOk: bool) | Dequeue | DetachAt(k: nat) | Count

  /** What a call answers; after `Fatal` the process is gone. */
  datatype Answer<P> = Pushed | Full | NoMemory | Popped(payload: P) | Empty
    | Detached(payload: P) | Fatal | CountIs(n: nat)

  function Step<P>(s: seq<P>, cap: nat, op: Op<P>): (seq<P>, Answer<P>) {
    match op
    case Enqueue(p, mallocOk) =>
      if |s| >= cap then (s, Full) else if !mallocOk then (s, NoMemory) else (s + [p], Pushed)
    case Dequeue => if s == [] then (s, Empty) else (s[1..], Popped(s[0]))
    case DetachAt(k) => if k < |s| then (s[..k] + s[k + 1..], Detached(s[k])) else (s, Fatal)
    case Count => (s, CountIs(|s|))
  }

  /** A run answers call after call, and ends early with an abort. */
  function Run<P>(s: seq<P>, cap: nat, ops: seq<Op<P>>): (r: (seq<P>, seq<Answer<P>>))
    ensures |r.1| <= |ops|
    decreases |ops|
  {
    if ops == [] then (s, [])
    else
      var (s1, a) := Step(s, cap, ops[0]);
      var (s2, rest) := if a.Fatal? then (s1, []) else Run(s1, cap, ops[1..]);
      (s2, [a] + rest)
  }

  /** A run ends early exactly when a call aborts, which only the detach of a node of no queue does. */
  lemma {:induction false} RunEndsEarlyIffFatal<P>(s: seq<P>, cap: nat, ops: seq<Op<P>>)
    ensures var answers := Run(s, cap, ops).1;
            && (|answers| < |ops| ==> answers != [] && answers[|answers| - 1].Fatal?)
            && (forall i :: 0 <= i < |answers| - 1 ==> !answers[i].Fatal?)
            && (forall i :: 0 <= i < |answers| && answers[i].Fatal? ==> ops[i].DetachAt?)
    decreases |ops|
  {
    if ops != [] {
      var (s1, a) := Step(s, cap, ops[0]);
      if !a.Fatal? {
        RunEndsEarlyIffFatal(s1, cap, ops[1..]);
        var rest := Run(s1, cap, ops[1..]).1;
        assert Run(s, cap, ops).1 == [a] + rest;
        assert forall i :: 0 < i < |rest| + 1 ==> ([a] + rest)[i] == rest[i - 1] && ops[i] == ops[1..][i - 1];
      }
    }
  }

  /** What one answered call stored, and what it handed back. */
  function PushedBy<P>(op: Op<P>, a: Answer<P>): seq<P> {
    if op.Enqueue? && a.Pushed? then [op.payload] else []
  }

  function TakenBy<P>(a: Answer<P>): seq<P> {
    if a.Popped? || a.Detached? then [a.payload] else []
  }

  /** The payloads stored over a run, in order. */
  function PushedIn<P>(ops: seq<Op<P>>, answers: seq<Answer<P>>): seq<P>
    requires |answers| <= |ops|
  {
    if answers == [] then [] else PushedBy(ops[0], answers[0]) + PushedIn(ops[1..], answers[1..])
  }

  /** The payloads handed back over a run, in order. */
  function TakenIn<P>(answers: seq<Answer<P>>): seq<P> {
    if answers == [] then [] else TakenBy(answers[0]) + TakenIn(answers[1..])
  }

  /** The rest of a run, nothing once the process is gone. */
  function RunUnless<P>(gone: bool, s: seq<P>, cap: nat, ops: seq<Op<P>>): (r: (seq<P>, seq<Answer<P>>))
    ensures |r.1| <= |ops|
  {
    if gone then (s, []) else Run(s, cap, ops)
  }

  lemma RunCons<P>(s: seq<P>, cap: nat, ops: seq<Op<P>>)
    requires ops != []
    ensures var (s1, a) := Step(s, cap, ops[0]);
            var (s2, rest) := RunUnless(a.Fatal?, s1, cap, ops[1..]);
            var (s', answers) := Run(s, cap, ops);
            && s' == s2 && answers == [a] + rest
            && PushedIn(ops, answers) == PushedBy(ops[0], a) + PushedIn(ops[1..], rest)
            && TakenIn(answers) == TakenBy(a) + TakenIn(rest)
  {
    var (s1, a) := Step(s, cap, ops[0]);
    var (_, rest) := RunUnless(a.Fatal?, s1, cap, ops[1..]);
    assert Run(s, cap, ops).1 == [a] + rest;
    assert ([a] + rest)[1..] == rest;
  }

  /** A run that has given these answers so far and goes on from `s`. */
  ghost predicate Continues<P>(run: (seq<P>, seq<Answer<P>>), answers: seq<Answer<P>>, gone: bool,
                               s: seq<P>, cap: nat, ops: seq<Op<P>>)
  {
    run == (RunUnless(gone, s, cap, ops).0, answers + RunUnless(gone, s, cap, ops).1)
  }

  lemma ContinuesFirst<P>(s: seq<P>, cap: nat, ops: seq<Op<P>>)
    ensures Continues(Run(s, cap, ops), [], false, s, cap, ops[0..])
  {
    assert ops[0..] == ops;
    assert [] + Run(s, cap, ops).1 == Run(s, cap, ops).1;
  }

  lemma ContinuesLast<P>(run: (seq<P>, seq<Answer<P>>), answers: seq<Answer<P>>, gone: bool,
                         s: seq<P>, cap: nat, ops: seq<Op<P>>)
    requires Continues(run, answers, gone, s, cap, ops) && (gone || ops == [])
    ensures run == (s, answers)
  {
    assert answers + [] == answers;
  }

  lemma ContinuesNext<P>(run: (seq<P>, seq<Answer<P>>), answers: seq<Answer<P>>, s: seq<P>, cap: nat,
                         ops: seq<Op<P>>, i: nat)
    requires i < |ops| && Continues(run, answers, false, s, cap, ops[i..])
    ensures var (s1, a) := Step(s, cap, ops[i]);
            Continues(run, answers + [a], a.Fatal?, s1, cap, ops[i + 1..])
  {
    var (s1, a) := Step(s, cap, ops[i]);
    var (s2, rest) := RunUnless(a.Fatal?, s1, cap, ops[i + 1..]);
    assert ops[i..][1..] == ops[i + 1..];
    RunCons(s, cap, ops[i..]);
    assert answers + ([a] + rest) == answers + [a] + rest;
  }

  lemma Splice<P>(s: seq<P>, in1: seq<P>, in2: seq<P>, out1: seq<P>, s1: seq<P>, out2: seq<P>, s2: seq<P>)
    requires s + in1 == out1 + s1 && s1 + in2 == out2 + s2
    ensures s + (in1 + in2) == (out1 + out2) + s2
  {
    calc {
      s + (in1 + in2);
      (s + in1) + in2;
      (out1 + s1) + in2;
      out1 + (s1 + in2);
      out1 + (out2 + s2);
      (out1 + out2) + s2;
    }
  }

  /** First in, first out: without detaches, what was stored before plus what was pushed is, in this very
      order, what was popped plus what is still stored. */
  lemma {:induction false} FirstInFirstOut<P>(s: seq<P>, cap: nat, ops: seq<Op<P>>)
    requires forall op <- ops :: !op.DetachAt?
    ensures var (s', answers) := Run(s, cap, ops);
            s + PushedIn(ops, answers) == TakenIn(answers) + s'
    decreases |ops|
  {
    if ops != [] {
      var (s1, a) := Step(s, cap, ops[0]);
      var (s', rest) := RunUnless(a.Fatal?, s1, cap, ops[1..]);
      FirstInFirstOut(s1, cap, ops[1..]);
      RunCons(s, cap, ops);
      assert s + PushedBy(ops[0], a) == TakenBy(a) + s1;
      Splice(s, PushedBy(ops[0], a), PushedIn(ops[1..], rest), TakenBy(a), s1, TakenIn(rest), s');
    }
  }

  lemma CountsAdd<P>(s: multiset<P>, pushed: multiset<P>, taken: multiset<P>, s1: multiset<P>, x: P)
    requires s + pushed == taken + s1
    ensures s[x] + pushed[x] == taken[x] + s1[x]
  {
    assert (s + pushed)[x] == (taken + s1)[x];
  }

  lemma ConcatCounts<P>(a: seq<P>, b: seq<P>)
    ensures multiset(a + b) == multiset(a) + multiset(b)
  {
  }

  lemma TakeOutCounts<P>(s: seq<P>, k: nat)
    requires k < |s|
    ensures multiset(s) == multiset([s[k]]) + multiset(s[..k] + s[k + 1..])
  {
    assert s == s[..k] + ([s[k]] + s[k + 1..]);
  }

  lemma PutBehindCounts<P>(s: seq<P>, p: P)
    ensures multiset(s) + multiset([p]) == multiset(s + [p])
  {
  }

  lemma TakeFrontCounts<P>(s: seq<P>)
    requires s != []
    ensures multiset(s) == multiset([s[0]]) + multiset(s[1..])
  {
    assert s == [s[0]] + s[1..];
  }

  lemma NoneCounts<P>(s: seq<P>)
    ensures multiset(s) + multiset([]) == multiset(s) == multiset([]) + multiset(s)
  {
  }

  lemma StepConserves<P>(s: seq<P>, cap: nat, op: Op<P>)
    ensures var (s', a) := Step(s, cap, op);
            multiset(s) + multiset(PushedBy(op, a)) == multiset(TakenBy(a)) + multiset(s')
  {
    var (s', a) := Step(s, cap, op);
    NoneCounts(s);
    NoneCounts(s');
    if a.Pushed? {
      PutBehindCounts(s, op.payload);
    } else if a.Popped? {
      TakeFrontCounts(s);
    } else if a.Detached? {
      TakeOutCounts(s, op.k);
    } else {
      assert s' == s;
    }
  }

  lemma {:induction false} NothingLostOf<P>(s: seq<P>, cap: nat, ops: seq<Op<P>>, x: P)
    ensures var (s', answers) := Run(s, cap, ops);
            multiset(s)[x] + multiset(PushedIn(ops, answers))[x] == multiset(TakenIn(answers))[x] + multiset(s')[x]
    decreases |ops|
  {
    if ops != [] {
      var (s1, a) := Step(s, cap, ops[0]);
      var (s', rest) := RunUnless(a.Fatal?, s1, cap, ops[1..]);
      StepConserves(s, cap, ops[0]);
      if !a.Fatal? {
        NothingLostOf(s1, cap, ops[1..], x);
      }
      RunCons(s, cap, ops);
      ConcatCounts(PushedBy(ops[0], a), PushedIn(ops[1..], rest));
      ConcatCounts(TakenBy(a), TakenIn(rest));
      CountsAdd(multiset(s), multiset(PushedBy(ops[0], a)), multiset(TakenBy(a)), multiset(s1), x);
    }
  }

  lemma {:induction false} StaysBounded<P>(s: seq<P>, cap: nat, ops: seq<Op<P>>)
    requires |s| <= cap
    ensures |Run(s, cap, ops).0| <= cap
    decreases |ops|
  {
    if ops != [] {
      var (s1, a) := Step(s, cap, ops[0]);
      if !a.Fatal? {
        StaysBounded(s1, cap, ops[1..]);
      }
    }
  }

  /** Every answer of every run depends on the balance of the run so far, what was stored before it and by it less
      what was handed back, and on nothing else. */
  lemma {:induction false} AnswersFollowBalance<P>(s: seq<P>, cap: nat, ops: seq<Op<P>>, i: nat)
    requires i < |Run(s, cap, ops).1|
    ensures var answers := Run(s, cap, ops).1; var (op, a) := (ops[i], answers[i]);
            var now := |s| + |PushedIn(ops[..i], answers[..i])| - |TakenIn(answers[..i])|;
            && (a.Full? <==> op.Enqueue? && now >= cap)
            && (a.NoMemory? <==> op.Enqueue? && now < cap && !op.mallocOk)
            && (a.Pushed? <==> op.Enqueue? && now < cap && op.mallocOk)
            && (a.Empty? <==> op.Dequeue? && now == 0)
            && (a.Popped? <==> op.Dequeue? && now > 0)
            && (a.Detached? <==> op.DetachAt? && op.k < now)
            && (a.Fatal? <==> op.DetachAt? && op.k >= now)
            && (op.Count? ==> 0 <= now && a == CountIs(now))
    decreases i
  {
    var (s1, a) := Step(s, cap, ops[0]);
    var (_, rest) := RunUnless(a.Fatal?, s1, cap, ops[1..]);
    RunCons(s, cap, ops);
    if i > 0 {
      AnswersFollowBalance(s1, cap, ops[1..], i - 1);
      StepBalance(s, cap, ops[0]);
      BalanceCons(ops, a, rest, i);
    }
  }

  lemma StepBalance<P>(s: seq<P>, cap: nat, op: Op<P>)
    ensures var (s1, a) := Step(s, cap, op); |s1| == |s| + |PushedBy(op, a)| - |TakenBy(a)|
  {
  }

  lemma BalanceCons<P>(ops: seq<Op<P>>, a: Answer<P>, rest: seq<Answer<P>>, i: nat)
    requires 0 < i <= |rest| + 1 && |rest| < |ops|
    ensures |PushedIn(ops[..i], ([a] + rest)[..i])|
              == |PushedBy(ops[0], a)| + |PushedIn(ops[1..][..i - 1], rest[..i - 1])|
    ensures |TakenIn(([a] + rest)[..i])| == |TakenBy(a)| + |TakenIn(rest[..i - 1])|
  {
    assert ([a] + rest)[..i][1..] == rest[..i - 1] && ops[..i][1..] == ops[1..][..i - 1];
  }

  /** Conservation with detaches: no payload is lost or duplicated, and the bound is never exceeded. */
  lemma NothingLost<P(!new)>(s: seq<P>, cap: nat, ops: seq<Op<P>>)
    requires |s| <= cap
    ensures var (s', answers) := Run(s, cap, ops);
            && |s'| <= cap
            && multiset(s) + multiset(PushedIn(ops, answers)) == multiset(TakenIn(answers)) + multiset(s')
  {
    var (s', answers) := Run(s, cap, ops);
    var before, after := multiset(s) + multiset(PushedIn(ops, answers)), multiset(TakenIn(answers)) + multiset(s');
    StaysBounded(s, cap, ops);
    forall x: P
      ensures before[x] == after[x]
    {
      NothingLostOf(s, cap, ops, x);
    }
  }
}
