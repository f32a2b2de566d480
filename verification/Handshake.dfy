/** The condition-variable test: two threads, one mutex, one condition variable, one counter.

    The child adds N, signals, and waits until the counter is 2N before it adds N again; main waits until it is
    N, adds N, signals, and joins the child. One step of the model is one atomic action of one thread: taking
    the lock, one test of a wait loop, one increment, one unlock, one signal. Waiting releases the lock
    atomically; a thread leaves the wait when it is signalled or spuriously, and must then retake the lock.
    A signal that nobody waits for is lost. Spinning on `start` is being blocked until it is set. */
module Handshake {
  import opened CBase

  datatype Thread = Main | Child

  /** Where a thread is; the child passes through First and Signal1 before the part both threads share. */
  datatype Pc =
    | Start          // main: spin until the child has started; child: about to set `start`
    | LockFirst      // child only: about to lock for the first batch
    | First(i: nat)  // child only: i of N first increments done, lock held
    | SignalFirst    // child only: unlocked, about to signal
    | Lock           // about to lock before the wait loop
    | Test           // lock held, about to test the counter
    | Waiting        // in the condition wait, lock released
    | Relock         // out of the wait, about to retake the lock
    | Add(i: nat)    // wait loop left, i of N increments done, lock held
    | Signal         // main only: unlocked, about to signal
    | Join           // main only: about to join the child
    | Done

  datatype Owner = Free | HeldBy(t: Thread)

  datatype State = State(n: nat, main: Pc, child: Pc, owner: Owner, started: bool, counter: nat) {
    function Pc(t: Thread): Pc {
      if t == Main then main else child
    }

    function At(t: Thread, pc: Pc): State {
      if t == Main then this.(main := pc) else this.(child := pc)
    }

    /** The counter value a thread waits for. */
    function Target(t: Thread): nat {
      if t == Main then n else 2 * n
    }
  }

  function Other(t: Thread): Thread {
    if t == Main then Child else Main
  }

  function Init(n: nat): State {
    State(n, Start, Start, Free, false, 0)
  }

  /** Wakes the other thread if it waits (the signaller never does). */
  function Wake(s: State, t: Thread): State {
    if s.Pc(Other(t)) == Waiting then s.At(Other(t), Relock) else s
  }

  /** Thread t's next action; `None` when it is blocked, waiting, or finished. */
  function Act(s: State, t: Thread): Option<State> {
    match s.Pc(t)
    case Start =>
      if t == Child then Some(s.(started := true).At(t, LockFirst))
      else if s.started then Some(s.At(t, Lock)) else None
    case LockFirst =>
      if s.owner == Free then Some(s.(owner := HeldBy(t)).At(t, First(0))) else None
    case First(i) =>
      if i < s.n then Some(s.(counter := s.counter + 1).At(t, First(i + 1)))
      else Some(s.(owner := Free).At(t, SignalFirst))
    case SignalFirst =>
      Some(Wake(s, t).At(t, Lock))
    case Lock =>
      if s.owner == Free then Some(s.(owner := HeldBy(t)).At(t, Test)) else None
    case Test =>
      if s.counter != s.Target(t) then Some(s.(owner := Free).At(t, Waiting)) else Some(s.At(t, Add(0)))
    case Waiting => None
    case Relock =>
      if s.owner == Free then Some(s.(owner := HeldBy(t)).At(t, Test)) else None
    case Add(i) =>
      if i < s.n then Some(s.(counter := s.counter + 1).At(t, Add(i + 1)))
      else Some(s.(owner := Free).At(t, if t == Main then Signal else Done))
    case Signal =>
      Some(Wake(s, t).At(t, Join))
    case Join =>
      if s.child == Done then Some(s.At(t, Done)) else None
    case Done => None
  }

  /** A scheduler's choice: let a thread act, or wake a waiting thread for no reason. */
  datatype Choice = Run(t: Thread) | Spurious(t: Thread)

  function Next(s: State, c: Choice): Option<State> {
    match c
    case Run(t) => Act(s, t)
    case Spurious(t) => if s.Pc(t) == Waiting then Some(s.At(t, Relock)) else None
  }

  /** The state a schedule leads to, or `None` when some choice in it is not possible. */
  function Reach(s: State, schedule: seq<Choice>): Option<State>
    decreases |schedule|
  {
    if schedule == [] then Some(s)
    else
      var r := Next(s, schedule[0]);
      if r.None? then None else Reach(r.value, schedule[1..])
  }

  /** How far each thread has come, and what the counter and the lock must be then. */
  ghost predicate Inv(s: State) {
    && s.n > 0
    && (Inside(s.main) <==> s.owner == HeldBy(Main))
    && (Inside(s.child) <==> s.owner == HeldBy(Child))
    && s.main !in {LockFirst, SignalFirst} && !s.main.First?
    && s.child !in {Signal, Join}
    && (s.started <==> s.child != Start)
    && (!s.started ==> s.main == Start)
    && s.counter == Batch1(s) + BatchMain(s) + BatchChild(s)
    && (s.main == Waiting ==> BeforeFirstSignal(s))
    && (s.child == Waiting ==> !MainSignalled(s))
    && (PastWait(s.main) ==> FirstBatchDone(s))
    && (PastWait(s.child) ==> s.main in {Signal, Join, Done})
    && (s.main == Done ==> s.child == Done)
    && (s.child.First? ==> s.child.i <= s.n)
    && (s.child.Add? ==> s.child.i <= s.n)
    && (s.main.Add? ==> s.main.i <= s.n)
  }

  /** Inside a critical section. */
  predicate Inside(pc: Pc) {
    pc == Test || pc.First? || pc.Add?
  }

  predicate BeforeFirstSignal(s: State) {
    s.child in {Start, LockFirst, SignalFirst} || s.child.First?
  }

  predicate FirstBatchDone(s: State) {
    s.child !in {Start, LockFirst} && !s.child.First?
  }

  predicate PastWait(pc: Pc) {
    pc.Add? || pc in {Signal, Join, Done}
  }

  predicate MainSignalled(s: State) {
    s.main in {Join, Done}
  }

  function Batch1(s: State): nat {
    if s.child.First? then s.child.i else if FirstBatchDone(s) then s.n else 0
  }

  function BatchMain(s: State): nat {
    if s.main.Add? then s.main.i else if s.main in {Signal, Join, Done} then s.n else 0
  }

  function BatchChild(s: State): nat {
    if s.child.Add? then s.child.i else if s.child == Done then s.n else 0
  }

  lemma InvMain(s: State)
    requires Inv(s) && Act(s, Main).Some?
    ensures Inv(Act(s, Main).value)
  {
    match s.main
    case Signal =>
    case Add(_) =>
    case _ =>
  }

  lemma InvChild(s: State)
    requires Inv(s) && Act(s, Child).Some?
    ensures Inv(Act(s, Child).value)
  {
    match s.child
    case SignalFirst => InvChildSignals(s);
    case First(_) => InvChildAdds(s);
    case Add(_) => InvChildAdds(s);
    case _ =>
  }

  lemma InvChildSignals(s: State)
    requires Inv(s) && s.child == SignalFirst
    ensures Inv(Act(s, Child).value)
  {
    if s.main == Waiting {
      assert Act(s, Child).value == s.(main := Relock, child := Lock);
    }
  }

  lemma InvChildAdds(s: State)
    requires Inv(s) && (s.child.First? || s.child.Add?)
    ensures Inv(Act(s, Child).value)
  {
    assert s.owner == HeldBy(Child) && !Inside(s.main);
  }

  lemma InvStep(s: State, c: Choice)
    requires Inv(s) && Next(s, c).Some?
    ensures Inv(Next(s, c).value) && Next(s, c).value.n == s.n
  {
    if c == Run(Main) {
      InvMain(s);
    } else if c == Run(Child) {
      InvChild(s);
    }
  }

  lemma {:induction false} InvReach(s: State, schedule: seq<Choice>)
    requires Inv(s) && Reach(s, schedule).Some?
    ensures Inv(Reach(s, schedule).value) && Reach(s, schedule).value.n == s.n
    decreases |schedule|
  {
    if schedule != [] {
      InvStep(s, schedule[0]);
      InvReach(Next(s, schedule[0]).value, schedule[1..]);
    }
  }

  /** Safety, in every state of every interleaving: at most one thread is inside a critical section, only the
      lock's holder changes the counter, the threads never both wait, each leaves its wait loop only at its own
      value, and when both are done the counter is 3N. */
  lemma {:induction false} Safety(n: nat, schedule: seq<Choice>, c: Choice)
    requires n > 0 && Reach(Init(n), schedule).Some?
    ensures var s := Reach(Init(n), schedule).value;
            && !(Inside(s.main) && Inside(s.child))
            && !(s.main == Waiting && s.child == Waiting)
            && (s.main == Add(0) ==> s.counter == n)
            && (s.main == Add(n) ==> s.counter == 2 * n)
            && (s.child == Add(0) ==> s.counter == 2 * n)
            && (s.child == Add(n) ==> s.counter == 3 * n)
            && (s.main == Done ==> s.child == Done && s.counter == 3 * n)
            && (Next(s, c).Some? && Next(s, c).value.counter != s.counter ==> c.Run? && s.owner == HeldBy(c.t))
  {
    InvReach(Init(n), schedule);
  }

  /** Which steps are possible in a reachable state: a thread is held up exactly by the condition it waits for, by a
      lock the other thread holds, by the start flag, by the join, or by being done; and a waiting thread, and no
      other, may wake spuriously. */
  lemma {:induction false} BlockedIff(n: nat, schedule: seq<Choice>, t: Thread)
    requires n > 0 && Reach(Init(n), schedule).Some?
    ensures var s := Reach(Init(n), schedule).value;
            && (Act(s, t).None? <==>
                  || s.Pc(t) == Waiting || s.Pc(t) == Done
                  || (s.Pc(t) in {LockFirst, Lock, Relock} && s.owner == HeldBy(Other(t)))
                  || (t == Main && s.main == Start && !s.started)
                  || (t == Main && s.main == Join && s.child != Done))
            && (Next(s, Spurious(t)).Some? <==> s.Pc(t) == Waiting)
            && (s.Pc(t) == Waiting ==> Next(s, Spurious(t)) == Some(s.At(t, Relock)))
  {
    InvReach(Init(n), schedule);
  }

  /** No lost wakeup: in every reachable state that is not finished some thread can act, and no spurious
      wakeup is needed for that. */
  lemma {:induction false} NeverStuck(n: nat, schedule: seq<Choice>)
    requires n > 0 && Reach(Init(n), schedule).Some?
    requires Reach(Init(n), schedule).value.main != Done
    ensures exists t: Thread :: Act(Reach(Init(n), schedule).value, t).Some?
  {
    InvReach(Init(n), schedule);
    var s := Reach(Init(n), schedule).value;
    if Act(s, Child).None? {
      assert Act(s, Main).Some?;
    }
  }

  /** Work left for one thread, in steps. A wait cycle (test, wait, relock) is charged to whoever ends the wait:
      a signaller has two steps in reserve, a spurious wakeup adds two. */
  function Left(n: nat, t: Thread, pc: Pc): nat {
    var tail := if t == Main then 4 else 0;
    match pc
    case Start => if t == Main then n + 8 else 2 * n + 9
    case LockFirst => 2 * n + 8
    case First(i) => n + 7 + if i <= n then n - i else 0
    case SignalFirst => n + 6
    case Lock => n + 3 + tail
    case Relock => n + 3 + tail
    case Test => n + 2 + tail
    case Waiting => n + 1 + tail
    case Add(i) => 1 + tail + if i <= n then n - i else 0
    case Signal => 4
    case Join => 1
    case Done => 0
  }

  function Work(s: State): nat {
    Left(s.n, Main, s.main) + Left(s.n, Child, s.child)
  }

  lemma WorkAct(s: State, t: Thread)
    requires Inv(s) && Act(s, t).Some?
    ensures Work(Act(s, t).value) < Work(s)
  {
    match s.Pc(t)
    case Signal =>
    case SignalFirst =>
    case First(_) =>
    case Add(_) =>
    case _ =>
  }

  lemma WorkStep(s: State, c: Choice)
    requires Inv(s) && Next(s, c).Some?
    ensures c.Run? ==> Work(Next(s, c).value) < Work(s)
    ensures c.Spurious? ==> Work(Next(s, c).value) == Work(s) + 2
  {
    if c.Run? {
      WorkAct(s, c.t);
    }
  }

  function SpuriousIn(schedule: seq<Choice>): nat {
    if schedule == [] then 0 else (if schedule[0].Spurious? then 1 else 0) + SpuriousIn(schedule[1..])
  }

  lemma {:induction false} WorkReach(s: State, schedule: seq<Choice>)
    requires Inv(s) && Reach(s, schedule).Some?
    ensures |schedule| + Work(Reach(s, schedule).value) <= Work(s) + 3 * SpuriousIn(schedule)
    decreases |schedule|
  {
    if schedule != [] {
      InvStep(s, schedule[0]);
      WorkStep(s, schedule[0]);
      WorkReach(Next(s, schedule[0]).value, schedule[1..]);
    }
  }

  /** Progress: an interleaving with k spurious wakeups has at most 3N + 17 + 3k steps, whatever the scheduler
      does. With NeverStuck, every run with finitely many spurious wakeups ends, finished, at 3N. */
  lemma Terminates(n: nat, schedule: seq<Choice>)
    requires n > 0 && Reach(Init(n), schedule).Some?
    ensures |schedule| <= 3 * n + 17 + 3 * SpuriousIn(schedule)
  {
    WorkReach(Init(n), schedule);
  }

  /** Every run that cannot go on by itself is over: both threads are done, at 3N, within the step bound. */
  lemma MaximalRunsFinish(n: nat, schedule: seq<Choice>)
    requires n > 0 && Reach(Init(n), schedule).Some?
    requires forall t: Thread :: Act(Reach(Init(n), schedule).value, t).None?
    ensures var s := Reach(Init(n), schedule).value;
            s.main == Done && s.child == Done && s.counter == 3 * n
    ensures |schedule| <= 3 * n + 17 + 3 * SpuriousIn(schedule)
  {
    if Reach(Init(n), schedule).value.main != Done {
      NeverStuck(n, schedule);
    }
    Safety(n, schedule, Run(Main));
    Terminates(n, schedule);
  }

  // ---------------------------------------------------------------- a longest run

  /** A run that has led from s0 to s makes one more step. */
  lemma Go(s0: State, done: seq<Choice>, s: State, c: Choice) returns (more: seq<Choice>)
    requires Reach(s0, done) == Some(s) && Next(s, c).Some?
    ensures more == done + [c] && Reach(s0, more) == Next(s, c)
    ensures SpuriousIn(more) == SpuriousIn(done) + if c.Spurious? then 1 else 0
  {
    more := done + [c];
    ReachSnoc(s0, done, c);
  }

  lemma {:induction false} ReachSnoc(s0: State, done: seq<Choice>, c: Choice)
    requires Reach(s0, done).Some?
    ensures Reach(s0, done + [c]) == Next(Reach(s0, done).value, c)
    ensures SpuriousIn(done + [c]) == SpuriousIn(done) + if c.Spurious? then 1 else 0
    decreases |done|
  {
    if done == [] {
      assert [c][1..] == [];
      assert done + [c] == [c];
    } else {
      assert (done + [c])[1..] == done[1..] + [c];
      ReachSnoc(Next(s0, done[0]).value, done[1..], c);
    }
  }

  /** A whole batch of increments. */
  lemma {:induction false} GoAdd(s0: State, done: seq<Choice>, s: State, t: Thread, k: nat) returns (more: seq<Choice>)
    requires Reach(s0, done) == Some(s) && k <= s.n
    requires s.Pc(t) == Add(0) || (t == Child && s.child == First(0))
    ensures |more| == |done| + k && done <= more && SpuriousIn(more) == SpuriousIn(done)
    ensures Reach(s0, more) == Some(s.(counter := s.counter + k).At(t, if s.Pc(t).Add? then Add(k) else First(k)))
  {
    more := done;
    if k > 0 {
      more := GoAdd(s0, done, s, t, k - 1);
      more := Go(s0, more, Reach(s0, more).value, Run(t));
    }
  }

  /** k spurious wakeups of main, each answered by another wait. */
  lemma {:induction false} GoSpurious(s0: State, done: seq<Choice>, s: State, k: nat) returns (more: seq<Choice>)
    requires Reach(s0, done) == Some(s) && s.main == Waiting && s.owner == Free && s.counter != s.n
    ensures |more| == |done| + 3 * k && done <= more && SpuriousIn(more) == SpuriousIn(done) + k
    ensures Reach(s0, more) == Some(s)
  {
    more := done;
    if k > 0 {
      more := GoSpurious(s0, done, s, k - 1);
      more := Go(s0, more, s, Spurious(Main));
      more := Go(s0, more, Reach(s0, more).value, Run(Main));
      more := Go(s0, more, Reach(s0, more).value, Run(Main));
    }
  }

  /** Main waits first. */
  lemma MainWaits(n: nat) returns (run: seq<Choice>)
    requires n > 0
    ensures |run| == 4 && SpuriousIn(run) == 0
    ensures Reach(Init(n), run) == Some(State(n, Waiting, LockFirst, Free, true, 0))
  {
    run := Go(Init(n), [], Init(n), Run(Child));
    run := Go(Init(n), run, Reach(Init(n), run).value, Run(Main));
    run := Go(Init(n), run, Reach(Init(n), run).value, Run(Main));
    run := Go(Init(n), run, Reach(Init(n), run).value, Run(Main));
  }

  /** The child adds its first batch, wakes main, and waits before main has the lock. */
  lemma ChildWaits(n: nat, done: seq<Choice>) returns (run: seq<Choice>)
    requires n > 0 && Reach(Init(n), done) == Some(State(n, Waiting, LockFirst, Free, true, 0))
    ensures |run| == |done| + n + 5 && done <= run && SpuriousIn(run) == SpuriousIn(done)
    ensures Reach(Init(n), run) == Some(State(n, Relock, Waiting, Free, true, n))
  {
    run := Go(Init(n), done, Reach(Init(n), done).value, Run(Child));
    run := GoAdd(Init(n), run, Reach(Init(n), run).value, Child, n);
    run := Go(Init(n), run, Reach(Init(n), run).value, Run(Child));
    run := Go(Init(n), run, Reach(Init(n), run).value, Run(Child));
    run := Go(Init(n), run, Reach(Init(n), run).value, Run(Child));
    run := Go(Init(n), run, Reach(Init(n), run).value, Run(Child));
  }

  /** Main adds its batch and wakes the child. */
  lemma MainSignals(n: nat, done: seq<Choice>) returns (run: seq<Choice>)
    requires n > 0 && Reach(Init(n), done) == Some(State(n, Relock, Waiting, Free, true, n))
    ensures |run| == |done| + n + 4 && done <= run && SpuriousIn(run) == SpuriousIn(done)
    ensures Reach(Init(n), run) == Some(State(n, Join, Relock, Free, true, 2 * n))
  {
    run := Go(Init(n), done, Reach(Init(n), done).value, Run(Main));
    run := Go(Init(n), run, Reach(Init(n), run).value, Run(Main));
    run := GoAdd(Init(n), run, Reach(Init(n), run).value, Main, n);
    run := Go(Init(n), run, Reach(Init(n), run).value, Run(Main));
    run := Go(Init(n), run, Reach(Init(n), run).value, Run(Main));
  }

  /** The child adds its second batch, and main joins it. */
  lemma BothFinish(n: nat, done: seq<Choice>) returns (run: seq<Choice>)
    requires n > 0 && Reach(Init(n), done) == Some(State(n, Join, Relock, Free, true, 2 * n))
    ensures |run| == |done| + n + 4 && done <= run && SpuriousIn(run) == SpuriousIn(done)
    ensures Reach(Init(n), run) == Some(State(n, Done, Done, Free, true, 3 * n))
  {
    run := Go(Init(n), done, Reach(Init(n), done).value, Run(Child));
    run := Go(Init(n), run, Reach(Init(n), run).value, Run(Child));
    run := GoAdd(Init(n), run, Reach(Init(n), run).value, Child, n);
    run := Go(Init(n), run, Reach(Init(n), run).value, Run(Child));
    run := Go(Init(n), run, Reach(Init(n), run).value, Run(Main));
  }

  /** The step bound is reached: for every N and k there is a finished run with k spurious wakeups and exactly
      3N + 17 + 3k steps. In it each thread waits once and is woken by the other's signal. */
  lemma BoundIsReached(n: nat, k: nat) returns (schedule: seq<Choice>, mainWaits: nat, childWaits: nat)
    requires n > 0
    ensures |schedule| == 3 * n + 17 + 3 * k && SpuriousIn(schedule) == k
    ensures Reach(Init(n), schedule) == Some(State(n, Done, Done, Free, true, 3 * n))
    ensures mainWaits < childWaits < |schedule|
    ensures Reach(Init(n), schedule[..mainWaits]) == Some(State(n, Waiting, LockFirst, Free, true, 0))
    ensures Reach(Init(n), schedule[..childWaits]) == Some(State(n, Relock, Waiting, Free, true, n))
  {
    var a := MainWaits(n);
    var b := GoSpurious(Init(n), a, Reach(Init(n), a).value, k);
    var c := ChildWaits(n, b);
    var d := MainSignals(n, c);
    schedule := BothFinish(n, d);
    mainWaits, childWaits := |a|, |c|;
    assert schedule[..|a|] == a && schedule[..|c|] == c;
  }
}
