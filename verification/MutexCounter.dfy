/** The mutex test: two threads each make `rounds` critical sections of `inner` increments on one counter.
    An increment is two steps, a load into the thread's register and a store, so that without the lock
    increments could be lost. */
module MutexCounter {
  import opened CBase

  datatype Pc =
    | Lock(round: nat)                   // about to lock for this round, or finished
    | Load(round: nat, j: nat)           // lock held, j of the round's increments done
    | Store(round: nat, j: nat, reg: nat)

  datatype Owner = Free | HeldBy(t: bool)

  /** Threads are named false and true. */
  datatype State = State(rounds: nat, inner: nat, pc0: Pc, pc1: Pc, owner: Owner, num: nat) {
    function Pc(t: bool): Pc {
      if t then pc1 else pc0
    }

    function At(t: bool, pc: Pc): State {
      if t then this.(pc1 := pc) else this.(pc0 := pc)
    }

    function Done(t: bool): bool {
      Pc(t) == Lock(rounds)
    }
  }

  function Init(rounds: nat, inner: nat): State {
    State(rounds, inner, Lock(0), Lock(0), Free, 0)
  }

  function Act(s: State, t: bool): Option<State> {
    match s.Pc(t)
    case Lock(r) =>
      if r < s.rounds && s.owner == Free then Some(s.(owner := HeldBy(t)).At(t, Load(r, 0))) else None
    case Load(r, j) =>
      if j < s.inner then Some(s.At(t, Store(r, j, s.num))) else Some(s.(owner := Free).At(t, Lock(r + 1)))
    case Store(r, j, reg) =>
      Some(s.(num := reg + 1).At(t, Load(r, j + 1)))
  }

  function Reach(s: State, schedule: seq<bool>): Option<State>
    decreases |schedule|
  {
    if schedule == [] then Some(s)
    else
      var r := Act(s, schedule[0]);
      if r.None? then None else Reach(r.value, schedule[1..])
  }

  /** Increments a thread has completed. */
  function Completed(s: State, t: bool): nat {
    match s.Pc(t)
    case Lock(r) => r * s.inner
    case Load(r, j) => r * s.inner + j
    case Store(r, j, _) => r * s.inner + j
  }

  ghost predicate InvOf(s: State, t: bool) {
    && s.Pc(t).round <= s.rounds
    && (s.Pc(t).Lock? <==> s.owner != HeldBy(t))
    && (!s.Pc(t).Lock? ==> s.Pc(t).round < s.rounds && s.Pc(t).j <= s.inner)
    && (s.Pc(t).Store? ==> s.Pc(t).j < s.inner && s.Pc(t).reg == s.num)
  }

  ghost predicate Inv(s: State) {
    InvOf(s, false) && InvOf(s, true) && s.num == Completed(s, false) + Completed(s, true)
  }

  lemma InvStep(s: State, t: bool)
    requires Inv(s) && Act(s, t).Some?
    ensures Inv(Act(s, t).value)
  {
    match s.Pc(t)
    case Lock(_) =>
    case Load(r, j) =>
      if j == s.inner {
        assert (r + 1) * s.inner == r * s.inner + s.inner;
      }
    case Store(_, _, _) =>
  }

  lemma {:induction false} InvReach(s: State, schedule: seq<bool>)
    requires Inv(s) && Reach(s, schedule).Some?
    ensures var s' := Reach(s, schedule).value; Inv(s') && s'.rounds == s.rounds && s'.inner == s.inner
    decreases |schedule|
  {
    if schedule != [] {
      InvStep(s, schedule[0]);
      InvReach(Act(s, schedule[0]).value, schedule[1..]);
    }
  }

  /** In every interleaving no increment is lost, the threads are never both inside, an unfinished state is
      never stuck, and when both are done the counter is exactly twice rounds * inner. */
  lemma {:induction false} NoLostIncrement(rounds: nat, inner: nat, schedule: seq<bool>)
    requires Reach(Init(rounds, inner), schedule).Some?
    ensures var s := Reach(Init(rounds, inner), schedule).value;
            && s.num == Completed(s, false) + Completed(s, true)
            && (s.pc0.Lock? || s.pc1.Lock?)
            && (s.Done(false) && s.Done(true) ==> s.num == 2 * (rounds * inner))
            && (!s.Done(false) || !s.Done(true) ==> Act(s, false).Some? || Act(s, true).Some?)
  {
    InvReach(Init(rounds, inner), schedule);
  }

  /** Which steps are possible in a reachable state: a thread is held up exactly by being done or by the lock in the
      other's hands. */
  lemma {:induction false} BlockedIff(rounds: nat, inner: nat, schedule: seq<bool>, t: bool)
    requires Reach(Init(rounds, inner), schedule).Some?
    ensures var s := Reach(Init(rounds, inner), schedule).value;
            Act(s, t).None? <==> s.Done(t) || s.owner == HeldBy(!t)
  {
    InvReach(Init(rounds, inner), schedule);
  }

  /** Steps a thread has left: a lock, an unlock and two per increment in every round. */
  function Left(s: State, t: bool): int {
    var perRound := 2 * s.inner + 2;
    match s.Pc(t)
    case Lock(r) => (s.rounds - r) * perRound
    case Load(r, j) => (s.rounds - r - 1) * perRound + 2 * (s.inner - j) + 1
    case Store(r, j, _) => (s.rounds - r - 1) * perRound + 2 * (s.inner - j)
  }

  lemma LeftAct(s: State, t: bool)
    requires Inv(s) && Act(s, t).Some?
    ensures var s' := Act(s, t).value;
            Left(s', t) == Left(s, t) - 1 && Left(s', !t) == Left(s, !t)
  {
    match s.Pc(t)
    case Lock(r) =>
      assert (s.rounds - r) * (2 * s.inner + 2) == (s.rounds - r - 1) * (2 * s.inner + 2) + (2 * s.inner + 2);
    case Load(_, _) =>
    case Store(_, _, _) =>
  }

  /** Every step does one unit of the work there is, whatever the schedule. */
  lemma {:induction false} LeftReach(s: State, schedule: seq<bool>)
    requires Inv(s) && Reach(s, schedule).Some?
    ensures var s' := Reach(s, schedule).value;
            |schedule| + Left(s', false) + Left(s', true) == Left(s, false) + Left(s, true)
    decreases |schedule|
  {
    if schedule != [] {
      InvStep(s, schedule[0]);
      LeftAct(s, schedule[0]);
      LeftReach(Act(s, schedule[0]).value, schedule[1..]);
    }
  }

  lemma LeftNonNegative(s: State, t: bool)
    requires InvOf(s, t)
    ensures Left(s, t) >= 0 && (s.Done(t) ==> Left(s, t) == 0)
  {
    var r := s.Pc(t).round;
    if s.Pc(t).Lock? {
      ProductNonNegative(s.rounds - r, 2 * s.inner + 2);
    } else {
      ProductNonNegative(s.rounds - r - 1, 2 * s.inner + 2);
    }
  }

  lemma ProductNonNegative(a: nat, b: nat)
    ensures a * b >= 0 && (a == 0 ==> a * b == 0)
  {
  }

  /** No interleaving is longer than the work of both threads, and one that cannot go on has done all of it: both
      threads are done and the counter is exactly twice rounds * inner. */
  lemma RunsFinish(rounds: nat, inner: nat, schedule: seq<bool>)
    requires Reach(Init(rounds, inner), schedule).Some?
    ensures |schedule| <= 2 * (rounds * (2 * inner + 2))
    ensures var s := Reach(Init(rounds, inner), schedule).value;
            (forall t :: Act(s, t).None?) ==>
              && s.Done(false) && s.Done(true) && s.num == 2 * (rounds * inner)
              && |schedule| == 2 * (rounds * (2 * inner + 2))
  {
    var s := Reach(Init(rounds, inner), schedule).value;
    InvReach(Init(rounds, inner), schedule);
    LeftReach(Init(rounds, inner), schedule);
    NoLostIncrement(rounds, inner, schedule);
    LeftNonNegative(s, false);
    LeftNonNegative(s, true);
    assert (forall t :: Act(s, t).None?) ==> Act(s, false).None? && Act(s, true).None?;
  }
}
