// CRYPTO_refcount_inc and CRYPTO_refcount_dec_and_test_zero as compare-and-swap loops that
// threads run interleaved, against the counter under a lock.

module Refcount {

  const CRYPTO_REFCOUNT_MAX := 0xffff_ffff

  datatype Op = Inc | Dec

  // What the operation does under the lock: the new count, and whether Dec reports zero.
  // Dec of zero aborts.
  datatype Effect = Effect(count: nat, zero: bool) | Abort

  function Locked(op: Op, count: nat): Effect {
    match op
    case Inc => Effect(if count < CRYPTO_REFCOUNT_MAX then count + 1 else count, false)
    case Dec =>
      if count == 0 then Abort
      else
        var c := if count < CRYPTO_REFCOUNT_MAX then count - 1 else count;
        Effect(c, c == 0)
  }

  // refcount_lock.c: between the lock and the unlock nothing else happens.
  class LockedCounter {
    var count: nat

    // Dec's abort is a precondition.
    method Run(op: Op) returns (zero: bool)
      requires count <= CRYPTO_REFCOUNT_MAX && Locked(op, count) != Abort
      modifies this
      ensures Effect(count, zero) == Locked(op, old(count)) && count <= CRYPTO_REFCOUNT_MAX
    {
      if count < CRYPTO_REFCOUNT_MAX {
        count := if op == Inc then count + 1 else count - 1;
      }
      zero := op == Dec && count == 0;
    }
  }

  // Where a thread is in a call, and how many references it owns besides the one a pending Dec
  // is to release.
  datatype Phase = Idle | Called(op: Op) | Loaded(op: Op, expected: nat) | Done(op: Op, zero: bool) | Aborted

  // calls lists the calls a thread made, told what those that returned reported to it.
  datatype Thread = Thread(phase: Phase, owned: nat, calls: seq<Op>, told: seq<Entry>)

  // log lists the calls in the order in which they take effect.
  datatype Entry = Entry(thread: nat, op: Op, zero: bool)

  datatype State = State(count: nat, threads: seq<Thread>, log: seq<Entry>)

  // Call and Return bound a call; Load is the first atomic load; Cas is one weak compare and
  // exchange, which may fail although the values agree; Pass hands a reference to another thread.
  datatype Step =
    | Call(t: nat, op: Op)
    | Load(t: nat)
    | Cas(t: nat, spurious: bool)
    | Return(t: nat)
    | Pass(t: nat, u: nat)

  // The caller owns a reference: Inc keeps it throughout, Dec gives it up.
  predicate Enabled(s: State, step: Step) {
    && step.t < |s.threads|
    && var th := s.threads[step.t];
       match step
       case Call(_, op) => th.phase.Idle? && th.owned > 0
       case Load(_) => th.phase.Called?
       case Cas(_, _) => th.phase.Loaded?
       case Return(_) => th.phase.Done?
       case Pass(_, u) => th.phase.Idle? && th.owned > 0 && u < |s.threads| && u != step.t
  }

  function SetPhase(s: State, t: nat, phase: Phase): State
    requires t < |s.threads|
  {
    s.(threads := s.threads[t := s.threads[t].(phase := phase)])
  }

  // The call takes effect with this result.
  function Finish(s: State, t: nat, op: Op, count: nat, zero: bool): State
    requires t < |s.threads|
  {
    SetPhase(s, t, Done(op, zero)).(count := count, log := s.log + [Entry(t, op, zero)])
  }

  // The tests both loops make on a value they have just read.
  function Inspect(s: State, t: nat, op: Op, expected: nat): State
    requires t < |s.threads|
  {
    if op == Dec && expected == 0 then SetPhase(s, t, Aborted)
    else if expected == CRYPTO_REFCOUNT_MAX then Finish(s, t, op, s.count, false)
    else SetPhase(s, t, Loaded(op, expected))
  }

  function Apply(s: State, step: Step): State
    requires Enabled(s, step)
  {
    var t, th := step.t, s.threads[step.t];
    match step
    case Call(_, op) =>
      var owned := if op == Dec then th.owned - 1 else th.owned;
      s.(threads := s.threads[t := Thread(Called(op), owned, th.calls + [op], th.told)])
    case Load(_) => Inspect(s, t, th.phase.op, s.count)
    case Cas(_, spurious) =>
      var op, expected := th.phase.op, th.phase.expected;
      if s.count == expected && !spurious then
        var value := if op == Inc then (expected + 1) % 0x1_0000_0000 else (expected - 1) % 0x1_0000_0000;
        Finish(s, t, op, value, op == Dec && value == 0)
      else Inspect(s, t, op, s.count)
    case Return(_) =>
      var told := th.told + [Entry(t, th.phase.op, th.phase.zero)];
      s.(threads := s.threads[t := Thread(Idle, if th.phase.op == Inc then th.owned + 1 else th.owned, th.calls, told)])
    case Pass(_, u) =>
      s.(threads := s.threads[t := th.(owned := th.owned - 1)][u := s.threads[u].(owned := s.threads[u].owned + 1)])
  }

  // The count after the logged calls in this order under the lock, if none aborts and all
  // report what the log says.
  ghost predicate Replays(first: nat, log: seq<Entry>, count: nat) {
    if log == [] then count == first
    else
      var last := log[|log| - 1];
      exists c: nat :: Replays(first, log[..|log| - 1], c) && Locked(last.op, c) == Effect(count, last.zero)
  }

  // References owned, or still to be counted for or released by a call under way.
  function Held(th: Thread): nat {
    th.owned + match th.phase
               case Called(op) => if op == Dec then 1 else 0
               case Loaded(op, _) => if op == Dec then 1 else 0
               case Done(op, _) => if op == Inc then 1 else 0
               case Aborted => 1
               case Idle => 0
  }

  function Total(threads: seq<Thread>): nat {
    if threads == [] then 0 else Held(threads[0]) + Total(threads[1..])
  }

  lemma {:induction false} TotalAfter(threads: seq<Thread>, t: nat, th: Thread)
    requires t < |threads|
    ensures Total(threads[t := th]) == Total(threads) - Held(threads[t]) + Held(th)
    ensures Total(threads) >= Held(threads[t])
  {
    if t > 0 {
      assert threads[t := th][1..] == threads[1..][t - 1 := th];
      TotalAfter(threads[1..], t - 1, th);
    } else {
      assert threads[t := th][1..] == threads[1..];
    }
  }

  // What every run keeps. A saturated count stands for any number of references.
  ghost predicate Inv(first: nat, s: State) {
    && s.count <= CRYPTO_REFCOUNT_MAX
    && Replays(first, s.log, s.count)
    && (s.count < CRYPTO_REFCOUNT_MAX ==> s.count == Total(s.threads))
    && (forall t :: 0 <= t < |s.threads| ==> ThreadOk(s, t))
  }

  ghost predicate ThreadOk(s: State, t: nat)
    requires t < |s.threads|
  {
    var th := s.threads[t];
    match th.phase
    case Idle => true
    case Called(op) => op == Inc ==> th.owned > 0
    case Loaded(op, expected) =>
      (op == Inc ==> th.owned > 0) && expected < CRYPTO_REFCOUNT_MAX && (op == Dec ==> expected > 0)
    case Done(op, zero) => (op == Inc ==> th.owned > 0) && Entry(t, op, zero) in s.log
    case Aborted => false
  }

  // The step leaves the count and the log alone, or is one call taking effect at once.
  ghost predicate Atomic(s: State, s': State) {
    || (s'.count == s.count && s'.log == s.log)
    || (exists e :: s'.log == s.log + [e] && Locked(e.op, s.count) == Effect(s'.count, e.zero))
  }

  lemma {:induction false} LoggedOnce(first: nat, s: State, s': State)
    requires Replays(first, s.log, s.count) && Atomic(s, s')
    ensures Replays(first, s'.log, s'.count)
  {
    if s'.log != s.log {
      var e :| s'.log == s.log + [e] && Locked(e.op, s.count) == Effect(s'.count, e.zero);
      assert s'.log[..|s'.log| - 1] == s.log && s'.log[|s'.log| - 1] == e;
    }
  }

  // Every step of every run is atomic in this sense and keeps the invariant, so a run is
  // equivalent to the logged order of calls under the lock; a saturated count stays; and no
  // call aborts.
  lemma {:induction false} StepIsAtomic(first: nat, s: State, step: Step)
    requires Inv(first, s) && Enabled(s, step)
    ensures Atomic(s, Apply(s, step))
    ensures Inv(first, Apply(s, step))
    ensures s.count == CRYPTO_REFCOUNT_MAX ==> Apply(s, step).count == CRYPTO_REFCOUNT_MAX
  {
    HeldBelowCount(first, s, step.t);
    StepEffect(first, s, step);
    LoggedOnce(first, s, Apply(s, step));
    TotalKept(first, s, step);
    ThreadsKept(first, s, step);
  }

  lemma {:induction false} ThreadsKept(first: nat, s: State, step: Step)
    requires Inv(first, s) && Enabled(s, step)
    requires Held(s.threads[step.t]) <= s.count || s.count == CRYPTO_REFCOUNT_MAX
    ensures forall u :: 0 <= u < |Apply(s, step).threads| ==> ThreadOk(Apply(s, step), u)
  {
    var s' := Apply(s, step);
    assert ThreadOk(s, step.t);
    forall u | 0 <= u < |s'.threads|
      ensures ThreadOk(s', u)
    {
      assert ThreadOk(s, u);
    }
  }

  lemma {:induction false} HeldBelowCount(first: nat, s: State, t: nat)
    requires Inv(first, s) && t < |s.threads|
    ensures Held(s.threads[t]) <= s.count || s.count == CRYPTO_REFCOUNT_MAX
  {
    TotalAfter(s.threads, t, s.threads[t]);
  }

  lemma {:induction false} StepEffect(first: nat, s: State, step: Step)
    requires Inv(first, s) && Enabled(s, step)
    requires Held(s.threads[step.t]) <= s.count || s.count == CRYPTO_REFCOUNT_MAX
    ensures Atomic(s, Apply(s, step)) && Apply(s, step).count <= CRYPTO_REFCOUNT_MAX
  {
    var t, s' := step.t, Apply(s, step);
    assert ThreadOk(s, t);
    if s'.log != s.log {
      var e := s'.log[|s.log|];
      assert s'.log == s.log + [e] && Locked(e.op, s.count) == Effect(s'.count, e.zero);
    }
  }

  lemma {:induction false} TotalKept(first: nat, s: State, step: Step)
    requires Inv(first, s) && Enabled(s, step)
    ensures var s' := Apply(s, step);
            s'.count < CRYPTO_REFCOUNT_MAX ==> s'.count == Total(s'.threads)
  {
    if step.Pass? {
      PassKeepsTotal(s, step.t, step.u);
    } else {
      var t, s' := step.t, Apply(s, step);
      OneThreadMoves(s, step);
      TotalAfter(s.threads, t, s'.threads[t]);
      HeldFollowsCount(first, s, step);
    }
  }

  lemma {:induction false} OneThreadMoves(s: State, step: Step)
    requires Enabled(s, step) && !step.Pass?
    ensures |Apply(s, step).threads| == |s.threads|
    ensures Apply(s, step).threads == s.threads[step.t := Apply(s, step).threads[step.t]]
  {
  }

  lemma {:induction false} HeldFollowsCount(first: nat, s: State, step: Step)
    requires Inv(first, s) && Enabled(s, step) && !step.Pass? && |Apply(s, step).threads| == |s.threads|
    ensures var s' := Apply(s, step);
            s'.count < CRYPTO_REFCOUNT_MAX ==>
              && s.count < CRYPTO_REFCOUNT_MAX
              && s'.count - s.count == Held(s'.threads[step.t]) - Held(s.threads[step.t])
  {
    assert ThreadOk(s, step.t);
  }

  lemma {:induction false} PassKeepsTotal(s: State, t: nat, u: nat)
    requires Enabled(s, Pass(t, u))
    ensures Total(Apply(s, Pass(t, u)).threads) == Total(s.threads)
  {
    var mid := s.threads[t := s.threads[t].(owned := s.threads[t].owned - 1)];
    TotalAfter(s.threads, t, mid[t]);
    TotalAfter(mid, u, mid[u].(owned := mid[u].owned + 1));
  }

  // Runs.
  ghost predicate Reaches(s: State, steps: seq<Step>, s': State)
    decreases |steps|
  {
    if steps == [] then s' == s
    else Enabled(s, steps[0]) && Reaches(Apply(s, steps[0]), steps[1..], s')
  }

  ghost predicate Initial(s: State) {
    && s.log == [] && s.count <= CRYPTO_REFCOUNT_MAX
    && (s.count < CRYPTO_REFCOUNT_MAX ==> s.count == Total(s.threads))
    && forall t :: 0 <= t < |s.threads| ==>
         s.threads[t].phase == Idle && s.threads[t].calls == [] && s.threads[t].told == []
  }

  lemma {:induction false} RunKeepsInv(first: nat, s: State, steps: seq<Step>, s': State)
    requires Inv(first, s) && Reaches(s, steps, s')
    ensures Inv(first, s')
    ensures s.count == CRYPTO_REFCOUNT_MAX ==> s'.count == CRYPTO_REFCOUNT_MAX
    decreases |steps|
  {
    if steps != [] {
      StepIsAtomic(first, s, steps[0]);
      RunKeepsInv(first, Apply(s, steps[0]), steps[1..], s');
    }
  }

  // The part of the log that is one thread's.
  function Mine(log: seq<Entry>, t: nat): seq<Entry> {
    if log == [] then []
    else
      var last := log[|log| - 1];
      Mine(log[..|log| - 1], t) + if last.thread == t then [last] else []
  }

  function Ops(log: seq<Entry>): seq<Op> {
    seq(|log|, i requires 0 <= i < |log| => log[i].op)
  }

  // The call under way: its report when it has taken effect, and its operation.
  function Pending(t: nat, phase: Phase): seq<Entry> {
    if phase.Done? then [Entry(t, phase.op, phase.zero)] else []
  }

  function PendingOp(phase: Phase): seq<Op> {
    if phase.Idle? || phase.Aborted? then [] else [phase.op]
  }

  // The log has of a thread exactly the calls that returned to it, with what they reported, and
  // the call under way once it has taken effect; and these are the calls it made.
  ghost predicate Faithful(s: State, t: nat)
    requires t < |s.threads|
  {
    var th := s.threads[t];
    && Mine(s.log, t) == th.told + Pending(t, th.phase)
    && th.calls == Ops(th.told) + PendingOp(th.phase)
  }

  lemma {:induction false} FinishKeepsFaithful(s: State, t: nat, op: Op, count: nat, zero: bool, u: nat)
    requires t < |s.threads| && u < |s.threads| && Faithful(s, u)
    requires PendingOp(s.threads[t].phase) == [op] && !s.threads[t].phase.Done?
    ensures Faithful(Finish(s, t, op, count, zero), u)
  {
    assert (s.log + [Entry(t, op, zero)])[..|s.log|] == s.log;
  }

  lemma InspectKeepsFaithful(s: State, t: nat, op: Op, expected: nat, u: nat)
    requires t < |s.threads| && u < |s.threads| && Faithful(s, u)
    requires PendingOp(s.threads[t].phase) == [op] && !s.threads[t].phase.Done?
    ensures !Inspect(s, t, op, expected).threads[t].phase.Aborted? ==> Faithful(Inspect(s, t, op, expected), u)
  {
    FinishKeepsFaithful(s, t, op, s.count, false, u);
  }

  lemma {:induction false} ReturnKeepsFaithful(s: State, t: nat, u: nat)
    requires Enabled(s, Return(t)) && u < |s.threads| && Faithful(s, u)
    ensures Faithful(Apply(s, Return(t)), u)
  {
    if u == t {
      var th, r := s.threads[u], Apply(s, Return(t)).threads[u];
      assert r.told == th.told + Pending(u, th.phase);
      assert Ops(r.told) == Ops(th.told) + [th.phase.op];
    }
  }

  lemma {:induction false} StepKeepsFaithful(first: nat, s: State, step: Step, u: nat)
    requires Inv(first, s) && Enabled(s, step) && u < |s.threads| && Faithful(s, u)
    ensures u < |Apply(s, step).threads| && Faithful(Apply(s, step), u)
  {
    StepIsAtomic(first, s, step);
    assert ThreadOk(Apply(s, step), step.t);
    match step
    case Call(t, op) =>
    case Load(t) => InspectKeepsFaithful(s, t, s.threads[t].phase.op, s.count, u);
    case Cas(t, spurious) =>
      var r, op := Apply(s, step), s.threads[t].phase.op;
      InspectKeepsFaithful(s, t, op, s.count, u);
      if r.log != s.log && r.threads[t].phase.Done? {
        FinishKeepsFaithful(s, t, op, r.count, r.threads[t].phase.zero, u);
      }
    case Return(t) => ReturnKeepsFaithful(s, t, u);
    case Pass(t, v) =>
  }

  lemma {:induction false} RunKeepsFaithful(first: nat, s: State, steps: seq<Step>, s': State)
    requires Inv(first, s) && Reaches(s, steps, s')
    requires forall u :: 0 <= u < |s.threads| ==> Faithful(s, u)
    ensures forall u :: 0 <= u < |s'.threads| ==> Faithful(s', u)
    decreases |steps|
  {
    if steps != [] {
      var r := Apply(s, steps[0]);
      StepIsAtomic(first, s, steps[0]);
      forall u | 0 <= u < |r.threads|
        ensures Faithful(r, u)
      {
        StepKeepsFaithful(first, s, steps[0], u);
      }
      RunKeepsFaithful(first, r, steps[1..], s');
    }
  }

  // What has taken effect stays where it is in the order, so a call that returned before another
  // was made comes before it.
  lemma {:induction false} LogOnlyGrows(first: nat, s: State, steps: seq<Step>, s': State)
    requires Inv(first, s) && Reaches(s, steps, s')
    ensures s.log <= s'.log && |s'.threads| == |s.threads|
    decreases |steps|
  {
    if steps != [] {
      StepIsAtomic(first, s, steps[0]);
      LogOnlyGrows(first, Apply(s, steps[0]), steps[1..], s');
    }
  }

  // Every run from an initial state is a run of the locked counter: the log replays under the
  // lock, and for every thread it has the calls the thread made, in its order, with the reports
  // the thread was given.
  lemma {:induction false} RunsLinearize(s: State, steps: seq<Step>, s': State)
    requires Initial(s) && Reaches(s, steps, s')
    ensures Replays(s.count, s'.log, s'.count)
    ensures forall t :: 0 <= t < |s'.threads| ==> s'.threads[t].phase != Aborted
    ensures forall t :: 0 <= t < |s'.threads| ==>
              var th := s'.threads[t];
              && Mine(s'.log, t) == th.told + Pending(t, th.phase)
              && th.calls == Ops(th.told) + PendingOp(th.phase)
    ensures forall e :: e in s'.log ==> e.thread < |s'.threads|
  {
    RunKeepsInv(s.count, s, steps, s');
    RunKeepsFaithful(s.count, s, steps, s');
    RunKeepsNames(s.count, s, steps, s');
    forall t | 0 <= t < |s'.threads|
      ensures s'.threads[t].phase != Aborted && Faithful(s', t)
    {
      assert ThreadOk(s', t);
    }
  }

  // Every entry of the log is some thread's.
  lemma {:induction false} RunKeepsNames(first: nat, s: State, steps: seq<Step>, s': State)
    requires Inv(first, s) && Reaches(s, steps, s')
    requires forall e :: e in s.log ==> e.thread < |s.threads|
    ensures forall e :: e in s'.log ==> e.thread < |s'.threads|
    decreases |steps|
  {
    if steps != [] {
      StepIsAtomic(first, s, steps[0]);
      RunKeepsNames(first, Apply(s, steps[0]), steps[1..], s');
    }
  }

  function Zeros(log: seq<Entry>): nat {
    if log == [] then 0 else Zeros(log[..|log| - 1]) + if log[|log| - 1].zero then 1 else 0
  }

  // No count above zero came before a report of zero, as long as calls are made by owners.
  ghost predicate ZeroLast(s: State) {
    s.count < CRYPTO_REFCOUNT_MAX ==> Zeros(s.log) == if s.count == 0 && s.log != [] then 1 else 0
  }

  lemma {:induction false} ZeroIsReportedOnce(first: nat, s: State, steps: seq<Step>, s': State)
    requires Inv(first, s) && Reaches(s, steps, s') && ZeroLast(s) && (s.count == 0 ==> Total(s.threads) == 0)
    ensures ZeroLast(s')
    decreases |steps|
  {
    if steps != [] {
      var r := Apply(s, steps[0]);
      StepIsAtomic(first, s, steps[0]);
      HeldBelowCount(first, s, steps[0].t);
      assert ThreadOk(s, steps[0].t);
      if r.log != s.log {
        assert r.log[..|r.log| - 1] == s.log;
      }
      ZeroIsReportedOnce(first, r, steps[1..], s');
    }
  }

  // When every Dec releases a reference its caller owns, exactly one Dec of an unsaturated count
  // reports zero: the one after which no reference is left.
  lemma {:induction false} ExactlyOneZero(s: State, steps: seq<Step>, s': State)
    requires Initial(s) && s.count > 0 && Reaches(s, steps, s') && s'.count < CRYPTO_REFCOUNT_MAX
    ensures Zeros(s'.log) == if Total(s'.threads) == 0 then 1 else 0
  {
    RunKeepsInv(s.count, s, steps, s');
    ZeroIsReportedOnce(s.count, s, steps, s');
  }

  // Progress. A thread whose compare and exchange cannot succeed, as the count is not what it has loaded.
  function IsStale(th: Thread, count: nat): nat {
    if th.phase.Loaded? && th.phase.expected != count then 1 else 0
  }

  function Stale(threads: seq<Thread>, count: nat): nat {
    if threads == [] then 0 else IsStale(threads[0], count) + Stale(threads[1..], count)
  }

  lemma {:induction false} StaleBelow(threads: seq<Thread>, count: nat)
    ensures Stale(threads, count) <= |threads|
  {
    if threads != [] {
      StaleBelow(threads[1..], count);
    }
  }

  lemma {:induction false} StaleAfter(threads: seq<Thread>, t: nat, th: Thread, count: nat)
    requires t < |threads|
    ensures Stale(threads[t := th], count) == Stale(threads, count) - IsStale(threads[t], count) + IsStale(th, count)
  {
    if t > 0 {
      assert threads[t := th][1..] == threads[1..][t - 1 := th];
      StaleAfter(threads[1..], t - 1, th, count);
    } else {
      assert threads[t := th][1..] == threads[1..];
    }
  }

  // A compare and exchange that was not spurious and has to be tried again.
  predicate Fails(s: State, step: Step)
    requires Enabled(s, step)
  {
    step.Cas? && !step.spurious && Apply(s, step).log == s.log
  }

  lemma {:induction false} PassKeepsStale(s: State, t: nat, u: nat)
    requires Enabled(s, Pass(t, u))
    ensures Stale(Apply(s, Pass(t, u)).threads, s.count) == Stale(s.threads, s.count)
  {
    var mid := s.threads[t := s.threads[t].(owned := s.threads[t].owned - 1)];
    StaleAfter(s.threads, t, mid[t], s.count);
    StaleAfter(mid, u, mid[u].(owned := mid[u].owned + 1), s.count);
  }

  // A step lets a call take effect or uses up a stale value for each failure.
  lemma {:induction false} StepUsesUp(first: nat, s: State, step: Step)
    requires Inv(first, s) && Enabled(s, step)
    ensures var s' := Apply(s, step);
            && |s'.threads| == |s.threads| && (s'.log == s.log || |s'.log| == |s.log| + 1)
            && (s'.log == s.log ==>
                  Stale(s'.threads, s'.count) + (if Fails(s, step) then 1 else 0) <= Stale(s.threads, s.count))
  {
    StepIsAtomic(first, s, step);
    if Apply(s, step).log == s.log {
      if step.Pass? {
        PassKeepsStale(s, step.t, step.u);
      } else {
        MoveUsesUp(first, s, step);
      }
    }
  }

  lemma {:induction false} MoveUsesUp(first: nat, s: State, step: Step)
    requires Inv(first, s) && Enabled(s, step) && !step.Pass? && Apply(s, step).log == s.log
    ensures var s' := Apply(s, step);
            Stale(s'.threads, s'.count) + (if Fails(s, step) then 1 else 0) <= Stale(s.threads, s.count)
  {
    var th := Apply(s, step).threads[step.t];
    OneThreadMoves(s, step);
    FailsIfStale(first, s, step);
    StaleAfter(s.threads, step.t, th, s.count);
  }

  lemma {:induction false} FailsIfStale(first: nat, s: State, step: Step)
    requires Inv(first, s) && Enabled(s, step) && !step.Pass? && Apply(s, step).log == s.log
    ensures var s' := Apply(s, step);
            && |s'.threads| == |s.threads| && s'.count == s.count
            && IsStale(s'.threads[step.t], s.count) + (if Fails(s, step) then 1 else 0)
               <= IsStale(s.threads[step.t], s.count)
  {
    assert ThreadOk(s, step.t);
  }

  function Failures(s: State, steps: seq<Step>): nat
    decreases |steps|
  {
    if steps == [] || !Enabled(s, steps[0]) then 0
    else (if Fails(s, steps[0]) then 1 else 0) + Failures(Apply(s, steps[0]), steps[1..])
  }

  lemma {:induction false} FailuresBounded(first: nat, s: State, steps: seq<Step>, s': State)
    requires Inv(first, s) && Reaches(s, steps, s')
    ensures |s.log| <= |s'.log| && |s'.threads| == |s.threads|
    ensures Failures(s, steps) + Stale(s'.threads, s'.count)
            <= Stale(s.threads, s.count) + |s.threads| * (|s'.log| - |s.log|)
    decreases |steps|
  {
    if steps != [] {
      var r := Apply(s, steps[0]);
      StepIsAtomic(first, s, steps[0]);
      StepUsesUp(first, s, steps[0]);
      FailuresBounded(first, r, steps[1..], s');
      if r.log != s.log {
        StaleBelow(r.threads, r.count);
        OneMore(|s.threads|, |s'.log| - |r.log|);
      }
    }
  }

  lemma OneMore(n: nat, d: nat)
    ensures n * (d + 1) == n * d + n
  {
  }

  // The loops are lock-free: in any run, whoever is scheduled, the compare and exchanges that fail,
  // but for spurious failures, are at most as many as the threads for each call that takes effect.
  lemma {:induction false} OthersMakeProgress(s: State, steps: seq<Step>, s': State)
    requires Initial(s) && Reaches(s, steps, s')
    ensures Failures(s, steps) <= |s.threads| * |s'.log|
  {
    FailuresBounded(s.count, s, steps, s');
    NoneStale(s.threads, s.count);
  }

  lemma {:induction false} NoneStale(threads: seq<Thread>, count: nat)
    requires forall t :: 0 <= t < |threads| ==> threads[t].phase == Idle
    ensures Stale(threads, count) == 0
  {
    if threads != [] {
      NoneStale(threads[1..], count);
    }
  }

  // How far a thread that runs alone is from the end of its call.
  function StepsLeft(th: Thread, count: nat): nat {
    match th.phase
    case Called(_) => 3
    case Loaded(_, expected) => if expected == count then 2 else 3
    case Done(_, _) => 1
    case _ => 0
  }

  // A thread that runs alone returns from its call in at most three steps of its own.
  lemma {:induction false} AloneItReturns(first: nat, s: State, t: nat) returns (steps: seq<Step>, s': State)
    requires Inv(first, s) && t < |s.threads|
    ensures Reaches(s, steps, s') && |steps| <= 3 && (forall k :: 0 <= k < |steps| ==> steps[k].t == t)
    ensures t < |s'.threads| && s'.threads[t].phase == Idle
    ensures |s'.threads[t].told| == |s.threads[t].told| + if s.threads[t].phase == Idle then 0 else 1
    ensures |steps| <= StepsLeft(s.threads[t], s.count)
    decreases StepsLeft(s.threads[t], s.count)
  {
    assert ThreadOk(s, t);
    var phase := s.threads[t].phase;
    if phase.Idle? {
      steps, s' := [], s;
    } else {
      var step := if phase.Called? then Load(t) else if phase.Done? then Return(t) else Cas(t, false);
      StepIsAtomic(first, s, step);
      assert ThreadOk(Apply(s, step), t);
      var more;
      more, s' := AloneItReturns(first, Apply(s, step), t);
      steps := [step] + more;
      assert steps[1..] == more;
    }
  }
}
