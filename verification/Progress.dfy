/** Waiting ends: the steps that resolve calls in progress and give locks back always come to an end,
    and when they do nobody is waiting (src/lib.rs, src/lockapi.rs). */
module Progress {
  import opened GraphModel
  import opened LockTracking
  import opened LockWrapper
  import opened Protocol
  import opened ProtocolInvariant
  import opened Connection
  import opened Deadlock

  /** Resolving steps a thread can still take: two for each lock it holds, one more while it is still
      to get the last, one less while it is to take a mark back. */
  function ThreadWork(s: System, t: Tid): int {
    2 * |s.Stack(t)| + match s.PhaseOf(t) {
      case Running => 0
      case Waiting(_, _) => 1
      case Trying(_, _) => 1
      case Unmarking(_) => -1
    }
  }

  function Work(s: System, threads: nat): int {
    if threads == 0 then 0 else ThreadWork(s, threads - 1) + Work(s, threads - 1)
  }

  /** Threads from `threads` on have never taken part. */
  ghost predicate Involves(s: System, threads: nat) {
    forall t: Tid :: t in s.stacks || t in s.phases ==> t < threads
  }

  lemma {:induction false} WorkIsNatural(s: System, threads: nat)
    requires ThreadsOk(s)
    ensures Work(s, threads) >= 0
    decreases threads
  {
    if threads > 0 {
      assert ThreadOk(s, threads - 1);
      WorkIsNatural(s, threads - 1);
    }
  }

  lemma {:induction false} OneThreadWorks(s: System, s': System, t: Tid, threads: nat)
    requires ThreadWork(s', t) < ThreadWork(s, t)
    requires forall u: Tid :: u != t ==> ThreadWork(s', u) == ThreadWork(s, u)
    ensures if t < threads then Work(s', threads) < Work(s, threads) else Work(s', threads) == Work(s, threads)
    decreases threads
  {
    if threads > 0 {
      OneThreadWorks(s, s', t, threads - 1);
    }
  }

  function Actor(a: Action): Tid
    requires Resolving(a)
  {
    a.t
  }

  /** Every resolving step uses up some of the work. */
  lemma ResolvingShrinks(s: System, a: Action, s': System, threads: nat)
    requires ThreadsOk(s) && Involves(s, threads) && Resolving(a) && Step(s, a, s')
    ensures Work(s', threads) < Work(s, threads) && Involves(s', threads)
  {
    var t := Actor(a);
    assert ThreadOk(s, t);
    ActorWorks(s, a, s');
    OneThreadWorks(s, s', t, threads);
  }

  lemma ActorWorks(s: System, a: Action, s': System)
    requires Resolving(a) && Step(s, a, s') && ThreadOk(s, Actor(a))
    ensures Actor(a) in s.stacks || Actor(a) in s.phases
    ensures ThreadWork(s', Actor(a)) < ThreadWork(s, Actor(a))
    ensures forall u: Tid :: u != Actor(a) ==> ThreadWork(s', u) == ThreadWork(s, u)
    ensures forall u: Tid :: (u in s'.stacks || u in s'.phases) ==> u == Actor(a) || u in s.stacks || u in s.phases
  {
    match a
    case Grant(t) =>
    case Refuse(t) =>
    case Unlock(t, id) =>
      if t !in s.stacks {
        assert s.Stack(t) == [];
        HoldsNothing(s, t, id);
      }
    case Unmark(t) =>
      var k := ReleasedSplits(s.Stack(t), s.PhaseOf(t).id);
  }

  lemma HoldsNothing(s: System, t: Tid, id: Id)
    requires ThreadOk(s, t) && s.Stack(t) == []
    ensures !s.Holds(t, id)
  {
    assert multiset(s.Stack(t))[id] == 0;
    assert s.HoldCount(t, id) == 0;
  }

  ghost predicate AllResolving(acts: seq<Action>) {
    forall i :: 0 <= i < |acts| ==> Resolving(acts[i])
  }

  ghost predicate NobodyWaits(s: System) {
    forall t: Tid :: !s.PhaseOf(t).Waiting?
  }

  /** Resolving steps, however they are chosen, are never more than the work at hand. */
  lemma {:induction false} ResolvingEnds(s: System, acts: seq<Action>, s': System, threads: nat)
    requires Tracked(s) && Involves(s, threads)
    requires AllResolving(acts) && LeadsTo(Free, s, acts, s')
    ensures Tracked(s') && Involves(s', threads)
    ensures StacksOrdered(s) ==> StacksOrdered(s')
    ensures |acts| <= Work(s, threads) - Work(s', threads)
    decreases |acts|
  {
    if acts != [] {
      var m :| Step(s, acts[0], m) && LeadsTo(Free, m, acts[1..], s');
      assert Resolving(acts[0]);
      StepKeepsTracked(s, acts[0], m);
      if StacksOrdered(s) {
        StepKeepsOrder(s, acts[0], m);
      }
      ResolvingShrinks(s, acts[0], m, threads);
      ResolvingEnds(m, acts[1..], s', threads);
    }
  }

  /** One resolving step, taken while somebody waits in a state with no deadlock ahead of it. */
  lemma Resolve(s: System, threads: nat) returns (a: Action, m: System)
    requires Tracked(s) && SafeForEver(s) && Involves(s, threads) && !NobodyWaits(s)
    ensures Resolving(a) && Step(s, a, m) && LeadsTo(NoDestroy, s, [a], m)
    ensures Tracked(m) && SafeForEver(m) && Involves(m, threads)
    ensures 0 <= Work(m, threads) < Work(s, threads)
  {
    hide Valid, LocksOk, ThreadOk, Involves, RequestStep, SafeForEver, Deadlocked, Work;
    var t0: Tid :| s.PhaseOf(t0).Waiting?;
    SafeNow(s);
    NeverStuck(s, t0);
    a, m :| Resolving(a) && Step(s, a, m);
    hide Step;
    StepKeepsTracked(s, a, m);
    ResolvingShrinks(s, a, m, threads);
    WorkIsNatural(m, threads);
    OneStep(NoDestroy, s, a, m);
    SafeAfter(s, [a], m);
  }

  lemma SafeNow(s: System)
    requires SafeForEver(s)
    ensures forall d :: !Deadlocked(s, d)
  {
    hide LeadsTo, Deadlocked;
    NoStep(NoDestroy, s);
  }

  lemma SafeAfter(s: System, acts: seq<Action>, m: System)
    requires SafeForEver(s) && LeadsTo(NoDestroy, s, acts, m)
    ensures SafeForEver(m)
  {
    hide LeadsTo, Deadlocked;
    forall more, s', d | LeadsTo(NoDestroy, m, more, s') ensures !Deadlocked(s', d) {
      LeadsToTransitive(NoDestroy, s, acts, m, more, s');
    }
  }

  /** From every state with no deadlock ahead of it, resolving steps alone lead to a state in which
      nobody waits. */
  lemma {:induction false} EveryWaitEnds(s: System, threads: nat) returns (acts: seq<Action>, s': System)
    requires Tracked(s) && SafeForEver(s) && Involves(s, threads)
    ensures AllResolving(acts) && LeadsTo(NoDestroy, s, acts, s') && NobodyWaits(s')
    decreases Work(s, threads)
  {
    hide Tracked, SafeForEver, Involves, Step, Work;
    acts, s' := [], s;
    if !NobodyWaits(s) {
      var a, m := Resolve(s, threads);
      var rest;
      rest, s' := EveryWaitEnds(m, threads);
      LeadsToTransitive(NoDestroy, s, [a], m, rest, s');
      acts := [a] + rest;
    }
  }

  lemma {:induction false} UpperBound(ts: set<Tid>) returns (n: nat)
    ensures forall t :: t in ts ==> t < n
  {
    if ts == {} {
      n := 0;
    } else {
      var t :| t in ts;
      n := UpperBound(ts - {t});
      assert forall u :: u in ts ==> u == t || u in ts - {t};
      n := if n <= t then t + 1 else n;
    }
  }

  lemma Participants(s: System) returns (threads: nat)
    ensures Involves(s, threads)
  {
    threads := UpperBound(s.stacks.Keys + s.phases.Keys);
  }

  /** So in every run whose destructions leave kept locks connected, however many threads take part, all
      waits can be brought to an end without anybody asking for another lock. */
  lemma NoRunIsStuck(acts: seq<Action>, s: System)
    requires LeadsTo(ConnectedDrops, Initial(), acts, s)
    ensures exists more, s' :: AllResolving(more) && LeadsTo(NoDestroy, s, more, s') && NobodyWaits(s')
  {
    InitialIsConnected();
    ConnectedRunsKeep(Initial(), acts, s);
    ConnectedIsSafe(s);
    var threads := Participants(s);
    var more, s' := EveryWaitEnds(s, threads);
  }
}
