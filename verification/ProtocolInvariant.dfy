/** What every step of the protocol keeps. */
module ProtocolInvariant {
  import opened Reachability
  import opened GraphModel
  import opened LockTracking
  import opened LockWrapper
  import opened LockStacks
  import opened Protocol

  /** The phase of a thread agrees with its stack: a lock being acquired is on top, and a lock whose
      mark is about to be taken back is still there, so the release never finds it missing. */
  ghost predicate PhaseFits(p: Phase, st: seq<Id>) {
    match p
    case Running => true
    case Waiting(id, _) => IsTop(st, id)
    case Trying(id, _) => IsTop(st, id)
    case Unmarking(id) => id in st
  }

  /** A thread holds exactly the locks on its stack, each as often as it is there, save the one entry
      that a call in progress is about. */
  ghost predicate CountsFit(s: System, t: Tid) {
    forall id: Id ::
      multiset(s.Stack(t))[id] == s.HoldCount(t, id) + (if s.PhaseOf(t).Pending(id) then 1 else 0)
  }

  ghost predicate ThreadOk(s: System, t: Tid) {
    && (forall id :: id in s.Stack(t) ==> id in s.locks)
    && CountsFit(s, t)
    && PhaseFits(s.PhaseOf(t), s.Stack(t))
  }

  /** Readers and a writer exclude each other. */
  ghost predicate LockOk(l: RawLock) {
    l.writer.Some? ==> l.readers == multiset{}
  }

  ghost predicate LocksOk(s: System) {
    && (forall id :: id in s.locks ==> id < s.nextId && LockOk(s.locks[id]))
    && s.graph.nodes.Keys <= s.locks.Keys
  }

  ghost predicate ThreadsOk(s: System) {
    forall t: Tid :: ThreadOk(s, t)
  }

  ghost predicate Tracked(s: System) {
    Valid(s.graph) && LocksOk(s) && ThreadsOk(s)
  }

  lemma TrackedIsValid(s: System)
    requires Tracked(s)
    ensures Valid(s.graph) && ThreadsOk(s)
  {
  }

  ghost predicate StacksOrdered(s: System) {
    forall t: Tid :: OrderedStack(Edges(s.graph.nodes), s.Stack(t))
  }

  /** A thread with no call in progress holds all that is on its stack, and nothing else. */
  lemma RunningHolds(s: System, t: Tid, id: Id)
    requires ThreadOk(s, t) && s.PhaseOf(t).Running?
    ensures s.Holds(t, id) <==> id in s.Stack(t)
  {
    assert multiset(s.Stack(t))[id] == s.HoldCount(t, id);
  }

  /** A thread whose stack, phase and holdings are left alone stays in order. */
  lemma Untouched(s: System, s': System, t: Tid)
    requires ThreadOk(s, t) && s'.Stack(t) == s.Stack(t) && s'.PhaseOf(t) == s.PhaseOf(t)
    requires forall id :: s'.HoldCount(t, id) == s.HoldCount(t, id)
    requires forall id :: id in s.Stack(t) ==> id in s'.locks
    ensures ThreadOk(s', t)
  {
  }

  lemma CreateKeeps(s: System, s': System)
    requires Tracked(s) && Step(s, Create, s')
    ensures Tracked(s')
  {
    forall t: Tid ensures ThreadOk(s', t) {
      assert ThreadOk(s, t);
      Untouched(s, s', t);
    }
  }

  lemma DestroyKeeps(s: System, id: Id, s': System)
    requires Tracked(s) && Step(s, Destroy(id), s')
    ensures Tracked(s')
  {
    WithoutNodeKeeps(s.graph, id);
    DestroyedThreads(s, id, s');
    DestroyedLocks(s, id, s');
  }

  lemma DestroyedLocks(s: System, id: Id, s': System)
    requires LocksOk(s) && s'.locks == s.locks - {id} && s'.nextId == s.nextId
    requires s'.graph.nodes.Keys == s.graph.nodes.Keys - {id}
    ensures LocksOk(s')
  {
  }

  lemma DestroyedThreads(s: System, id: Id, s': System)
    requires ThreadsOk(s) && CanDestroy(s, id)
    requires s'.locks == s.locks - {id} && s'.stacks == s.stacks && s'.phases == s.phases
    ensures ThreadsOk(s')
  {
    forall t: Tid ensures ThreadOk(s', t) {
      assert ThreadOk(s, t);
      assert id !in s.Stack(t);
      Untouched(s, s', t);
    }
  }

  lemma RequestKeeps(s: System, t: Tid, id: Id, next: Phase, dep: Dep, s': System)
    requires Tracked(s) && s.PhaseOf(t).Running? && id in s.locks
    requires (next.Waiting? || next.Trying?) && next.id == id
    requires MarkHeldStep(s.graph, s.Stack(t), id, dep, true, s'.graph, s.Stack(t) + [id])
    requires s' == s.(graph := s'.graph, stacks := s.stacks[t := s.Stack(t) + [id]], phases := s.phases[t := next])
    ensures Tracked(s')
  {
    hide Valid, MarkHeldStep, LocksOk, ThreadsOk;
    MarkHeldEdges(s.graph, s.Stack(t), id, dep, s'.graph, s.Stack(t) + [id]);
    RequestedThreads(s, t, id, next, s');
    RequestedNodes(s, s.Stack(t), t, id, s');
    SameLocks(s, s');
  }

  lemma SameLocks(s: System, s': System)
    requires LocksOk(s) && s'.locks == s.locks && s'.nextId == s.nextId
    requires s'.graph.nodes.Keys <= s.graph.nodes.Keys + s.locks.Keys
    ensures LocksOk(s')
  {
  }

  /** The nodes a request may add to the graph are live locks. */
  lemma RequestedNodes(s: System, st: seq<Id>, t: Tid, id: Id, s': System)
    requires ThreadsOk(s) && st == s.Stack(t) && id in s.locks
    requires s'.graph.nodes.Keys <=
             if st == [] then s.graph.nodes.Keys else s.graph.nodes.Keys + {st[|st| - 1], id}
    ensures s'.graph.nodes.Keys <= s.graph.nodes.Keys + s.locks.Keys
  {
    assert ThreadOk(s, t);
  }

  lemma RequestedThreads(s: System, t: Tid, id: Id, next: Phase, s': System)
    requires ThreadsOk(s) && s.PhaseOf(t).Running? && id in s.locks
    requires (next.Waiting? || next.Trying?) && next.id == id && s'.locks == s.locks
    requires s'.stacks == s.stacks[t := s.Stack(t) + [id]] && s'.phases == s.phases[t := next]
    ensures ThreadsOk(s')
  {
    assert ThreadOk(s, t);
    RequestedThread(s, t, id, next, s');
    forall u: Tid ensures ThreadOk(s', u) {
      if u != t {
        assert ThreadOk(s, u);
        assert s'.Stack(u) == s.Stack(u) && s'.PhaseOf(u) == s.PhaseOf(u);
        SameThread(s, s', u);
      }
    }
  }

  lemma SameThread(s: System, s': System, t: Tid)
    requires ThreadOk(s, t) && s'.Stack(t) == s.Stack(t) && s'.PhaseOf(t) == s.PhaseOf(t)
    requires s'.locks == s.locks
    ensures ThreadOk(s', t)
  {
  }

  lemma RequestedThread(s: System, t: Tid, id: Id, next: Phase, s': System)
    requires ThreadOk(s, t) && s.PhaseOf(t).Running? && id in s.locks
    requires (next.Waiting? || next.Trying?) && next.id == id
    requires s'.Stack(t) == s.Stack(t) + [id] && s'.PhaseOf(t) == next && s'.locks == s.locks
    ensures ThreadOk(s', t)
  {
    assert multiset(s'.Stack(t)) == multiset(s.Stack(t)) + multiset{id};
    assert forall i: Id :: s'.HoldCount(t, i) == s.HoldCount(t, i);
  }

  /** Who holds a lock, and how often, after one more thread got in. */
  lemma AfterAcquire(l: RawLock, t: Tid, mode: Mode)
    requires LockOk(l) && l.CanAcquire(mode)
    ensures LockOk(l.Acquire(t, mode))
    ensures forall u :: l.Acquire(t, mode).Count(u) == l.Count(u) + if u == t then 1 else 0
  {
  }

  lemma GrantKeeps(s: System, t: Tid, s': System)
    requires Tracked(s) && Step(s, Grant(t), s')
    ensures Tracked(s')
  {
    assert ThreadOk(s, t);
    AfterAcquire(s.locks[s.PhaseOf(t).id], t, s.PhaseOf(t).mode);
    forall u: Tid ensures ThreadOk(s', u) {
      assert ThreadOk(s, u);
      if u != t {
        Untouched(s, s', u);
      }
    }
  }

  lemma RefuseKeeps(s: System, t: Tid, s': System)
    requires Tracked(s) && Step(s, Refuse(t), s')
    ensures Tracked(s')
  {
    forall u: Tid ensures ThreadOk(s', u) {
      assert ThreadOk(s, u);
      if u != t {
        Untouched(s, s', u);
      }
    }
  }

  /** Who holds a lock, and how often, after one of its holders has given it back. */
  lemma AfterRelease(l: RawLock, t: Tid)
    requires LockOk(l) && l.HeldBy(t)
    ensures LockOk(l.Release(t))
    ensures forall u :: l.Count(u) == l.Release(t).Count(u) + if u == t then 1 else 0
  {
  }

  lemma UnlockKeeps(s: System, t: Tid, id: Id, s': System)
    requires Tracked(s) && Step(s, Unlock(t, id), s')
    ensures Tracked(s')
  {
    hide Valid;
    AfterRelease(s.locks[id], t);
    hide LockOk;
    assert ThreadOk(s, t);
    UnlockedThread(s, t, id, s');
    forall u: Tid ensures ThreadOk(s', u) {
      assert ThreadOk(s, u);
      if u != t {
        Untouched(s, s', u);
      }
    }
  }

  lemma UnlockedThread(s: System, t: Tid, id: Id, s': System)
    requires ThreadOk(s, t) && s.PhaseOf(t).Running? && s.HoldCount(t, id) > 0
    requires s'.Stack(t) == s.Stack(t) && s'.PhaseOf(t) == Unmarking(id) && s'.locks.Keys == s.locks.Keys
    requires forall i: Id :: s.HoldCount(t, i) == s'.HoldCount(t, i) + if i == id then 1 else 0
    ensures ThreadOk(s', t)
  {
  }

  lemma UnmarkKeeps(s: System, t: Tid, s': System)
    requires Tracked(s) && Step(s, Unmark(t), s')
    ensures Tracked(s')
  {
    assert ThreadOk(s, t);
    ReleasedOnce(s.Stack(t), s.PhaseOf(t).id);
    ReleasedMembers(s.Stack(t), s.PhaseOf(t).id);
    forall u: Tid ensures ThreadOk(s', u) {
      assert ThreadOk(s, u);
      if u != t {
        Untouched(s, s', u);
      }
    }
  }

  /** Any step keeps the bookkeeping right. */
  lemma StepKeepsTracked(s: System, a: Action, s': System)
    requires Tracked(s) && Step(s, a, s')
    ensures Tracked(s')
  {
    match a
    case Create => CreateKeeps(s, s');
    case Destroy(id) => DestroyKeeps(s, id, s');
    case Request(t, id, mode, blocking, dep) =>
      if s' != s {
        RequestKeeps(s, t, id, if blocking then Waiting(id, mode) else Trying(id, mode), dep, s');
      }
    case Grant(t) => GrantKeeps(s, t, s');
    case Refuse(t) => RefuseKeeps(s, t, s');
    case Unlock(t, id) => UnlockKeeps(s, t, id, s');
    case Unmark(t) => UnmarkKeeps(s, t, s');
  }

  // ----- the order of the stacks -----

  lemma RequestKeepsOrder(s: System, t: Tid, id: Id, next: Phase, dep: Dep, s': System)
    requires Valid(s.graph) && StacksOrdered(s)
    requires MarkHeldStep(s.graph, s.Stack(t), id, dep, true, s'.graph, s.Stack(t) + [id])
    requires s' == s.(graph := s'.graph, stacks := s.stacks[t := s.Stack(t) + [id]], phases := s.phases[t := next])
    ensures StacksOrdered(s')
  {
    MarkHeldEdges(s.graph, s.Stack(t), id, dep, s'.graph, s.Stack(t) + [id]);
    RequestedOrder(s, t, id, s', Edges(s.graph.nodes), Edges(s'.graph.nodes));
  }

  lemma RequestedOrder(s: System, t: Tid, id: Id, s': System, es: set<(Id, Id)>, fs: set<(Id, Id)>)
    requires StacksOrdered(s) && es == Edges(s.graph.nodes) <= fs == Edges(s'.graph.nodes)
    requires s.Stack(t) != [] ==> (s.Stack(t)[|s.Stack(t)| - 1], id) in fs
    requires s'.stacks == s.stacks[t := s.Stack(t) + [id]]
    ensures StacksOrdered(s')
  {
    forall u: Tid ensures OrderedStack(fs, s'.Stack(u)) {
      assert OrderedStack(es, s.Stack(u));
      OrderedStackMonotone(es, fs, s.Stack(u));
      if u == t && s.Stack(t) != [] {
        OrderedStackPush(fs, s.Stack(t), id);
      }
    }
  }

  /** Every step keeps the stacks ordered, except the destruction of a lock whose dependencies were
      the only link between two locks that some thread still holds. */
  lemma StepKeepsOrder(s: System, a: Action, s': System)
    requires Tracked(s) && StacksOrdered(s) && Step(s, a, s')
    requires a.Destroy? ==> DropSafe(s, a.id)
    ensures StacksOrdered(s')
  {
    match a
    case Destroy(id) =>
      DropSafeKeepsOrder(s, id, s');
    case Request(t, id, mode, blocking, dep) =>
      if s' != s {
        RequestKeepsOrder(s, t, id, if blocking then Waiting(id, mode) else Trying(id, mode), dep, s');
      }
    case Unmark(t) =>
      UnmarkKeepsOrder(s, t, s');
    case _ =>
      SameStacksSameOrder(s, s');
  }

  lemma SameStacksSameOrder(s: System, s': System)
    requires StacksOrdered(s) && s'.graph == s.graph && s'.stacks == s.stacks
    ensures StacksOrdered(s')
  {
    forall t: Tid ensures OrderedStack(Edges(s'.graph.nodes), s'.Stack(t)) {
      assert s'.Stack(t) == s.Stack(t);
    }
  }

  lemma UnmarkKeepsOrder(s: System, t: Tid, s': System)
    requires ThreadOk(s, t) && StacksOrdered(s) && Step(s, Unmark(t), s')
    ensures StacksOrdered(s')
  {
    var es := Edges(s.graph.nodes);
    assert OrderedStack(es, s.Stack(t));
    OrderedStackRelease(es, s.Stack(t), s.PhaseOf(t).id);
    forall u: Tid ensures OrderedStack(es, s'.Stack(u)) {
      if u != t {
        assert s'.Stack(u) == s.Stack(u);
      }
    }
  }

  /** After a lock is destroyed the stacks are ordered exactly when the drop was safe. */
  lemma DropSafeKeepsOrder(s: System, id: Id, s': System)
    requires Valid(s.graph) && Step(s, Destroy(id), s')
    ensures StacksOrdered(s') <==> DropSafe(s, id)
  {
    WithoutNodeKeeps(s.graph, id);
    var es := Edges(s'.graph.nodes);
    assert es == Avoiding(Edges(s.graph.nodes), id);
    forall t: Tid ensures OrderedStack(es, s'.Stack(t)) <==> (t in s.stacks ==> DropSafeFor(s, id, s.stacks[t])) {
    }
    if DropSafe(s, id) {
      assert forall t :: t in s.stacks ==> DropSafeFor(s, id, s.stacks[t]);
    } else {
      var t :| t in s.stacks && !DropSafeFor(s, id, s.stacks[t]);
      assert !OrderedStack(es, s'.Stack(t));
    }
  }

  lemma InitialIsTracked()
    ensures Tracked(Initial()) && StacksOrdered(Initial())
  {
  }

  // ----- runs -----

  lemma {:induction false} RunsKeepTracked(s: System, acts: seq<Action>, s': System)
    requires Tracked(s) && LeadsTo(Free, s, acts, s')
    ensures Tracked(s')
    decreases |acts|
  {
    if acts != [] {
      var m :| Step(s, acts[0], m) && LeadsTo(Free, m, acts[1..], s');
      StepKeepsTracked(s, acts[0], m);
      RunsKeepTracked(m, acts[1..], s');
    }
  }

  lemma {:induction false} OrderedRunsKeep(s: System, acts: seq<Action>, s': System)
    requires Tracked(s) && StacksOrdered(s) && LeadsTo(OrderedDrops, s, acts, s')
    ensures Tracked(s') && StacksOrdered(s')
    decreases |acts|
  {
    if acts != [] {
      var m :| Step(s, acts[0], m) && LeadsTo(OrderedDrops, m, acts[1..], s');
      StepKeepsTracked(s, acts[0], m);
      StepKeepsOrder(s, acts[0], m);
      OrderedRunsKeep(m, acts[1..], s');
    }
  }

  /** In every run whatsoever: a thread holds exactly the locks on its stack, each as often as it is
      there, save the entry a call in progress is about; that one is on top while it is being acquired,
      and a release always finds its lock. */
  lemma StacksMirrorReality(acts: seq<Action>, s: System, t: Tid)
    requires LeadsTo(Free, Initial(), acts, s)
    ensures forall id: Id ::
              multiset(s.Stack(t))[id] == s.HoldCount(t, id) + (if s.PhaseOf(t).Pending(id) then 1 else 0)
    ensures s.PhaseOf(t).Waiting? || s.PhaseOf(t).Trying? ==> IsTop(s.Stack(t), s.PhaseOf(t).id)
    ensures s.PhaseOf(t).Unmarking? ==> s.PhaseOf(t).id in s.Stack(t)
  {
    InitialIsTracked();
    RunsKeepTracked(Initial(), acts, s);
    assert ThreadOk(s, t);
  }

  /** In every run whose destructions keep whole stacks ordered, the entries of each stack are also
      connected in their order and all different, and nobody gets into a lock twice. */
  lemma StacksStayOrdered(acts: seq<Action>, s: System, t: Tid)
    requires LeadsTo(OrderedDrops, Initial(), acts, s)
    ensures OrderedStack(Edges(s.graph.nodes), s.Stack(t)) && Distinct(s.Stack(t))
    ensures forall id: Id :: s.HoldCount(t, id) <= 1
    ensures forall id: Id :: s.Holds(t, id) <==> id in s.Stack(t) && !s.PhaseOf(t).Pending(id)
  {
    InitialIsTracked();
    OrderedRunsKeep(Initial(), acts, s);
    OrderedHoldings(s, t);
  }

  lemma OrderedHoldings(s: System, t: Tid)
    requires Tracked(s) && StacksOrdered(s)
    ensures OrderedStack(Edges(s.graph.nodes), s.Stack(t)) && Distinct(s.Stack(t))
    ensures forall id: Id :: s.HoldCount(t, id) <= 1
    ensures forall id: Id :: s.Holds(t, id) <==> id in s.Stack(t) && !s.PhaseOf(t).Pending(id)
  {
    assert ThreadOk(s, t) && OrderedStack(Edges(s.graph.nodes), s.Stack(t));
    OrderedIsDistinct(s.graph, s.Stack(t));
    forall id: Id
      ensures s.HoldCount(t, id) <= 1
      ensures s.Holds(t, id) <==> id in s.Stack(t) && !s.PhaseOf(t).Pending(id)
    {
      DistinctOnce(s.Stack(t), id);
    }
  }
}
