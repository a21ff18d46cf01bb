/** The guarantee the crate makes (src/lib.rs): which runs of the protocol can never deadlock. */
module Deadlock {
  import opened Reachability
  import opened GraphModel
  import opened LockTracking
  import opened LockWrapper
  import opened LockStacks
  import opened Protocol
  import opened ProtocolInvariant
  import opened Connection
  import opened Enabled

  // ----- an ordered state has no deadlock -----

  /** The place of a lock in the topological order; locks without dependencies come first. */
  function Rank(g: Deps, id: Id): nat {
    if id in g.nodes then g.nodes[id].ord + 1 else 0
  }

  /** The thread of `d` that waits for the lock of highest rank. */
  lemma {:induction false} HighestWaiter(s: System, d: set<Tid>) returns (t: Tid)
    requires d != {} && forall u :: u in d ==> s.PhaseOf(u).Waiting?
    ensures t in d
    ensures forall u :: u in d ==> Rank(s.graph, s.PhaseOf(u).id) <= Rank(s.graph, s.PhaseOf(t).id)
    decreases |d|
  {
    t :| t in d;
    var rest := d - {t};
    if rest != {} {
      var u := HighestWaiter(s, rest);
      assert forall v :: v in d ==> v == t || v in rest;
      if Rank(s.graph, s.PhaseOf(t).id) < Rank(s.graph, s.PhaseOf(u).id) {
        t := u;
      }
    } else {
      assert d == {t};
    }
  }

  /** A thread that holds one lock and waits for another waits for one of higher rank. */
  lemma WaitsUpwards(s: System, h: Tid, id: Id)
    requires Tracked(s) && WaitersOrdered(s) && s.Holds(h, id) && s.PhaseOf(h).Waiting?
    ensures Rank(s.graph, id) < Rank(s.graph, s.PhaseOf(h).id)
  {
    var st, es := s.Stack(h), Edges(s.graph.nodes);
    assert WaiterOrdered(es, s.PhaseOf(h), st);
    var i := HeldBelowTop(s, h, id);
    assert Precedes(es, st[i], st[|st| - 1]);
    Ascends(es, Ords(s.graph.nodes), id, s.PhaseOf(h).id);
  }

  /** What a waiting thread holds is on its stack below the lock it waits for. */
  lemma HeldBelowTop(s: System, h: Tid, id: Id) returns (i: nat)
    requires ThreadsOk(s) && s.Holds(h, id) && s.PhaseOf(h).Waiting?
    ensures i < |s.Stack(h)| - 1 && s.Stack(h)[i] == id
    ensures s.PhaseOf(h).id == s.Stack(h)[|s.Stack(h)| - 1]
  {
    assert ThreadOk(s, h);
    var st := s.Stack(h);
    var rest, top := st[..|st| - 1], st[|st| - 1];
    assert st == rest + [top];
    assert multiset(st)[id] == s.HoldCount(h, id) + if id == top then 1 else 0;
    assert id in multiset(rest);
    i :| 0 <= i < |rest| && rest[i] == id;
  }

  /** Among any blocked threads some thread waits for a lock that none of them holds: a deadlock
      would have to wait its way up the topological order for ever. */
  lemma OrderedIsDeadlockFree(s: System, d: set<Tid>)
    requires Tracked(s) && WaitersOrdered(s)
    ensures !Deadlocked(s, d)
  {
    if Deadlocked(s, d) {
      var t := HighestWaiter(s, d);
      assert HeldWithin(s, d, s.PhaseOf(t).id);
      var h :| h in d && s.Holds(h, s.PhaseOf(t).id);
      WaitsUpwards(s, h, s.PhaseOf(t).id);
    }
  }

  predicate Resolving(a: Action) {
    a.Grant? || a.Refuse? || a.Unlock? || a.Unmark?
  }

  /** While some thread is waiting and there is no deadlock, the system can move without anyone asking
      for anything new: a waiting thread can be granted its lock, or a holder that is not itself blocked
      can go on. */
  lemma NeverStuck(s: System, t0: Tid)
    requires Tracked(s) && s.PhaseOf(t0).Waiting? && forall d :: !Deadlocked(s, d)
    ensures exists a, s' :: Resolving(a) && Step(s, a, s')
  {
    var d := set t | t in s.phases && s.phases[t].Waiting?;
    assert t0 in d && !Deadlocked(s, d);
    var t :| t in d && !HeldWithin(s, d, s.PhaseOf(t).id);
    assert ThreadOk(s, t);
    var p := s.PhaseOf(t);
    if CanGrant(s, t) {
      var s' := s.(locks := s.locks[p.id := s.locks[p.id].Acquire(t, p.mode)], phases := s.phases[t := Running]);
      assert Step(s, Grant(t), s');
    } else {
      assert p.id in s.locks && !s.locks[p.id].CanAcquire(p.mode);
      var h := SomeHolder(s.locks[p.id], p.mode);
      assert s.Holds(h, p.id) && h !in d;
      HolderMoves(s, h, p.id);
    }
  }

  lemma SomeHolder(l: RawLock, mode: Mode) returns (h: Tid)
    requires !l.CanAcquire(mode)
    ensures l.HeldBy(h)
  {
    if l.writer.Some? {
      h := l.writer.value;
    } else {
      h :| h in l.readers;
    }
  }

  lemma HolderMoves(s: System, h: Tid, id: Id)
    requires s.Holds(h, id) && !s.PhaseOf(h).Waiting?
    ensures exists a, s' :: Resolving(a) && Step(s, a, s')
  {
    match s.PhaseOf(h)
    case Running =>
      var s' := s.(locks := s.locks[id := s.locks[id].Release(h)], phases := s.phases[h := Unmarking(id)]);
      assert Step(s, Unlock(h, id), s');
    case Trying(i, _) =>
      assert Step(s, Refuse(h), s.(phases := s.phases[h := Unmarking(i)]));
    case Unmarking(i) =>
      var s' := s.(stacks := s.stacks[h := Released(s.Stack(h), i)], phases := s.phases[h := Running]);
      assert Step(s, Unmark(h), s');
  }

  // ----- runs without deadlock -----

  /** No run deadlocks in which destroyed locks were not the only link between locks that a thread
      keeps. */
  lemma ConnectedDropsNeverDeadlock(acts: seq<Action>, s: System, d: set<Tid>)
    requires LeadsTo(ConnectedDrops, Initial(), acts, s)
    ensures !Deadlocked(s, d)
  {
    InitialIsConnected();
    ConnectedRunsKeep(Initial(), acts, s);
    ConnectedWaiters(s);
    OrderedIsDeadlockFree(s, d);
  }

  /** So no run deadlocks in which all stacks stay ordered without the destroyed locks. */
  lemma OrderedDropsNeverDeadlock(acts: seq<Action>, s: System, d: set<Tid>)
    requires LeadsTo(OrderedDrops, Initial(), acts, s)
    ensures !Deadlocked(s, d)
  {
    InitialIsTracked();
    OrderedDropsAreConnected(Initial(), acts, s);
    ConnectedDropsNeverDeadlock(acts, s, d);
  }

  /** No run deadlocks in which no lock is destroyed, in whatever order locks are released. */
  lemma WithoutDestructionNeverDeadlocks(acts: seq<Action>, s: System, d: set<Tid>)
    requires LeadsTo(Free, Initial(), acts, s) && forall id :: Destroy(id) !in acts
    ensures !Deadlocked(s, d)
  {
    assert Obeys(NoDestroy, Initial(), acts);
    ObedientIsDisciplined(NoDestroy, Initial(), acts, s);
    NoDestroyIsOrdered(Initial(), acts, s);
    OrderedDropsNeverDeadlock(acts, s, d);
  }

  lemma {:induction false} NoDestroyIsOrdered(s: System, acts: seq<Action>, s': System)
    requires LeadsTo(NoDestroy, s, acts, s')
    ensures LeadsTo(OrderedDrops, s, acts, s')
    decreases |acts|
  {
    if acts != [] {
      var m :| Step(s, acts[0], m) && LeadsTo(NoDestroy, m, acts[1..], s');
      NoDestroyIsOrdered(m, acts[1..], s');
    }
  }

  /** A state with ordered stacks has no deadlock ahead of it, however it came about. */
  lemma OrderedIsSafe(s: System)
    requires Tracked(s) && StacksOrdered(s)
    ensures SafeForEver(s)
  {
    forall acts, s', d | LeadsTo(NoDestroy, s, acts, s') ensures !Deadlocked(s', d) {
      NoDestroyIsOrdered(s, acts, s');
      OrderedRunsKeep(s, acts, s');
      OrderedWaiters(s');
      OrderedIsDeadlockFree(s', d);
    }
  }

  /** Neither has a state in which what the threads keep is connected, and pending locks are linked as
      they are in every run. */
  lemma ConnectedIsSafe(s: System)
    requires Tracked(s) && TopsLinked(s) && StacksConnected(s)
    ensures SafeForEver(s)
  {
    hide Tracked, Deadlocked;
    forall acts, s', d | LeadsTo(NoDestroy, s, acts, s') ensures !Deadlocked(s', d) {
      NoDestroyIsConnected(s, acts, s');
      ConnectedRunsKeep(s, acts, s');
      TrackedIsValid(s');
      ConnectedWaiters(s');
      OrderedIsDeadlockFree(s', d);
    }
  }

  lemma {:induction false} NoDestroyIsConnected(s: System, acts: seq<Action>, s': System)
    requires LeadsTo(NoDestroy, s, acts, s')
    ensures LeadsTo(ConnectedDrops, s, acts, s')
    decreases |acts|
  {
    if acts != [] {
      var m :| Step(s, acts[0], m) && LeadsTo(NoDestroy, m, acts[1..], s');
      NoDestroyIsConnected(m, acts[1..], s');
    }
  }

  // ----- releasing in reverse order -----

  /** Neighbours on every stack keep a direct dependency, and only the top is ever given up. */
  ghost predicate StacksLinked(s: System) {
    forall t: Tid :: ThreadLinked(s, t)
  }

  ghost predicate ThreadLinked(s: System, t: Tid) {
    && LinkedStack(Edges(s.graph.nodes), s.Stack(t))
    && (s.PhaseOf(t).Unmarking? ==> IsTop(s.Stack(t), s.PhaseOf(t).id))
  }

  lemma LinkedIsOrderedEverywhere(s: System)
    requires StacksLinked(s)
    ensures StacksOrdered(s)
  {
    forall t: Tid ensures OrderedStack(Edges(s.graph.nodes), s.Stack(t)) {
      assert ThreadLinked(s, t);
      LinkedIsOrdered(Edges(s.graph.nodes), s.Stack(t));
    }
  }

  /** Destroying a lock that no thread has on its stack leaves the direct dependencies in place. */
  lemma LinkedDropIsSafe(s: System, id: Id)
    requires StacksLinked(s) && CanDestroy(s, id)
    ensures DropSafe(s, id)
  {
    var fs := Avoiding(Edges(s.graph.nodes), id);
    forall t | t in s.stacks ensures DropSafeFor(s, id, s.stacks[t]) {
      assert ThreadLinked(s, t);
      LinkedAvoids(Edges(s.graph.nodes), s.stacks[t], id);
      LinkedIsOrdered(fs, s.stacks[t]);
    }
  }

  lemma LinkedAvoids(es: set<(Id, Id)>, st: seq<Id>, id: Id)
    requires LinkedStack(es, st) && id !in st
    ensures LinkedStack(Avoiding(es, id), st)
  {
  }

  lemma LifoStepKeepsLinks(s: System, a: Action, s': System)
    requires Tracked(s) && StacksLinked(s) && Step(s, a, s') && Allowed(Lifo, s, a)
    ensures StacksLinked(s')
  {
    hide Valid, LocksOk, MarkHeldStep, CountsFit;
    match a
    case Destroy(id) =>
      WithoutNodeKeeps(s.graph, id);
      LifoDestroy(s, id, s');
    case Request(t, id, mode, blocking, dep) =>
      if s' != s {
        MarkHeldEdges(s.graph, s.Stack(t), id, dep, s'.graph, s.Stack(t) + [id]);
        LifoRequest(s, t, id, s', Edges(s.graph.nodes), Edges(s'.graph.nodes));
      }
    case Unmark(t) => LifoUnmark(s, t, s');
    case _ => LifoElse(s, a, s');
  }

  lemma LifoDestroy(s: System, id: Id, s': System)
    requires StacksLinked(s) && CanDestroy(s, id)
    requires s'.stacks == s.stacks && s'.phases == s.phases
    requires Edges(s'.graph.nodes) == Avoiding(Edges(s.graph.nodes), id)
    ensures StacksLinked(s')
  {
    forall t: Tid ensures ThreadLinked(s', t) {
      assert ThreadLinked(s, t);
      LinkedAvoids(Edges(s.graph.nodes), s.Stack(t), id);
    }
  }

  lemma LifoRequest(s: System, t: Tid, id: Id, s': System, es: set<(Id, Id)>, fs: set<(Id, Id)>)
    requires StacksLinked(s) && es == Edges(s.graph.nodes) <= fs == Edges(s'.graph.nodes)
    requires s.Stack(t) != [] ==> (s.Stack(t)[|s.Stack(t)| - 1], id) in fs
    requires s'.Stack(t) == s.Stack(t) + [id] && !s'.PhaseOf(t).Unmarking?
    requires forall u: Tid :: u != t ==> s'.Stack(u) == s.Stack(u) && s'.PhaseOf(u) == s.PhaseOf(u)
    ensures StacksLinked(s')
  {
    forall u: Tid ensures ThreadLinked(s', u) {
      assert ThreadLinked(s, u);
    }
  }

  lemma LifoUnmark(s: System, t: Tid, s': System)
    requires StacksLinked(s) && Step(s, Unmark(t), s')
    ensures StacksLinked(s')
  {
    forall u: Tid ensures ThreadLinked(s', u) {
      assert ThreadLinked(s, u);
    }
  }

  lemma LifoElse(s: System, a: Action, s': System)
    requires ThreadsOk(s) && StacksLinked(s) && Step(s, a, s') && Allowed(Lifo, s, a)
    requires a.Create? || a.Grant? || a.Refuse? || a.Unlock?
    ensures StacksLinked(s')
  {
    forall u: Tid ensures ThreadLinked(s', u) {
      assert ThreadLinked(s, u) && ThreadOk(s, u);
    }
  }

  /** Releasing in reverse order makes every drop of an unheld lock a safe one. */
  lemma {:induction false} LifoIsOrdered(s: System, acts: seq<Action>, s': System)
    requires Tracked(s) && StacksLinked(s) && LeadsTo(Lifo, s, acts, s')
    ensures LeadsTo(OrderedDrops, s, acts, s')
    decreases |acts|
  {
    if acts != [] {
      var a := acts[0];
      var m :| Step(s, a, m) && LeadsTo(Lifo, m, acts[1..], s');
      LinkedIsOrderedEverywhere(s);
      if a.Destroy? {
        LinkedDropIsSafe(s, a.id);
      }
      StepKeepsTracked(s, a, m);
      LifoStepKeepsLinks(s, a, m);
      LifoIsOrdered(m, acts[1..], s');
    }
  }

  /** No run deadlocks in which every thread unlocks its newest lock only, even though unheld locks may
      be destroyed at any time. */
  lemma LifoNeverDeadlocks(acts: seq<Action>, s: System, d: set<Tid>)
    requires LeadsTo(Free, Initial(), acts, s)
    requires forall k: nat, m :: k < |acts| && LeadsTo(Free, Initial(), acts[..k], m) && acts[k].Unlock? ==>
               IsTop(m.Stack(acts[k].t), acts[k].id)
    ensures !Deadlocked(s, d)
  {
    assert Obeys(Lifo, Initial(), acts);
    hide Obeys;
    ObedientIsDisciplined(Lifo, Initial(), acts, s);
    InitialIsTracked();
    InitialIsLinked();
    LifoIsOrdered(Initial(), acts, s);
    OrderedDropsNeverDeadlock(acts, s, d);
  }

  lemma InitialIsLinked()
    ensures StacksLinked(Initial())
  {
  }
}
