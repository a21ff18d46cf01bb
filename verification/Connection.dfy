/** The weakest property of the stacks that rules out deadlock for good: of the locks a thread keeps,
    each leads to the later ones. How every step keeps it, and when a destruction does. */
module Connection {
  import opened Reachability
  import opened GraphModel
  import opened LockTracking
  import opened LockWrapper
  import opened LockStacks
  import opened Protocol
  import opened ProtocolInvariant

  ghost predicate StacksConnected(s: System) {
    forall t: Tid :: ConnectedStack(Edges(s.graph.nodes), s.Kept(t))
  }

  /** A lock being acquired has its dependency on the entry below it. Destruction cannot take that away:
      both ends are on a stack. */
  ghost predicate TopLinked(es: set<(Id, Id)>, p: Phase, st: seq<Id>) {
    (p.Waiting? || p.Trying?) && |st| >= 2 ==> (st[|st| - 2], st[|st| - 1]) in es
  }

  ghost predicate TopsLinked(s: System) {
    forall t: Tid :: TopLinked(Edges(s.graph.nodes), s.PhaseOf(t), s.Stack(t))
  }

  /** Whatever a waiting thread has below the lock it waits for leads to that lock. */
  ghost predicate WaiterOrdered(es: set<(Id, Id)>, p: Phase, st: seq<Id>) {
    p.Waiting? ==> forall i :: 0 <= i < |st| - 1 ==> Precedes(es, st[i], st[|st| - 1])
  }

  ghost predicate WaitersOrdered(s: System) {
    forall t: Tid :: WaiterOrdered(Edges(s.graph.nodes), s.PhaseOf(t), s.Stack(t))
  }

  // ----- pending locks stay linked -----

  lemma StepKeepsTopsLinked(s: System, a: Action, s': System)
    requires Valid(s.graph) && TopsLinked(s) && Step(s, a, s')
    ensures TopsLinked(s')
  {
    hide Valid, MarkHeldStep, WithoutNode, Edges;
    match a
    case Destroy(id) =>
      WithoutNodeKeeps(s.graph, id);
      DestroyKeepsLinks(s, id, s');
    case Request(t, id, mode, blocking, dep) =>
      if s' != s {
        MarkHeldEdges(s.graph, s.Stack(t), id, dep, s'.graph, s.Stack(t) + [id]);
        RequestKeepsLinks(s, t, id, s', Edges(s.graph.nodes), Edges(s'.graph.nodes));
      }
    case _ => OthersKeepLinks(s, a, s');
  }

  lemma DestroyKeepsLinks(s: System, id: Id, s': System)
    requires TopsLinked(s) && CanDestroy(s, id) && s'.stacks == s.stacks && s'.phases == s.phases
    requires Edges(s'.graph.nodes) == Avoiding(Edges(s.graph.nodes), id)
    ensures TopsLinked(s')
  {
    forall t: Tid ensures TopLinked(Edges(s'.graph.nodes), s'.PhaseOf(t), s'.Stack(t)) {
      assert TopLinked(Edges(s.graph.nodes), s.PhaseOf(t), s.Stack(t));
      assert id !in s.Stack(t);
    }
  }

  lemma RequestKeepsLinks(s: System, t: Tid, id: Id, s': System, es: set<(Id, Id)>, fs: set<(Id, Id)>)
    requires TopsLinked(s) && es == Edges(s.graph.nodes) <= fs == Edges(s'.graph.nodes)
    requires s.Stack(t) != [] ==> (s.Stack(t)[|s.Stack(t)| - 1], id) in fs
    requires s'.Stack(t) == s.Stack(t) + [id]
    requires forall u: Tid :: u != t ==> s'.Stack(u) == s.Stack(u) && s'.PhaseOf(u) == s.PhaseOf(u)
    ensures TopsLinked(s')
  {
    forall u: Tid ensures TopLinked(fs, s'.PhaseOf(u), s'.Stack(u)) {
      assert TopLinked(es, s.PhaseOf(u), s.Stack(u));
    }
  }

  lemma OthersKeepLinks(s: System, a: Action, s': System)
    requires TopsLinked(s) && Step(s, a, s') && !a.Destroy? && !a.Request?
    ensures TopsLinked(s')
  {
    forall u: Tid ensures TopLinked(Edges(s'.graph.nodes), s'.PhaseOf(u), s'.Stack(u)) {
      assert TopLinked(Edges(s.graph.nodes), s.PhaseOf(u), s.Stack(u));
    }
  }

  // ----- kept locks stay connected -----

  /** Every step keeps what the threads keep connected, save the destruction of the only link between
      two kept locks. */
  lemma StepKeepsConnection(s: System, a: Action, s': System)
    requires Tracked(s) && TopsLinked(s) && StacksConnected(s) && Step(s, a, s')
    requires a.Destroy? ==> DropConnected(s, a.id)
    ensures StacksConnected(s')
  {
    hide Valid, LocksOk, MarkHeldStep, WithoutNode, Edges, CountsFit, Released;
    match a
    case Destroy(id) => DestroyedConnection(s, id, s');
    case Request(t, id, mode, blocking, dep) =>
      if s' != s {
        MarkHeldEdges(s.graph, s.Stack(t), id, dep, s'.graph, s.Stack(t) + [id]);
        RequestedConnection(s, t, id, s', Edges(s.graph.nodes), Edges(s'.graph.nodes));
      }
    case _ => OthersKeepConnection(s, a, s');
  }

  /** After a lock is destroyed what the threads keep is connected exactly if it was without that lock. */
  lemma DestroyedConnection(s: System, id: Id, s': System)
    requires Valid(s.graph) && Step(s, Destroy(id), s')
    ensures StacksConnected(s') <==> DropConnected(s, id)
  {
    hide Valid, StacksConnected, DropConnected;
    WithoutNodeKeeps(s.graph, id);
    SameKept(s, id, s');
  }

  lemma SameKept(s: System, id: Id, s': System)
    requires s'.stacks == s.stacks && s'.phases == s.phases
    requires Edges(s'.graph.nodes) == Avoiding(Edges(s.graph.nodes), id)
    ensures StacksConnected(s') <==> DropConnected(s, id)
  {
    hide Released, ConnectedStack, Edges, Avoiding;
    assert forall t: Tid :: s'.Kept(t) == s.Kept(t);
  }

  lemma RequestedConnection(s: System, t: Tid, id: Id, s': System, es: set<(Id, Id)>, fs: set<(Id, Id)>)
    requires StacksConnected(s) && es == Edges(s.graph.nodes) <= fs == Edges(s'.graph.nodes)
    requires s.Stack(t) != [] ==> (s.Stack(t)[|s.Stack(t)| - 1], id) in fs
    requires s.PhaseOf(t).Running? && s'.Stack(t) == s.Stack(t) + [id]
    requires s'.PhaseOf(t).Waiting? || (s'.PhaseOf(t).Trying? && s'.PhaseOf(t).id == id)
    requires forall u: Tid :: u != t ==> s'.Stack(u) == s.Stack(u) && s'.PhaseOf(u) == s.PhaseOf(u)
    ensures StacksConnected(s')
  {
    hide Edges, ConnectedStack;
    forall u: Tid ensures ConnectedStack(fs, s'.Kept(u)) {
      assert ConnectedStack(es, s.Kept(u));
      ConnectedStackMonotone(es, fs, s.Kept(u));
      if u == t {
        ConnectedStackPush(fs, s.Stack(t), id);
        PushedThenReleased(s.Stack(t), id);
      }
    }
  }

  lemma PushedThenReleased(st: seq<Id>, id: Id)
    ensures Released(st + [id], id) == st
  {
  }

  lemma OthersKeepConnection(s: System, a: Action, s': System)
    requires ThreadsOk(s) && TopsLinked(s) && StacksConnected(s) && Step(s, a, s')
    requires !a.Destroy? && !a.Request?
    ensures StacksConnected(s')
  {
    hide ConnectedStack, Released, CountsFit;
    var es := Edges(s.graph.nodes);
    forall u: Tid ensures ConnectedStack(es, s'.Kept(u)) {
      assert ThreadOk(s, u) && ConnectedStack(es, s.Kept(u));
      if !a.Create? && a.t == u {
        ActorKeepsConnection(s, a, s', es);
      }
    }
  }

  lemma ActorKeepsConnection(s: System, a: Action, s': System, es: set<(Id, Id)>)
    requires a.Grant? || a.Refuse? || a.Unlock? || a.Unmark?
    requires ThreadOk(s, a.t) && Step(s, a, s')
    requires ConnectedStack(es, s.Kept(a.t)) && TopLinked(es, s.PhaseOf(a.t), s.Stack(a.t))
    ensures ConnectedStack(es, s'.Kept(a.t))
  {
    hide ConnectedStack, Released, RequestStep;
    match a
    case Grant(t) => GrantKeepsConnection(s, t, es);
    case Refuse(t) =>
    case Unlock(t, id) =>
      RunningHolds(s, t, id);
      ConnectedStackRelease(es, s.Stack(t), id);
    case Unmark(t) =>
  }

  /** The link below an attempted lock connects it when the attempt succeeds. */
  lemma GrantKeepsConnection(s: System, t: Tid, es: set<(Id, Id)>)
    requires PhaseFits(s.PhaseOf(t), s.Stack(t)) && (s.PhaseOf(t).Waiting? || s.PhaseOf(t).Trying?)
    requires ConnectedStack(es, s.Kept(t)) && TopLinked(es, s.PhaseOf(t), s.Stack(t))
    ensures ConnectedStack(es, s.Stack(t))
  {
    hide ConnectedStack;
    var st := s.Stack(t);
    var n := |st| - 1;
    assert st == st[..n] + [st[n]];
    if s.PhaseOf(t).Trying? {
      PushedThenReleased(st[..n], st[n]);
      ConnectedStackPush(es, st[..n], st[n]);
    }
  }

  // ----- what connection is for -----

  lemma ConnectedWaiters(s: System)
    requires ThreadsOk(s) && TopsLinked(s) && StacksConnected(s)
    ensures WaitersOrdered(s)
  {
    var es := Edges(s.graph.nodes);
    forall t: Tid ensures WaiterOrdered(es, s.PhaseOf(t), s.Stack(t)) {
      var st := s.Stack(t);
      if s.PhaseOf(t).Waiting? {
        assert ThreadOk(s, t) && ConnectedStack(es, s.Kept(t)) && TopLinked(es, s.PhaseOf(t), st);
        ConnectedStackPush(es, st[..|st| - 1], st[|st| - 1]);
      }
    }
  }

  lemma OrderedWaiters(s: System)
    requires StacksOrdered(s)
    ensures WaitersOrdered(s)
  {
    var es := Edges(s.graph.nodes);
    forall t: Tid ensures WaiterOrdered(es, s.PhaseOf(t), s.Stack(t)) {
      assert OrderedStack(es, s.Stack(t));
    }
  }

  // ----- runs -----

  lemma InitialIsConnected()
    ensures Tracked(Initial()) && TopsLinked(Initial()) && StacksConnected(Initial())
  {
    InitialIsTracked();
  }

  /** In every run whatsoever pending locks stay linked to the entry below them. */
  lemma {:induction false} RunsKeepTopsLinked(s: System, acts: seq<Action>, s': System)
    requires Tracked(s) && TopsLinked(s) && LeadsTo(Free, s, acts, s')
    ensures Tracked(s') && TopsLinked(s')
    decreases |acts|
  {
    hide Tracked, TopsLinked, Step;
    if acts != [] {
      var m :| Step(s, acts[0], m) && LeadsTo(Free, m, acts[1..], s');
      StepKeepsTracked(s, acts[0], m);
      TrackedIsValid(s);
      StepKeepsTopsLinked(s, acts[0], m);
      RunsKeepTopsLinked(m, acts[1..], s');
    }
  }

  /** Every run whose destructions leave kept locks connected keeps them connected. */
  lemma {:induction false} ConnectedRunsKeep(s: System, acts: seq<Action>, s': System)
    requires Tracked(s) && TopsLinked(s) && StacksConnected(s) && LeadsTo(ConnectedDrops, s, acts, s')
    ensures Tracked(s') && TopsLinked(s') && StacksConnected(s')
    decreases |acts|
  {
    hide Tracked, TopsLinked, StacksConnected, DropConnected, Step;
    if acts != [] {
      var m :| Step(s, acts[0], m) && LeadsTo(ConnectedDrops, m, acts[1..], s');
      StepKeepsTracked(s, acts[0], m);
      TrackedIsValid(s);
      StepKeepsTopsLinked(s, acts[0], m);
      StepKeepsConnection(s, acts[0], m);
      ConnectedRunsKeep(m, acts[1..], s');
    }
  }

  // ----- the stricter condition -----

  lemma DropSafeIsConnected(s: System, id: Id)
    requires Tracked(s) && DropSafe(s, id)
    ensures DropConnected(s, id)
  {
    var fs := Avoiding(Edges(s.graph.nodes), id);
    forall t: Tid ensures ConnectedStack(fs, s.Kept(t)) {
      assert ThreadOk(s, t);
      var st := s.Stack(t);
      assert OrderedStack(fs, st) by {
        if t in s.stacks {
          assert DropSafeFor(s, id, s.stacks[t]);
        }
      }
      KeptIsConnected(s, t, fs);
    }
  }

  lemma KeptIsConnected(s: System, t: Tid, fs: set<(Id, Id)>)
    requires ThreadOk(s, t) && OrderedStack(fs, s.Stack(t))
    ensures ConnectedStack(fs, s.Kept(t))
  {
    OrderedIsConnected(fs, s.Stack(t));
    if s.PhaseOf(t).Trying? || s.PhaseOf(t).Unmarking? {
      ConnectedStackRelease(fs, s.Stack(t), s.PhaseOf(t).id);
    }
  }

  /** A destruction that keeps whole stacks ordered keeps what the threads keep connected. */
  lemma {:induction false} OrderedDropsAreConnected(s: System, acts: seq<Action>, s': System)
    requires Tracked(s) && LeadsTo(OrderedDrops, s, acts, s')
    ensures LeadsTo(ConnectedDrops, s, acts, s')
    decreases |acts|
  {
    hide Tracked, DropSafe, DropConnected, Step;
    if acts != [] {
      var m :| Step(s, acts[0], m) && LeadsTo(OrderedDrops, m, acts[1..], s');
      StepKeepsTracked(s, acts[0], m);
      if acts[0].Destroy? {
        DropSafeIsConnected(s, acts[0].id);
      }
      OrderedDropsAreConnected(m, acts[1..], s');
    }
  }
}
