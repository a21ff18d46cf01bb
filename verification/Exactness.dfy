/** When the guarantee fails: a state in which what some thread keeps is not connected can be driven into
    a deadlock, so connection is exactly what destroying a lock must not break. */
module Exactness {
  import opened Reachability
  import opened GraphModel
  import opened LockTracking
  import opened LockWrapper
  import opened LockStacks
  import opened Protocol
  import opened ProtocolInvariant
  import opened Connection
  import opened Enabled
  import opened Deadlock
  import opened Progress

  /** One thread gives back its top lock. */
  lemma ReleaseTop(s: System, t: Tid) returns (acts: seq<Action>, s': System)
    requires Tracked(s) && s.PhaseOf(t).Running? && s.Stack(t) != []
    ensures LeadsTo(NoDestroy, s, acts, s') && Tracked(s') && s'.graph == s.graph
    ensures s'.PhaseOf(t).Running? && s'.Stack(t) == s.Stack(t)[..|s.Stack(t)| - 1]
  {
    var st := s.Stack(t);
    var id := st[|st| - 1];
    assert s.Holds(t, id) by {
      assert ThreadOk(s, t);
      RunningHolds(s, t, id);
    }
    acts, s' := Release(s, t, id);
  }

  /** One thread gives back any lock it holds. */
  lemma Release(s: System, t: Tid, id: Id) returns (acts: seq<Action>, s': System)
    requires Tracked(s) && s.PhaseOf(t).Running? && s.Holds(t, id)
    ensures LeadsTo(NoDestroy, s, acts, s') && Tracked(s') && s'.graph == s.graph
    ensures s'.locks.Keys == s.locks.Keys && s'.nextId == s.nextId
    ensures s'.stacks == s.stacks[t := Released(s.Stack(t), id)]
    ensures s'.phases == s.phases[t := Unmarking(id)][t := Running]
    ensures acts == [Unlock(t, id), Unmark(t)]
  {
    hide Tracked, Released, RequestStep;
    var m := s.(locks := s.locks[id := s.locks[id].Release(t)], phases := s.phases[t := Unmarking(id)]);
    assert Step(s, Unlock(t, id), m);
    StepKeepsTracked(s, Unlock(t, id), m);
    OneStep(NoDestroy, s, Unlock(t, id), m);
    s' := m.(stacks := m.stacks[t := Released(m.Stack(t), id)], phases := m.phases[t := Running]);
    assert Step(m, Unmark(t), s');
    StepKeepsTracked(m, Unmark(t), s');
    OneStep(NoDestroy, m, Unmark(t), s');
    acts := [Unlock(t, id)] + [Unmark(t)];
    LeadsToTransitive(NoDestroy, s, [Unlock(t, id)], m, [Unmark(t)], s');
  }

  lemma {:induction false} ReleaseDownTo(s: System, t: Tid, j: nat) returns (acts: seq<Action>, s': System)
    requires Tracked(s) && s.PhaseOf(t).Running? && j < |s.Stack(t)|
    ensures LeadsTo(NoDestroy, s, acts, s') && Tracked(s') && s'.graph == s.graph
    ensures s'.PhaseOf(t).Running? && s'.Stack(t) == s.Stack(t)[..j + 1]
    decreases |s.Stack(t)|
  {
    acts, s' := [], s;
    if j + 1 < |s.Stack(t)| {
      var first, m := ReleaseTop(s, t);
      var rest;
      rest, s' := ReleaseDownTo(m, t, j);
      acts := first + rest;
      LeadsToTransitive(NoDestroy, s, first, m, rest, s');
    }
  }

  /** If the dependencies do not lead from one entry of a running thread's stack to a later one, the
      thread can be made to wait for the earlier lock, which it still holds. */
  lemma UnconnectedCanDeadlock(s: System, t: Tid, i: nat, j: nat) returns (acts: seq<Action>, s': System)
    requires Tracked(s) && s.PhaseOf(t).Running? && i < j < |s.Stack(t)|
    requires !Reaches(Edges(s.graph.nodes), s.Stack(t)[i], s.Stack(t)[j])
    ensures LeadsTo(NoDestroy, s, acts, s') && Deadlocked(s', {t}) && Valid(s'.graph)
  {
    hide Tracked, Deadlocked, Step, Valid, Reaches;
    var first, m := ReleaseDownTo(s, t, j);
    var id := s.Stack(t)[i];
    assert m.Stack(t)[i] == id && m.Stack(t)[j] == s.Stack(t)[j] && |m.Stack(t)| == j + 1;
    var a := Request(t, id, Exclusive, true, Dep(""));
    s' := SelfWait(m, t, i, a);
    OneStep(NoDestroy, m, a, s');
    LeadsToTransitive(NoDestroy, s, first, m, [a], s');
    acts := first + [a];
  }

  /** A running thread whose dependency would close no cycle can start waiting for any live lock. */
  lemma StartWaiting(s: System, t: Tid, id: Id, a: Action) returns (s': System)
    requires Tracked(s) && s.PhaseOf(t).Running? && id in s.locks
    requires s.Stack(t) != [] ==> !Reaches(Edges(s.graph.nodes), id, s.Stack(t)[|s.Stack(t)| - 1])
    requires a == Request(t, id, Exclusive, true, Dep(""))
    ensures Step(s, a, s') && Valid(s'.graph)
    ensures s'.stacks == s.stacks[t := s.Stack(t) + [id]]
    ensures s'.phases == s.phases[t := Waiting(id, Exclusive)]
    ensures s'.locks == s.locks && s'.nextId == s.nextId
    ensures Edges(s'.graph.nodes) ==
            if s.Stack(t) == [] then Edges(s.graph.nodes)
            else Edges(s.graph.nodes) + {(s.Stack(t)[|s.Stack(t)| - 1], id)}
  {
    var st := s.Stack(t);
    var accepted, g := MarkHeldAnswers(s.graph, st, id, a.dep);
    MarkHeldEdges(s.graph, st, id, a.dep, g, st + [id]);
    s' := s.(graph := g, stacks := s.stacks[t := st + [id]], phases := s.phases[t := Waiting(id, Exclusive)]);
    assert RequestStep(s, t, id, Waiting(id, Exclusive), a.dep, s');
  }

  lemma SelfWait(m: System, t: Tid, i: nat, a: Action) returns (s': System)
    requires Tracked(m) && m.PhaseOf(t).Running? && i < |m.Stack(t)| - 1
    requires !Reaches(Edges(m.graph.nodes), m.Stack(t)[i], m.Stack(t)[|m.Stack(t)| - 1])
    requires a == Request(t, m.Stack(t)[i], Exclusive, true, Dep(""))
    ensures Step(m, a, s') && Deadlocked(s', {t}) && Valid(s'.graph)
  {
    var id := m.Stack(t)[i];
    assert ThreadOk(m, t);
    RunningHolds(m, t, id);
    s' := StartWaiting(m, t, id, a);
    WaitsForItself(s', t);
  }

  lemma WaitsForItself(s: System, t: Tid)
    requires s.PhaseOf(t).Waiting? && s.Holds(t, s.PhaseOf(t).id)
    ensures Deadlocked(s, {t})
  {
  }

  // ----- leaving a call -----

  /** A waiting thread gets its lock in the end, its stack and the graph being what they were. */
  lemma {:induction false} GrantedAtLast(s: System, t: Tid, threads: nat) returns (acts: seq<Action>, s': System)
    requires Tracked(s) && SafeForEver(s) && Involves(s, threads) && s.PhaseOf(t).Waiting?
    ensures LeadsTo(NoDestroy, s, acts, s') && Tracked(s')
    ensures s'.PhaseOf(t).Running? && s'.Stack(t) == s.Stack(t) && s'.graph == s.graph
    decreases Work(s, threads)
  {
    hide Tracked, SafeForEver, Involves, Work, LeadsTo;
    var a, m := Resolve(s, threads);
    WaiterStays(s, a, m, t);
    acts, s' := [a], m;
    if !m.PhaseOf(t).Running? {
      var rest;
      rest, s' := GrantedAtLast(m, t, threads);
      LeadsToTransitive(NoDestroy, s, [a], m, rest, s');
      acts := [a] + rest;
    }
  }

  /** Resolving steps leave a waiting thread alone until it is granted its lock. */
  lemma WaiterStays(s: System, a: Action, m: System, t: Tid)
    requires Resolving(a) && Step(s, a, m) && s.PhaseOf(t).Waiting?
    ensures m.graph == s.graph && m.Stack(t) == s.Stack(t)
    ensures m.PhaseOf(t) == s.PhaseOf(t) || m.PhaseOf(t).Running?
  {
  }

  /** Every thread can get out of the call it is in; what it has then is what it keeps. */
  lemma Settle(s: System, t: Tid) returns (acts: seq<Action>, s': System)
    requires Tracked(s) && SafeForEver(s)
    ensures LeadsTo(NoDestroy, s, acts, s') && Tracked(s')
    ensures s'.PhaseOf(t).Running? && s'.Stack(t) == s.Kept(t) && s'.graph == s.graph
  {
    hide Tracked, SafeForEver, LeadsTo;
    match s.PhaseOf(t)
    case Running =>
      acts, s' := [], s;
      NoStep(NoDestroy, s);
    case Waiting(_, _) =>
      var threads := Participants(s);
      acts, s' := GrantedAtLast(s, t, threads);
    case Trying(id, _) =>
      var m := s.(phases := s.phases[t := Unmarking(id)]);
      assert Step(s, Refuse(t), m);
      StepKeepsTracked(s, Refuse(t), m);
      OneStep(NoDestroy, s, Refuse(t), m);
      s' := TakeMarkBack(m, t);
      LeadsToTransitive(NoDestroy, s, [Refuse(t)], m, [Unmark(t)], s');
      acts := [Refuse(t)] + [Unmark(t)];
    case Unmarking(_) =>
      s' := TakeMarkBack(s, t);
      acts := [Unmark(t)];
  }

  lemma TakeMarkBack(s: System, t: Tid) returns (s': System)
    requires Tracked(s) && s.PhaseOf(t).Unmarking?
    ensures LeadsTo(NoDestroy, s, [Unmark(t)], s') && Tracked(s')
    ensures s'.PhaseOf(t).Running? && s'.Stack(t) == Released(s.Stack(t), s.PhaseOf(t).id) && s'.graph == s.graph
  {
    hide Tracked, Released;
    s' := s.(stacks := s.stacks[t := Released(s.Stack(t), s.PhaseOf(t).id)], phases := s.phases[t := Running]);
    assert Step(s, Unmark(t), s');
    StepKeepsTracked(s, Unmark(t), s');
    OneStep(NoDestroy, s, Unmark(t), s');
  }

  // ----- the exact condition -----

  /** A state with no deadlock ahead of it has everything connected that its threads keep. */
  lemma SafeIsConnected(s: System)
    requires Tracked(s) && SafeForEver(s)
    ensures StacksConnected(s)
  {
    hide Tracked, SafeForEver, Reaches, Deadlocked, LeadsTo;
    var es := Edges(s.graph.nodes);
    forall t: Tid, i: nat, j: nat | i < j < |s.Kept(t)| ensures Reaches(es, s.Kept(t)[i], s.Kept(t)[j]) {
      if !Reaches(es, s.Kept(t)[i], s.Kept(t)[j]) {
        var acts, m := Settle(s, t);
        var more, s' := UnconnectedCanDeadlock(m, t, i, j);
        LeadsToTransitive(NoDestroy, s, acts, m, more, s');
        SafeUntil(s, acts + more, s', {t});
      }
    }
  }

  lemma SafeUntil(s: System, acts: seq<Action>, s': System, d: set<Tid>)
    requires SafeForEver(s) && LeadsTo(NoDestroy, s, acts, s')
    ensures !Deadlocked(s', d)
  {
  }

  lemma SafeExactlyWhenConnected(s: System)
    requires Tracked(s) && TopsLinked(s)
    ensures SafeForEver(s) <==> StacksConnected(s)
  {
    hide Tracked, TopsLinked, StacksConnected, SafeForEver;
    if StacksConnected(s) {
      ConnectedIsSafe(s);
    }
    if SafeForEver(s) {
      SafeIsConnected(s);
    }
  }

  /** In any state that any run reaches, whoever is in the middle of what call and however locks were
      released and destroyed before: no future without destruction deadlocks if and only if everything
      the threads keep is connected. */
  lemma ReachableIsSafeExactly(acts: seq<Action>, s: System)
    requires LeadsTo(Free, Initial(), acts, s)
    ensures SafeForEver(s) <==> StacksConnected(s)
  {
    InitialIsConnected();
    RunsKeepTopsLinked(Initial(), acts, s);
    SafeExactlyWhenConnected(s);
  }

  /** At any point of any run: destroying a lock leaves no deadlock ahead if and only if everything the
      threads keep stays connected without that lock. */
  lemma DestroyIsSafeExactly(acts: seq<Action>, s: System, id: Id, s': System)
    requires LeadsTo(Free, Initial(), acts, s) && Step(s, Destroy(id), s')
    ensures SafeForEver(s') <==> DropConnected(s, id)
  {
    InitialIsConnected();
    RunsKeepTopsLinked(Initial(), acts, s);
    hide TopsLinked, StacksConnected, SafeForEver, DropConnected, LeadsTo;
    TrackedIsValid(s);
    StepKeepsTracked(s, Destroy(id), s');
    StepKeepsTopsLinked(s, Destroy(id), s');
    SafeExactlyWhenConnected(s');
    DestroyedConnection(s, id, s');
  }

  /** The states a run goes through have no deadlock ahead of them, the first and the last included. */
  ghost predicate SafeThroughout(s: System, acts: seq<Action>, s': System)
    decreases |acts|
  {
    SafeForEver(s) &&
    if acts == [] then s' == s
    else exists m :: Step(s, acts[0], m) && SafeThroughout(m, acts[1..], s')
  }

  /** The weakest discipline: a run never has a deadlock ahead of it exactly when every lock it destroys
      leaves what the threads keep connected. */
  lemma SafeRunsExactly(acts: seq<Action>, s: System)
    ensures SafeThroughout(Initial(), acts, s) <==> LeadsTo(ConnectedDrops, Initial(), acts, s)
  {
    InitialIsConnected();
    SafeRunsFrom(Initial(), acts, s);
  }

  lemma {:induction false} SafeRunsFrom(s: System, acts: seq<Action>, s': System)
    requires Tracked(s) && TopsLinked(s) && StacksConnected(s)
    ensures SafeThroughout(s, acts, s') <==> LeadsTo(ConnectedDrops, s, acts, s')
    decreases |acts|
  {
    hide Tracked, TopsLinked, StacksConnected, SafeForEver, DropConnected, Step;
    ConnectedIsSafe(s);
    if acts != [] {
      forall m | Step(s, acts[0], m)
        ensures SafeThroughout(m, acts[1..], s') <==>
                Allowed(ConnectedDrops, s, acts[0]) && LeadsTo(ConnectedDrops, m, acts[1..], s')
      {
        SafeStep(s, acts[0], m);
        if StacksConnected(m) {
          SafeRunsFrom(m, acts[1..], s');
        }
      }
    }
  }

  lemma SafeStep(s: System, a: Action, m: System)
    requires Tracked(s) && TopsLinked(s) && StacksConnected(s) && Step(s, a, m)
    ensures Tracked(m) && TopsLinked(m)
    ensures SafeForEver(m) <==> StacksConnected(m)
    ensures StacksConnected(m) <==> Allowed(ConnectedDrops, s, a)
  {
    TrackedIsValid(s);
    StepKeepsTracked(s, a, m);
    StepKeepsTopsLinked(s, a, m);
    SafeExactlyWhenConnected(m);
    hide Tracked, TopsLinked, StacksConnected, SafeForEver, DropConnected;
    if a.Destroy? {
      DestroyedConnection(s, a.id, m);
    } else {
      StepKeepsConnection(s, a, m);
    }
  }
}
