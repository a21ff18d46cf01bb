/** When each step is possible, and that it leads to one state only: the transition system neither loses
    an action of the program nor leaves one open (src/lib.rs). */
module Enabled {
  import opened Reachability
  import opened GraphModel
  import opened Insertion
  import opened Totality
  import opened LockTracking
  import opened LockWrapper
  import opened Protocol
  import opened ProtocolInvariant

  // ----- creation -----

  lemma CreateIsPossibleExactly(s: System)
    ensures (exists s' :: Step(s, Create, s')) <==> s.nextId < 0xFFFF_FFFF_FFFF_FFFF
  {
    if s.nextId < 0xFFFF_FFFF_FFFF_FFFF {
      assert Step(s, Create, s.(nextId := s.nextId + 1, locks := s.locks[s.nextId := FREE]));
    }
  }

  function Creations(n: nat): (acts: seq<Action>)
    ensures |acts| == n && forall i :: 0 <= i < n ==> acts[i] == Create
  {
    seq(n, i => Create)
  }

  /** As many locks as there are ids can be created, numbered from 0, and then no more. */
  lemma {:induction false} ManyCreations(n: nat) returns (s: System)
    requires n <= 0xFFFF_FFFF_FFFF_FFFF
    ensures LeadsTo(NoDestroy, Initial(), Creations(n), s)
    ensures forall id: Id :: id in s.locks <==> id < n
    ensures forall id :: id in s.locks ==> s.locks[id] == FREE
    ensures s.nextId == n && s.graph == Empty() && s.stacks == map[] && s.phases == map[]
    ensures (exists s' :: Step(s, Create, s')) <==> n < 0xFFFF_FFFF_FFFF_FFFF
    decreases n
  {
    hide LeadsTo;
    if n == 0 {
      s := Initial();
      NoStep(NoDestroy, s);
      assert Creations(0) == [];
    } else {
      var m := ManyCreations(n - 1);
      s := m.(nextId := n, locks := m.locks[n - 1 := FREE]);
      assert Step(m, Create, s);
      OneStep(NoDestroy, m, Create, s);
      LeadsToTransitive(NoDestroy, Initial(), Creations(n - 1), m, [Create], s);
      assert Creations(n) == Creations(n - 1) + [Create];
    }
    CreateIsPossibleExactly(s);
  }

  // ----- destruction -----

  /** A live lock can be destroyed at any time at which no thread holds it or is in a call about it,
      whatever else is going on. */
  lemma DestroyIsPossibleExactly(s: System, id: Id)
    requires Tracked(s)
    ensures (exists s' :: Step(s, Destroy(id), s')) <==>
            id in s.locks && forall t: Tid :: !s.Holds(t, id) && !s.PhaseOf(t).Pending(id)
  {
    hide Valid, LocksOk;
    forall t: Tid ensures id in s.Stack(t) <==> s.Holds(t, id) || s.PhaseOf(t).Pending(id) {
      assert ThreadOk(s, t);
      assert multiset(s.Stack(t))[id] == s.HoldCount(t, id) + (if s.PhaseOf(t).Pending(id) then 1 else 0);
    }
    assert CanDestroy(s, id) <==> id in s.locks && forall t: Tid :: id !in s.Stack(t) by {
      if CanDestroy(s, id) {
        forall t: Tid ensures id !in s.Stack(t) {
        }
      }
      if id in s.locks && forall t: Tid :: id !in s.Stack(t) {
        forall t | t in s.stacks ensures id !in s.stacks[t] {
          assert id !in s.Stack(t);
        }
      }
    }
    if CanDestroy(s, id) {
      assert Step(s, Destroy(id), s.(graph := WithoutNode(s.graph, id), locks := s.locks - {id}));
    }
  }

  // ----- requests -----

  /** A thread outside all calls can ask for any live lock. */
  lemma RequestIsPossibleExactly(s: System, t: Tid, id: Id, mode: Mode, blocking: bool, dep: Dep)
    requires Tracked(s)
    ensures (exists s' :: Step(s, Request(t, id, mode, blocking, dep), s')) <==>
            s.PhaseOf(t).Running? && id in s.locks
  {
    hide Tracked, MarkHeldStep;
    if s.PhaseOf(t).Running? && id in s.locks {
      var st, next := s.Stack(t), if blocking then Waiting(id, mode) else Trying(id, mode);
      TrackedIsValid(s);
      var accepted, g := MarkHeldAnswers(s.graph, st, id, dep);
      if accepted {
        var s' := s.(graph := g, stacks := s.stacks[t := st + [id]], phases := s.phases[t := next]);
        assert RequestStep(s, t, id, next, dep, s');
        assert Step(s, Request(t, id, mode, blocking, dep), s');
      } else {
        assert RequestStep(s, t, id, next, dep, s);
        assert Step(s, Request(t, id, mode, blocking, dep), s);
      }
    }
  }

  lemma MarkHeldAnswers(g: Deps, st: seq<Id>, id: Id, dep: Dep) returns (accepted: bool, g': Deps)
    requires Valid(g)
    ensures MarkHeldStep(g, st, id, dep, accepted, g', if accepted then st + [id] else st)
    ensures accepted <==> st == [] || !Reaches(Edges(g.nodes), id, st[|st| - 1])
    ensures !accepted ==> g' == g
  {
    accepted, g' := true, g;
    if st != [] {
      accepted, g' := AddEdgeHasOutcome(g, st[|st| - 1], id, dep);
    }
  }

  /** The request is turned down, and changes nothing, exactly when the lock leads to the thread's newest
      one; otherwise the thread is in the call it asked for. */
  lemma RequestIsRejectedExactly(s: System, t: Tid, id: Id, mode: Mode, blocking: bool, dep: Dep, s': System)
    requires Step(s, Request(t, id, mode, blocking, dep), s')
    ensures var st := s.Stack(t);
            if st != [] && Reaches(Edges(s.graph.nodes), id, st[|st| - 1]) then s' == s
            else s'.Stack(t) == st + [id] &&
                 s'.PhaseOf(t) == if blocking then Waiting(id, mode) else Trying(id, mode)
  {
  }

  // ----- one outcome -----

  lemma StepIsDeterministic(s: System, a: Action, s1: System, s2: System)
    requires Valid(s.graph) && Step(s, a, s1) && Step(s, a, s2)
    ensures s1 == s2
  {
    hide Valid, AddEdgeStep;
    if a.Request? {
      RequestIsRejectedExactly(s, a.t, a.id, a.mode, a.blocking, a.dep, s1);
      RequestIsRejectedExactly(s, a.t, a.id, a.mode, a.blocking, a.dep, s2);
      if s1 != s {
        MarkHeldIsDeterministic(s.graph, s.Stack(a.t), a.id, a.dep, s1.graph, s2.graph);
      }
    }
  }

  lemma MarkHeldIsDeterministic(g: Deps, st: seq<Id>, id: Id, dep: Dep, g1: Deps, g2: Deps)
    requires Valid(g)
    requires MarkHeldStep(g, st, id, dep, true, g1, st + [id]) && MarkHeldStep(g, st, id, dep, true, g2, st + [id])
    ensures g1 == g2
  {
    if st != [] {
      AddEdgeIsDeterministic(g, st[|st| - 1], id, dep, true, g1, true, g2);
    }
  }

  /** The actions taken determine the state, accepted and rejected requests included. */
  lemma {:induction false} RunIsDeterministic(s: System, acts: seq<Action>, s1: System, s2: System)
    requires Tracked(s) && LeadsTo(Free, s, acts, s1) && LeadsTo(Free, s, acts, s2)
    ensures s1 == s2
    decreases |acts|
  {
    hide Step, Tracked;
    if acts != [] {
      var m1 :| Step(s, acts[0], m1) && LeadsTo(Free, m1, acts[1..], s1);
      var m2 :| Step(s, acts[0], m2) && LeadsTo(Free, m2, acts[1..], s2);
      TrackedIsValid(s);
      StepIsDeterministic(s, acts[0], m1, m2);
      StepKeepsTracked(s, acts[0], m1);
      RunIsDeterministic(m1, acts[1..], s1, s2);
    }
  }

  // ----- disciplined runs -----

  /** Every step of the run is one that the discipline allows in the state the run has reached. */
  ghost predicate Obeys(d: Discipline, s: System, acts: seq<Action>) {
    forall k: nat, m :: k < |acts| && LeadsTo(Free, s, acts[..k], m) ==> Allowed(d, m, acts[k])
  }

  lemma {:induction false} ObedientIsDisciplined(d: Discipline, s: System, acts: seq<Action>, s': System)
    requires LeadsTo(Free, s, acts, s') && Obeys(d, s, acts)
    ensures LeadsTo(d, s, acts, s')
    decreases |acts|
  {
    hide Step, Allowed;
    if acts != [] {
      var n := |acts| - 1;
      var m := LastStep(Free, s, acts, s');
      forall k: nat, m' | k < n && LeadsTo(Free, s, acts[..n][..k], m') ensures Allowed(d, m', acts[..n][k]) {
        assert acts[..n][..k] == acts[..k];
      }
      ObedientIsDisciplined(d, s, acts[..n], m);
      hide LeadsTo;
      OneStep(d, m, acts[n], s');
      LeadsToTransitive(d, s, acts[..n], m, [acts[n]], s');
      assert acts == acts[..n] + [acts[n]];
    }
  }
}
