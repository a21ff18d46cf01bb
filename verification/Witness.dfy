/** A run that deadlocks although its graph has no cycle: out-of-order release and destruction are safe
    each alone, and not together (src/lib.rs). */
module Witness {
  import opened Reachability
  import opened GraphModel
  import opened LockTracking
  import opened LockWrapper
  import opened Protocol
  import opened ProtocolInvariant
  import opened Exactness

  ghost function Dependencies(s: System): set<(Id, Id)> {
    Edges(s.graph.nodes)
  }

  function AskFor(id: Id): Action {
    Request(0, id, Exclusive, true, Dep(""))
  }

  function Taking(id: Id): seq<Action> {
    [AskFor(id), Grant(0)]
  }

  /** Three new locks. Thread 0 takes 0, 1 and 2 and gives 1 back before 2; lock 1 is destroyed, and the
      thread asks for 0 again. */
  function BadRun(): seq<Action> {
    [Create, Create, Create] + Taking(0) + Taking(1) + Taking(2)
    + [Unlock(0, 1), Unmark(0)] + [Destroy(1)] + [AskFor(0)]
  }

  /** Thread 0 takes the free lock `id`. */
  lemma Take(s: System, id: Id) returns (s': System)
    requires Tracked(s) && s.PhaseOf(0).Running?
    requires id in s.locks && s.locks[id] == FREE && id !in s.Stack(0)
    requires s.Stack(0) != [] ==> !Reaches(Dependencies(s), id, s.Stack(0)[|s.Stack(0)| - 1])
    ensures LeadsTo(Free, s, Taking(id), s') && Tracked(s')
    ensures s'.stacks == s.stacks[0 := s.Stack(0) + [id]] && s'.PhaseOf(0).Running?
    ensures s'.locks == s.locks[id := FREE.Acquire(0, Exclusive)]
    ensures Dependencies(s') == if s.Stack(0) == [] then Dependencies(s)
                                else Dependencies(s) + {(s.Stack(0)[|s.Stack(0)| - 1], id)}
  {
    hide Tracked, Edges, Reaches, Step, LeadsTo;
    var m := StartWaiting(s, 0, id, AskFor(id));
    StepKeepsTracked(s, AskFor(id), m);
    OneStep(Free, s, AskFor(id), m);
    s' := GrantFree(m, id);
    LeadsToTransitive(Free, s, [AskFor(id)], m, [Grant(0)], s');
    assert [AskFor(id)] + [Grant(0)] == Taking(id);
  }

  lemma GrantFree(m: System, id: Id) returns (s': System)
    requires Tracked(m) && id in m.locks && m.locks[id] == FREE && m.PhaseOf(0) == Waiting(id, Exclusive)
    ensures LeadsTo(Free, m, [Grant(0)], s') && Tracked(s')
    ensures s' == m.(locks := m.locks[id := FREE.Acquire(0, Exclusive)], phases := m.phases[0 := Running])
  {
    s' := m.(locks := m.locks[id := FREE.Acquire(0, Exclusive)], phases := m.phases[0 := Running]);
    assert Step(m, Grant(0), s');
    StepKeepsTracked(m, Grant(0), s');
    OneStep(Free, m, Grant(0), s');
  }

  lemma NoWayFrom(es: set<(Id, Id)>, a: Id, b: Id)
    requires a != b && forall c :: (a, c) !in es
    ensures !Reaches(es, a, b)
  {
    if Reaches(es, a, b) {
      EndsAreEdges(es, a, b);
    }
  }

  lemma ThreeLocks() returns (s: System)
    ensures LeadsTo(Free, Initial(), [Create, Create, Create], s) && Tracked(s)
    ensures s.graph == Empty() && s.stacks == map[] && s.phases == map[]
    ensures s.locks == map[0 := FREE, 1 := FREE, 2 := FREE]
  {
    InitialIsTracked();
    hide Tracked, LeadsTo, Step;
    var s1 := OneLock(Initial());
    var s2 := OneLock(s1);
    s := OneLock(s2);
    LeadsToTransitive(Free, Initial(), [Create], s1, [Create], s2);
    LeadsToTransitive(Free, Initial(), [Create] + [Create], s2, [Create], s);
    assert [Create] + [Create] + [Create] == [Create, Create, Create];
  }

  lemma OneLock(s: System) returns (s': System)
    requires Tracked(s) && s.nextId < ID_LIMIT
    ensures s' == s.(nextId := s.nextId + 1, locks := s.locks[s.nextId := FREE])
    ensures LeadsTo(Free, s, [Create], s') && Tracked(s')
  {
    hide Tracked, LeadsTo;
    s' := s.(nextId := s.nextId + 1, locks := s.locks[s.nextId := FREE]);
    assert Step(s, Create, s');
    hide Step;
    StepKeepsTracked(s, Create, s');
    OneStep(Free, s, Create, s');
  }

  lemma {:induction false} NoDestroyIsFree(s: System, acts: seq<Action>, s': System)
    requires LeadsTo(NoDestroy, s, acts, s')
    ensures LeadsTo(Free, s, acts, s')
    decreases |acts|
  {
    if acts != [] {
      var m :| Step(s, acts[0], m) && LeadsTo(NoDestroy, m, acts[1..], s');
      NoDestroyIsFree(m, acts[1..], s');
    }
  }

  /** Thread 0 takes the locks 0, 1 and 2. */
  lemma TakeThree() returns (s: System)
    ensures LeadsTo(Free, Initial(), [Create, Create, Create] + Taking(0) + Taking(1) + Taking(2), s)
    ensures Tracked(s) && s.stacks == map[0 := [0, 1, 2]] && s.PhaseOf(0).Running?
    ensures 1 in s.locks && Dependencies(s) == {(0, 1), (1, 2)}
  {
    hide Tracked, Edges, Reaches, LeadsTo, Taking;
    var acts := [Create, Create, Create];
    var s0 := ThreeLocks();
    assert Dependencies(s0) == {} by {
      NoDependencies();
    }
    var s1 := Take(s0, 0);
    assert s0.Stack(0) + [0] == [0];
    assert s1.stacks == map[0 := [0]] && Dependencies(s1) == {};
    NoWayFrom({}, 1, 0);
    var s2 := Take(s1, 1);
    assert s1.Stack(0) + [1] == [0, 1];
    assert s2.stacks == map[0 := [0, 1]] && Dependencies(s2) == {(0, 1)};
    NoWayFrom({(0, 1)}, 2, 1);
    s := Take(s2, 2);
    assert s2.Stack(0) + [2] == [0, 1, 2];
    LeadsToTransitive(Free, Initial(), acts, s0, Taking(0), s1);
    LeadsToTransitive(Free, Initial(), acts + Taking(0), s1, Taking(1), s2);
    LeadsToTransitive(Free, Initial(), acts + Taking(0) + Taking(1), s2, Taking(2), s);
  }

  lemma NoDependencies()
    ensures Edges(Empty<Id, Dep>().nodes) == {}
  {
  }

  /** When lock 1 is destroyed nothing is left of the path from 0 to 2, so the last request is accepted,
      and the thread waits for itself. */
  lemma OutOfOrderReleaseAndDestructionDeadlocks()
    ensures exists s :: LeadsTo(Free, Initial(), BadRun(), s) && Deadlocked(s, {0}) && Acyclic(Edges(s.graph.nodes))
  {
    hide Tracked, Valid, Edges, LeadsTo, Deadlocked, Acyclic, Taking, Step, Reaches;
    var acts := [Create, Create, Create] + Taking(0) + Taking(1) + Taking(2);
    var s1 := TakeThree();
    var s2 := ReleaseTheMiddle(s1);
    var s3 := DestroyTheMiddle(s2);
    NoWayFrom({}, 0, 2);
    var s4 := SelfWait(s3, 0, 0, AskFor(0));
    ValidIsAcyclic(s4.graph);
    OneStep(Free, s2, Destroy(1), s3);
    OneStep(Free, s3, AskFor(0), s4);
    LeadsToTransitive(Free, Initial(), acts, s1, [Unlock(0, 1), Unmark(0)], s2);
    LeadsToTransitive(Free, Initial(), acts + [Unlock(0, 1), Unmark(0)], s2, [Destroy(1)], s3);
    LeadsToTransitive(Free, Initial(), acts + [Unlock(0, 1), Unmark(0)] + [Destroy(1)], s3, [AskFor(0)], s4);
  }

  lemma ReleaseTheMiddle(s: System) returns (m: System)
    requires Tracked(s) && s.stacks == map[0 := [0, 1, 2]] && s.PhaseOf(0).Running? && 1 in s.locks
    ensures LeadsTo(Free, s, [Unlock(0, 1), Unmark(0)], m) && Tracked(m) && m.PhaseOf(0).Running?
    ensures m.stacks == map[0 := [0, 2]] && m.graph == s.graph && 1 in m.locks
  {
    hide Tracked, LeadsTo, Step, Released, Valid, LocksOk, CountsFit, PhaseFits;
    TrackedIsValid(s);
    assert ThreadOk(s, 0);
    RunningHolds(s, 0, 1);
    var acts;
    acts, m := Release(s, 0, 1);
    NoDestroyIsFree(s, acts, m);
    MiddleReleased();
  }

  lemma MiddleReleased()
    ensures Released([0, 1, 2], 1) == [0, 2]
  {
    var st := [0, 1, 2];
    assert st[..1] + st[2..] == [0, 2];
    ReleasedAt(st, 1, 1);
  }

  lemma DestroyTheMiddle(m: System) returns (s': System)
    requires Tracked(m) && m.stacks == map[0 := [0, 2]] && m.PhaseOf(0).Running? && 1 in m.locks
    requires Dependencies(m) == {(0, 1), (1, 2)}
    ensures Step(m, Destroy(1), s') && Tracked(s') && s'.PhaseOf(0).Running?
    ensures s'.Stack(0) == [0, 2] && Dependencies(s') == {}
  {
    hide Tracked, Valid, ThreadsOk, Edges, WithoutNode, Step, Avoiding;
    TrackedIsValid(m);
    WithoutNodeKeeps(m.graph, 1);
    NothingAvoidsTheMiddle();
    s' := m.(graph := WithoutNode(m.graph, 1), locks := m.locks - {1});
    DestroyStep(m, 1, s');
    StepKeepsTracked(m, Destroy(1), s');
  }

  lemma DestroyStep(m: System, id: Id, s': System)
    requires CanDestroy(m, id)
    requires s' == m.(graph := WithoutNode(m.graph, id), locks := m.locks - {id})
    ensures Step(m, Destroy(id), s')
  {
  }

  lemma NothingAvoidsTheMiddle()
    ensures Avoiding<Id>({(0, 1), (1, 2)}, 1) == {}
  {
  }
}
