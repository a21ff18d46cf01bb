/** The locking protocol as a transition system over any number of threads and locks: each step is one
    indivisible action of src/lockapi.rs or src/lib.rs, and steps of different threads interleave
    freely. */
module Protocol {
  import opened Reachability
  import opened GraphModel
  import opened LockTracking
  import opened LockWrapper
  import opened LockStacks

  /** Where a thread is inside a wrapper call. `Waiting` and `Trying` are entered by `mark_held`,
      `Unmarking` is left by `mark_released`. */
  datatype Phase =
    | Running
    | Waiting(id: Id, mode: Mode)
    | Trying(id: Id, mode: Mode)
    | Unmarking(id: Id)
  {
    predicate Pending(id: Id) {
      !Running? && this.id == id
    }
  }

  datatype System = System(
    graph: Deps,
    stacks: map<Tid, seq<Id>>,
    phases: map<Tid, Phase>,
    locks: map<Id, RawLock>,
    nextId: nat)
  {
    function Stack(t: Tid): seq<Id> {
      if t in stacks then stacks[t] else []
    }

    function PhaseOf(t: Tid): Phase {
      if t in phases then phases[t] else Running
    }

    predicate Holds(t: Tid, id: Id) {
      id in locks && locks[id].HeldBy(t)
    }

    function HoldCount(t: Tid, id: Id): nat {
      if id in locks then locks[id].Count(t) else 0
    }

    /** The locks `t` has once its present call is over, if it gives up an attempt and waits as long as
        it takes. */
    function Kept(t: Tid): seq<Id> {
      match PhaseOf(t)
      case Trying(id, _) => Released(Stack(t), id)
      case Unmarking(id) => Released(Stack(t), id)
      case _ => Stack(t)
    }
  }

  function Initial(): System {
    System(Empty(), map[], map[], map[], 0)
  }

  /** `usize::MAX` on a 64-bit target: no lock gets this id. */
  const ID_LIMIT: nat := 0xFFFF_FFFF_FFFF_FFFF

  datatype Action =
    | Create                                                        // MutexId::new
    | Destroy(id: Id)                                               // Drop for MutexId
    | Request(t: Tid, id: Id, mode: Mode, blocking: bool, dep: Dep) // mark_held in (conditionally_)lock
    | Grant(t: Tid)                                                 // the inner lock is taken
    | Refuse(t: Tid)                                                // the attempt fails
    | Unlock(t: Tid, id: Id)                                        // the inner lock is given back
    | Unmark(t: Tid)                                                // mark_released

  ghost predicate Step(s: System, a: Action, s': System) {
    match a
    case Create =>
      s.nextId < ID_LIMIT &&
      s' == s.(nextId := s.nextId + 1, locks := s.locks[s.nextId := FREE])
    case Destroy(id) =>
      CanDestroy(s, id) &&
      s' == s.(graph := WithoutNode(s.graph, id), locks := s.locks - {id})
    case Request(t, id, mode, blocking, dep) =>
      s.PhaseOf(t).Running? && id in s.locks &&
      RequestStep(s, t, id, if blocking then Waiting(id, mode) else Trying(id, mode), dep, s')
    case Grant(t) =>
      CanGrant(s, t) &&
      var p := s.PhaseOf(t);
      s' == s.(locks := s.locks[p.id := s.locks[p.id].Acquire(t, p.mode)], phases := s.phases[t := Running])
    case Refuse(t) =>
      s.PhaseOf(t).Trying? && s' == s.(phases := s.phases[t := Unmarking(s.PhaseOf(t).id)])
    case Unlock(t, id) =>
      s.PhaseOf(t).Running? && s.Holds(t, id) &&
      s' == s.(locks := s.locks[id := s.locks[id].Release(t)], phases := s.phases[t := Unmarking(id)])
    case Unmark(t) =>
      s.PhaseOf(t).Unmarking? &&
      s' == s.(stacks := s.stacks[t := Released(s.Stack(t), s.PhaseOf(t).id)], phases := s.phases[t := Running])
  }

  /** A lock is borrowed by its guards and by calls in progress, so it can only be destroyed when it
      is on no thread's stack. */
  ghost predicate CanDestroy(s: System, id: Id) {
    id in s.locks && forall t :: t in s.stacks ==> id !in s.stacks[t]
  }

  /** `mark_held` under the graph's mutex; a rejected dependency panics and changes nothing. */
  ghost predicate RequestStep(s: System, t: Tid, id: Id, next: Phase, dep: Dep, s': System) {
    var st := s.Stack(t);
    || (MarkHeldStep(s.graph, st, id, dep, false, s'.graph, st) && s' == s)
    || (MarkHeldStep(s.graph, st, id, dep, true, s'.graph, st + [id]) &&
        s' == s.(graph := s'.graph, stacks := s.stacks[t := st + [id]], phases := s.phases[t := next]))
  }

  predicate CanGrant(s: System, t: Tid) {
    var p := s.PhaseOf(t);
    (p.Waiting? || p.Trying?) && p.id in s.locks && s.locks[p.id].CanAcquire(p.mode)
  }

  // ----- runs -----

  /** Which actions a run may contain. */
  datatype Discipline =
    | Free           // anything
    | NoDestroy      // locks are never destroyed
    | Lifo           // locks are released in the reverse order of acquisition
    | OrderedDrops   // a lock is destroyed only if every stack stays ordered without it
    | ConnectedDrops // a lock is destroyed only if what every thread keeps stays connected without it

  ghost predicate Allowed(d: Discipline, s: System, a: Action) {
    match d
    case Free => true
    case NoDestroy => !a.Destroy?
    case Lifo => a.Unlock? ==> IsTop(s.Stack(a.t), a.id)
    case OrderedDrops => a.Destroy? ==> DropSafe(s, a.id)
    case ConnectedDrops => a.Destroy? ==> DropConnected(s, a.id)
  }

  predicate IsTop(st: seq<Id>, id: Id) {
    st != [] && st[|st| - 1] == id
  }

  /** Every two entries of a stack stay connected when `n` is taken out of the graph. */
  ghost predicate DropSafe(s: System, n: Id) {
    forall t :: t in s.stacks ==> DropSafeFor(s, n, s.stacks[t])
  }

  ghost predicate DropSafeFor(s: System, n: Id, st: seq<Id>) {
    forall i, j :: 0 <= i < j < |st| ==> Precedes(Avoiding(Edges(s.graph.nodes), n), st[i], st[j])
  }

  /** Of the locks that a thread keeps, every one still leads to the later ones when `n` is taken out
      of the graph. */
  ghost predicate DropConnected(s: System, n: Id) {
    forall t: Tid :: ConnectedStack(Avoiding(Edges(s.graph.nodes), n), s.Kept(t))
  }

  /** The actions `acts` take the system from `s` to `s'`, each allowed by `d`. */
  ghost predicate LeadsTo(d: Discipline, s: System, acts: seq<Action>, s': System)
    decreases |acts|
  {
    if acts == [] then s' == s
    else Allowed(d, s, acts[0]) && exists m :: Step(s, acts[0], m) && LeadsTo(d, m, acts[1..], s')
  }

  lemma {:induction false} LeadsToTransitive(
    d: Discipline, s: System, acts1: seq<Action>, m: System, acts2: seq<Action>, s': System)
    requires LeadsTo(d, s, acts1, m) && LeadsTo(d, m, acts2, s')
    ensures LeadsTo(d, s, acts1 + acts2, s')
    decreases |acts1|
  {
    if acts1 == [] {
      assert acts1 + acts2 == acts2;
    } else {
      var k :| Step(s, acts1[0], k) && LeadsTo(d, k, acts1[1..], m);
      LeadsToTransitive(d, k, acts1[1..], m, acts2, s');
      assert (acts1 + acts2)[1..] == acts1[1..] + acts2;
    }
  }

  /** A run taken apart at its last step. */
  lemma {:induction false} LastStep(d: Discipline, s: System, acts: seq<Action>, s': System) returns (m: System)
    requires acts != [] && LeadsTo(d, s, acts, s')
    ensures LeadsTo(d, s, acts[..|acts| - 1], m)
    ensures Allowed(d, m, acts[|acts| - 1]) && Step(m, acts[|acts| - 1], s')
    decreases |acts|
  {
    hide Step, Allowed;
    var n := |acts| - 1;
    var k :| Step(s, acts[0], k) && LeadsTo(d, k, acts[1..], s');
    if n == 0 {
      m := s;
      assert acts[..0] == [] && k == s';
    } else {
      m := LastStep(d, k, acts[1..], s');
      assert acts[1..][..n - 1] == acts[..n][1..];
    }
  }

  lemma NoStep(d: Discipline, s: System)
    ensures LeadsTo(d, s, [], s)
  {
  }

  lemma OneStep(d: Discipline, s: System, a: Action, s': System)
    requires Allowed(d, s, a) && Step(s, a, s')
    ensures LeadsTo(d, s, [a], s')
  {
  }

  // ----- deadlock -----

  /** Every thread of `d` waits for a lock that some thread of `d` holds. */
  ghost predicate Deadlocked(s: System, d: set<Tid>) {
    && d != {}
    && forall t :: t in d ==> s.PhaseOf(t).Waiting? && HeldWithin(s, d, s.PhaseOf(t).id)
  }

  ghost predicate HeldWithin(s: System, d: set<Tid>, id: Id) {
    exists h :: h in d && s.Holds(h, id)
  }

  /** No future deadlocks, as long as no lock is destroyed. */
  ghost predicate SafeForEver(s: System) {
    forall acts, s', d :: LeadsTo(NoDestroy, s, acts, s') ==> !Deadlocked(s', d)
  }
}
