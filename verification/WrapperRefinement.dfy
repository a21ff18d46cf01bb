/** The sequential methods of the wrapper are uninterrupted runs of the interleaving protocol
    (src/lockapi.rs): whatever is proved of all runs holds of their calls. */
module WrapperRefinement {
  import opened LockTracking
  import opened LockWrapper
  import opened Protocol

  function ViewOf(s: System, t: Tid, id: Id): View
    requires id in s.locks
  {
    View(s.graph, s.Stack(t), s.locks[id])
  }

  /** `s'` differs from `s` only in the graph, in thread `t` and in lock `id`. */
  ghost predicate OnlyBy(s: System, t: Tid, id: Id, s': System) {
    && s'.nextId == s.nextId && s'.locks.Keys == s.locks.Keys
    && (forall i :: i in s.locks && i != id ==> s'.locks[i] == s.locks[i])
    && (forall u: Tid :: u != t ==> s'.Stack(u) == s.Stack(u) && s'.PhaseOf(u) == s.PhaseOf(u))
  }

  lemma OnlyByTransitive(s: System, t: Tid, id: Id, m: System, s': System)
    requires OnlyBy(s, t, id, m) && OnlyBy(m, t, id, s')
    ensures OnlyBy(s, t, id, s')
  {
  }

  /** The request both locking calls begin with. */
  lemma EnterCall(s: System, t: Tid, id: Id, mode: Mode, blocking: bool, dep: Dep, graph': Deps)
    returns (act: Action, m: System)
    requires s.PhaseOf(t).Running? && id in s.locks
    requires MarkHeldStep(s.graph, s.Stack(t), id, dep, true, graph', s.Stack(t) + [id])
    ensures LeadsTo(NoDestroy, s, [act], m) && OnlyBy(s, t, id, m)
    ensures ViewOf(m, t, id) == View(graph', s.Stack(t) + [id], s.locks[id])
    ensures m.PhaseOf(t) == if blocking then Waiting(id, mode) else Trying(id, mode)
  {
    act := Request(t, id, mode, blocking, dep);
    var next := if blocking then Waiting(id, mode) else Trying(id, mode);
    m := s.(graph := graph', stacks := s.stacks[t := s.Stack(t) + [id]], phases := s.phases[t := next]);
    assert RequestStep(s, t, id, next, dep, m);
    OneStep(NoDestroy, s, act, m);
  }

  /** The rejected request that changes nothing. */
  lemma AskInVain(s: System, t: Tid, id: Id, mode: Mode, blocking: bool, dep: Dep) returns (act: Action)
    requires s.PhaseOf(t).Running? && id in s.locks
    requires MarkHeldStep(s.graph, s.Stack(t), id, dep, false, s.graph, s.Stack(t))
    ensures LeadsTo(NoDestroy, s, [act], s)
  {
    act := Request(t, id, mode, blocking, dep);
    OneStep(NoDestroy, s, act, s);
  }

  lemma TakeIt(s: System, t: Tid, id: Id, mode: Mode) returns (s': System)
    requires id in s.locks && s.locks[id].CanAcquire(mode)
    requires s.PhaseOf(t) == Waiting(id, mode) || s.PhaseOf(t) == Trying(id, mode)
    ensures LeadsTo(NoDestroy, s, [Grant(t)], s') && OnlyBy(s, t, id, s') && s'.PhaseOf(t).Running?
    ensures ViewOf(s', t, id) == View(s.graph, s.Stack(t), s.locks[id].Acquire(t, mode))
  {
    s' := s.(locks := s.locks[id := s.locks[id].Acquire(t, mode)], phases := s.phases[t := Running]);
    OneStep(NoDestroy, s, Grant(t), s');
  }

  lemma LeaveIt(s: System, t: Tid, id: Id) returns (s': System)
    requires id in s.locks && s.PhaseOf(t) == Unmarking(id)
    ensures LeadsTo(NoDestroy, s, [Unmark(t)], s') && OnlyBy(s, t, id, s') && s'.PhaseOf(t).Running?
    ensures ViewOf(s', t, id) == View(s.graph, Released(s.Stack(t), id), s.locks[id])
  {
    s' := s.(stacks := s.stacks[t := Released(s.Stack(t), id)], phases := s.phases[t := Running]);
    OneStep(NoDestroy, s, Unmark(t), s');
  }

  /** A call of `lock`, as far as it gets, is a request and, if it returns, a grant. */
  lemma LockRefines(s: System, t: Tid, id: Id, mode: Mode, dep: Dep, o: Outcome, v: View)
    returns (acts: seq<Action>, s': System)
    requires s.PhaseOf(t).Running? && id in s.locks
    requires LockEffect(ViewOf(s, t, id), t, id, mode, dep, o, v)
    ensures LeadsTo(NoDestroy, s, acts, s') && OnlyBy(s, t, id, s') && ViewOf(s', t, id) == v
    ensures s'.PhaseOf(t) == if o.Blocked? then Waiting(id, mode) else Running
  {
    if o.Panicked? {
      var act := AskInVain(s, t, id, mode, true, dep);
      acts, s' := [act], s;
    } else {
      MarkHeldPushes(s.graph, s.Stack(t), id, dep, v.graph, v.stack);
      var act, m := EnterCall(s, t, id, mode, true, dep, v.graph);
      acts, s' := [act], m;
      if o.Returned? {
        s' := TakeIt(m, t, id, mode);
        OnlyByTransitive(s, t, id, m, s');
        LeadsToTransitive(NoDestroy, s, [act], m, [Grant(t)], s');
        acts := [act] + [Grant(t)];
      }
    }
  }

  /** A call of `conditionally_lock` is a request followed by a grant, or by a refusal and the taking
      back of the mark. */
  lemma ConditionallyLockRefines(
    s: System, t: Tid, id: Id, mode: Mode, dep: Dep, permit: bool, o: Outcome, v: View)
    returns (acts: seq<Action>, s': System)
    requires s.PhaseOf(t).Running? && id in s.locks
    requires TryEffect(ViewOf(s, t, id), t, id, mode, dep, permit, o, v)
    ensures LeadsTo(NoDestroy, s, acts, s') && OnlyBy(s, t, id, s') && ViewOf(s', t, id) == v
    ensures s'.PhaseOf(t).Running?
  {
    if o.Panicked? {
      var act := AskInVain(s, t, id, mode, false, dep);
      acts, s' := [act], s;
    } else {
      var act, m := EnterCall(s, t, id, mode, false, dep, v.graph);
      if o.acquired {
        s' := TakeIt(m, t, id, mode);
        OnlyByTransitive(s, t, id, m, s');
        LeadsToTransitive(NoDestroy, s, [act], m, [Grant(t)], s');
        acts := [act] + [Grant(t)];
      } else {
        var back;
        back, s' := TakeBack(m, t, id, mode);
        OnlyByTransitive(s, t, id, m, s');
        LeadsToTransitive(NoDestroy, s, [act], m, back, s');
        acts := [act] + back;
      }
    }
  }

  lemma TakeBack(m: System, t: Tid, id: Id, mode: Mode) returns (acts: seq<Action>, s': System)
    requires id in m.locks && m.PhaseOf(t) == Trying(id, mode) && IsTop(m.Stack(t), id)
    ensures LeadsTo(NoDestroy, m, acts, s') && OnlyBy(m, t, id, s') && s'.PhaseOf(t).Running?
    ensures ViewOf(s', t, id) == View(m.graph, m.Stack(t)[..|m.Stack(t)| - 1], m.locks[id])
  {
    var k := m.(phases := m.phases[t := Unmarking(id)]);
    OneStep(NoDestroy, m, Refuse(t), k);
    s' := LeaveIt(k, t, id);
    OnlyByTransitive(m, t, id, k, s');
    LeadsToTransitive(NoDestroy, m, [Refuse(t)], k, [Unmark(t)], s');
    acts := [Refuse(t)] + [Unmark(t)];
  }

  /** A call of `unlock` by a holder gives the inner lock back and then takes back the mark. */
  lemma UnlockRefines(s: System, t: Tid, id: Id, found: bool, v: View)
    returns (acts: seq<Action>, s': System)
    requires s.PhaseOf(t).Running? && s.Holds(t, id)
    requires UnlockEffect(ViewOf(s, t, id), t, id, found, v)
    ensures LeadsTo(NoDestroy, s, acts, s') && OnlyBy(s, t, id, s') && ViewOf(s', t, id) == v
    ensures s'.PhaseOf(t).Running?
  {
    var k := s.(locks := s.locks[id := s.locks[id].Release(t)], phases := s.phases[t := Unmarking(id)]);
    OneStep(NoDestroy, s, Unlock(t, id), k);
    s' := LeaveIt(k, t, id);
    OnlyByTransitive(s, t, id, k, s');
    LeadsToTransitive(NoDestroy, s, [Unlock(t, id)], k, [Unmark(t)], s');
    acts := [Unlock(t, id)] + [Unmark(t)];
  }
}
