/** Who has which lock in which mode, read from the actions of a run alone, and that every lock behaves
    accordingly: readers share, a writer excludes (src/lockapi.rs). */
module History {
  import opened Reachability
  import opened GraphModel
  import opened LockTracking
  import opened LockWrapper
  import opened Protocol
  import opened ProtocolInvariant
  import opened WrapperRefinement

  /** One taking of a lock that has not been given back. */
  datatype Hold = Hold(t: Tid, id: Id, mode: Mode)

  datatype Call = Call(id: Id, mode: Mode)

  /** What `t` asked for last. */
  function Asked(acts: seq<Action>, t: Tid): Option<Call>
    decreases |acts|
  {
    if acts == [] then None
    else
      var n := |acts| - 1;
      if acts[n].Request? && acts[n].t == t then Some(Call(acts[n].id, acts[n].mode))
      else Asked(acts[..n], t)
  }

  /** What a grant adds and an unlock takes away. */
  function Holders(acts: seq<Action>): multiset<Hold>
    decreases |acts|
  {
    if acts == [] then multiset{}
    else
      var n := |acts| - 1;
      HoldersAfter(Holders(acts[..n]), acts[n], if acts[n].Grant? then Asked(acts[..n], acts[n].t) else None)
  }

  function HoldersAfter(held: multiset<Hold>, a: Action, asked: Option<Call>): multiset<Hold> {
    match a
    case Grant(t) =>
      if asked.Some? then held + multiset{Hold(t, asked.value.id, asked.value.mode)} else held
    case Unlock(t, id) =>
      if Hold(t, id, Exclusive) in held then held - multiset{Hold(t, id, Exclusive)}
      else held - multiset{Hold(t, id, Shared)}
    case _ => held
  }

  /** How many locks were created. */
  function Created(acts: seq<Action>): nat
    decreases |acts|
  {
    if acts == [] then 0
    else Created(acts[..|acts| - 1]) + if acts[|acts| - 1].Create? then 1 else 0
  }

  predicate Alive(acts: seq<Action>, id: Id) {
    id < Created(acts) && Destroy(id) !in acts
  }

  /** A reader may join readers; a writer needs the lock for itself. */
  ghost predicate Admits(held: multiset<Hold>, id: Id, mode: Mode) {
    forall h :: h in held && h.id == id ==> mode.Shared? && h.mode.Shared?
  }

  // ----- the history and the state -----

  function Times(s: System, h: Hold): nat {
    if h.id !in s.locks then 0
    else
      var l := s.locks[h.id];
      if h.mode.Shared? then l.readers[h.t] else if l.writer == Some(h.t) then 1 else 0
  }

  ghost predicate HoldsRecorded(s: System, held: multiset<Hold>) {
    forall h: Hold :: held[h] == Times(s, h)
  }

  ghost predicate CallsRecorded(s: System, acts: seq<Action>) {
    forall t: Tid :: s.PhaseOf(t).Waiting? || s.PhaseOf(t).Trying? ==>
      Asked(acts, t) == Some(Call(s.PhaseOf(t).id, s.PhaseOf(t).mode))
  }

  ghost predicate IdsRecorded(s: System, acts: seq<Action>) {
    s.nextId == Created(acts) && forall id: Id :: id in s.locks <==> Alive(acts, id)
  }

  lemma StepKeepsHolds(s: System, a: Action, s': System, held: multiset<Hold>, asked: Option<Call>)
    requires Tracked(s) && Step(s, a, s') && HoldsRecorded(s, held)
    requires a.Grant? ==> asked == Some(Call(s.PhaseOf(a.t).id, s.PhaseOf(a.t).mode))
    ensures HoldsRecorded(s', HoldersAfter(held, a, asked))
  {
    hide Valid, RequestStep, ThreadsOk;
    match a
    case Create => CreateKeepsHolds(s, s', held);
    case Destroy(id) => DestroyKeepsHolds(s, id, s', held);
    case Grant(t) => GrantKeepsHolds(s, t, s', held, asked);
    case Unlock(t, id) => UnlockKeepsHolds(s, t, id, s', held);
    case _ => SameLocksSameHolds(s, a, s', held);
  }

  lemma SameLocksSameHolds(s: System, a: Action, s': System, held: multiset<Hold>)
    requires Step(s, a, s') && HoldsRecorded(s, held) && (a.Request? || a.Refuse? || a.Unmark?)
    ensures HoldsRecorded(s', held)
  {
    assert s'.locks == s.locks;
    forall h: Hold ensures held[h] == Times(s', h) {
      assert held[h] == Times(s, h);
    }
  }

  lemma CreateKeepsHolds(s: System, s': System, held: multiset<Hold>)
    requires LocksOk(s) && HoldsRecorded(s, held) && s'.locks == s.locks[s.nextId := FREE]
    ensures HoldsRecorded(s', held)
  {
    forall h: Hold ensures held[h] == Times(s', h) {
      assert held[h] == Times(s, h);
    }
  }

  /** A lock that is on no stack is held by nobody. */
  lemma DestroyKeepsHolds(s: System, id: Id, s': System, held: multiset<Hold>)
    requires ThreadsOk(s) && CanDestroy(s, id) && HoldsRecorded(s, held) && s'.locks == s.locks - {id}
    ensures HoldsRecorded(s', held)
  {
    forall h: Hold ensures held[h] == Times(s', h) {
      assert held[h] == Times(s, h);
      if h.id == id {
        assert ThreadOk(s, h.t);
        assert id !in s.Stack(h.t);
        assert multiset(s.Stack(h.t))[id] == 0 == s.HoldCount(h.t, id);
      }
    }
  }

  lemma GrantKeepsHolds(s: System, t: Tid, s': System, held: multiset<Hold>, asked: Option<Call>)
    requires CanGrant(s, t) && HoldsRecorded(s, held)
    requires asked == Some(Call(s.PhaseOf(t).id, s.PhaseOf(t).mode))
    requires s'.locks == s.locks[asked.value.id := s.locks[asked.value.id].Acquire(t, asked.value.mode)]
    ensures HoldsRecorded(s', HoldersAfter(held, Grant(t), asked))
  {
    var one := Hold(t, asked.value.id, asked.value.mode);
    forall h: Hold ensures (held + multiset{one})[h] == Times(s', h) {
      assert held[h] == Times(s, h);
    }
  }

  lemma UnlockKeepsHolds(s: System, t: Tid, id: Id, s': System, held: multiset<Hold>)
    requires LocksOk(s) && s.Holds(t, id) && HoldsRecorded(s, held)
    requires s'.locks == s.locks[id := s.locks[id].Release(t)]
    ensures HoldsRecorded(s', HoldersAfter(held, Unlock(t, id), None))
  {
    hide LocksOk;
    var x := Hold(t, id, Exclusive);
    assert held[x] == Times(s, x);
    var gone := if x in held then x else Hold(t, id, Shared);
    forall h: Hold ensures (held - multiset{gone})[h] == Times(s', h) {
      assert held[h] == Times(s, h);
      assert gone == Hold(t, id, if s.locks[id].writer == Some(t) then Exclusive else Shared);
      OneHoldLess(s, t, id, s', gone, h);
      hide *;
    }
  }

  lemma OneHoldLess(s: System, t: Tid, id: Id, s': System, gone: Hold, h: Hold)
    requires LocksOk(s) && s.Holds(t, id) && s'.locks == s.locks[id := s.locks[id].Release(t)]
    requires gone == Hold(t, id, if s.locks[id].writer == Some(t) then Exclusive else Shared)
    ensures Times(s, h) == Times(s', h) + if h == gone then 1 else 0
  {
    assert LockOk(s.locks[id]);
  }

  lemma StepKeepsCalls(s: System, before: seq<Action>, a: Action, s': System)
    requires Step(s, a, s') && CallsRecorded(s, before)
    ensures CallsRecorded(s', before + [a])
  {
    hide MarkHeldStep, WithoutNode;
    var acts := before + [a];
    assert acts[..|before|] == before;
    forall t: Tid | s'.PhaseOf(t).Waiting? || s'.PhaseOf(t).Trying?
      ensures Asked(acts, t) == Some(Call(s'.PhaseOf(t).id, s'.PhaseOf(t).mode))
    {
      if s'.PhaseOf(t) == s.PhaseOf(t) {
        assert Asked(before, t) == Some(Call(s.PhaseOf(t).id, s.PhaseOf(t).mode));
        assert !(a.Request? && a.t == t);
      }
    }
  }

  lemma StepKeepsIds(s: System, before: seq<Action>, a: Action, s': System)
    requires LocksOk(s) && Step(s, a, s') && IdsRecorded(s, before)
    requires forall id: Id :: Destroy(id) in before ==> id < s.nextId
    ensures IdsRecorded(s', before + [a])
    ensures forall id: Id :: Destroy(id) in before + [a] ==> id < s'.nextId
  {
    hide MarkHeldStep, WithoutNode, LockOk;
    var acts := before + [a];
    assert acts[..|acts| - 1] == before && acts[|acts| - 1] == a;
    assert Created(acts) == Created(before) + if a.Create? then 1 else 0;
    forall id: Id ensures id in s'.locks <==> Alive(acts, id) {
      assert id in s.locks <==> Alive(before, id);
      assert Destroy(id) in acts <==> Destroy(id) in before || a == Destroy(id);
    }
  }

  ghost predicate Recorded(s: System, acts: seq<Action>) {
    && Tracked(s)
    && HoldsRecorded(s, Holders(acts)) && CallsRecorded(s, acts) && IdsRecorded(s, acts)
    && forall id: Id :: Destroy(id) in acts ==> id < s.nextId
  }

  lemma InitialIsRecorded()
    ensures Recorded(Initial(), [])
  {
    InitialIsTracked();
  }

  lemma StepIsRecorded(s: System, before: seq<Action>, a: Action, s': System)
    requires Recorded(s, before) && Step(s, a, s')
    ensures Recorded(s', before + [a])
  {
    var acts := before + [a];
    assert acts[..|before|] == before;
    var asked := if a.Grant? then Asked(before, a.t) else None;
    assert Holders(acts) == HoldersAfter(Holders(before), a, asked);
    StepKeepsTracked(s, a, s');
    StepKeepsCalls(s, before, a, s');
    StepKeepsIds(s, before, a, s');
    hide Tracked, HoldersAfter, Holders, IdsRecorded;
    StepKeepsHolds(s, a, s', Holders(before), asked);
  }

  /** In every run the state of each lock, the calls in progress and the live locks are what the actions
      say. */
  lemma {:induction false} RunIsRecorded(acts: seq<Action>, s: System)
    requires LeadsTo(Free, Initial(), acts, s)
    ensures Recorded(s, acts)
    decreases |acts|
  {
    hide Recorded, Step;
    if acts == [] {
      InitialIsRecorded();
    } else {
      var n := |acts| - 1;
      var m := LastStep(Free, Initial(), acts, s);
      RunIsRecorded(acts[..n], m);
      StepIsRecorded(m, acts[..n], acts[n], s);
      assert acts == acts[..n] + [acts[n]];
    }
  }

  // ----- what the history says -----

  /** A lock lets a newcomer in exactly when the history does. */
  lemma AdmitsExactly(s: System, held: multiset<Hold>, id: Id, mode: Mode)
    requires HoldsRecorded(s, held) && id in s.locks
    ensures s.locks[id].CanAcquire(mode) <==> Admits(held, id, mode)
  {
    if s.locks[id].CanAcquire(mode) {
      forall h | h in held && h.id == id ensures mode.Shared? && h.mode.Shared? {
        assert held[h] == Times(s, h);
      }
    } else {
      var h := InTheWay(s, held, id, mode);
    }
  }

  lemma InTheWay(s: System, held: multiset<Hold>, id: Id, mode: Mode) returns (h: Hold)
    requires HoldsRecorded(s, held) && id in s.locks && !s.locks[id].CanAcquire(mode)
    ensures h in held && h.id == id && !(mode.Shared? && h.mode.Shared?)
  {
    var l := s.locks[id];
    if l.writer.Some? {
      h := Hold(l.writer.value, id, Exclusive);
    } else {
      var t :| t in l.readers;
      h := Hold(t, id, Shared);
    }
    assert held[h] == Times(s, h);
  }

  lemma HoldsAre(s: System, held: multiset<Hold>, t: Tid, id: Id)
    requires HoldsRecorded(s, held)
    ensures s.Holds(t, id) <==> Hold(t, id, Exclusive) in held || Hold(t, id, Shared) in held
  {
    assert held[Hold(t, id, Exclusive)] == Times(s, Hold(t, id, Exclusive));
    assert held[Hold(t, id, Shared)] == Times(s, Hold(t, id, Shared));
  }

  /** In every run: a call in progress is the last one its thread asked for, and it can be granted
      exactly when nobody is in the way, that is, nobody at all for a writer and no writer for a reader. */
  lemma GrantIsPossibleExactly(acts: seq<Action>, s: System, t: Tid)
    requires LeadsTo(Free, Initial(), acts, s)
    requires s.PhaseOf(t).Waiting? || s.PhaseOf(t).Trying?
    ensures Asked(acts, t) == Some(Call(s.PhaseOf(t).id, s.PhaseOf(t).mode))
    ensures (exists s' :: Step(s, Grant(t), s')) <==> Admits(Holders(acts), s.PhaseOf(t).id, s.PhaseOf(t).mode)
  {
    RunIsRecorded(acts, s);
    hide LeadsTo, Holders, Admits;
    var p := s.PhaseOf(t);
    assert p.id in s.locks by {
      assert ThreadOk(s, t);
    }
    AdmitsExactly(s, Holders(acts), p.id, p.mode);
    if CanGrant(s, t) {
      var s' := s.(locks := s.locks[p.id := s.locks[p.id].Acquire(t, p.mode)], phases := s.phases[t := Running]);
      assert Step(s, Grant(t), s');
    }
  }

  /** In every run: a thread outside all calls can unlock exactly what it got into and has not given
      back. */
  lemma UnlockIsPossibleExactly(acts: seq<Action>, s: System, t: Tid, id: Id)
    requires LeadsTo(Free, Initial(), acts, s)
    ensures (exists s' :: Step(s, Unlock(t, id), s')) <==>
            s.PhaseOf(t).Running? && exists mode :: Hold(t, id, mode) in Holders(acts)
  {
    RunIsRecorded(acts, s);
    hide LeadsTo, Holders, Tracked;
    HoldsAre(s, Holders(acts), t, id);
    if s.PhaseOf(t).Running? && s.Holds(t, id) {
      var s' := s.(locks := s.locks[id := s.locks[id].Release(t)], phases := s.phases[t := Unmarking(id)]);
      assert Step(s, Unlock(t, id), s');
    }
  }

  /** In every run: the live locks are those created and not destroyed since, and ids are given out in
      turn and never twice. */
  lemma LiveLocksExactly(acts: seq<Action>, s: System)
    requires LeadsTo(Free, Initial(), acts, s)
    ensures forall id: Id :: id in s.locks <==> id < Created(acts) && Destroy(id) !in acts
    ensures s.nextId == Created(acts)
  {
    RunIsRecorded(acts, s);
    assert forall id: Id :: id in s.locks <==> Alive(acts, id);
  }

  /** In every run: whoever got into a lock exclusively has it alone. */
  lemma WritersAreAlone(acts: seq<Action>, s: System, t: Tid, id: Id, h: Hold)
    requires LeadsTo(Free, Initial(), acts, s)
    requires Hold(t, id, Exclusive) in Holders(acts) && h in Holders(acts) && h.id == id
    ensures h == Hold(t, id, Exclusive) && Holders(acts)[h] == 1
  {
    RunIsRecorded(acts, s);
    hide LeadsTo, Holders;
    var held := Holders(acts);
    assert held[h] == Times(s, h) && held[Hold(t, id, Exclusive)] == Times(s, Hold(t, id, Exclusive));
    assert LockOk(s.locks[id]);
  }

  lemma {:induction false} HeldUntilUnlock(before: seq<Action>, t: Tid, c: Call, after: seq<Action>)
    requires Asked(before, t) == Some(c) && Unlock(t, c.id) !in after
    ensures Hold(t, c.id, c.mode) in Holders(before + [Grant(t)] + after)
    decreases |after|
  {
    hide Asked, Holders;
    var acts := before + [Grant(t)] + after;
    var n := |acts| - 1;
    HoldersAtLast(acts);
    hide HoldersAfter;
    if after == [] {
      assert acts[..n] == before && acts[n] == Grant(t);
      GrantedIsHeld(Holders(before), t, c);
    } else {
      var k := |after| - 1;
      assert acts[..n] == before + [Grant(t)] + after[..k] && acts[n] == after[k];
      HeldUntilUnlock(before, t, c, after[..k]);
      StillHeld(Holders(acts[..n]), acts[n], if acts[n].Grant? then Asked(acts[..n], acts[n].t) else None,
                Hold(t, c.id, c.mode));
    }
  }

  lemma GrantedIsHeld(held: multiset<Hold>, t: Tid, c: Call)
    ensures Hold(t, c.id, c.mode) in HoldersAfter(held, Grant(t), Some(c))
  {
  }

  lemma StillHeld(held: multiset<Hold>, a: Action, asked: Option<Call>, h: Hold)
    requires h in held && a != Unlock(h.t, h.id)
    ensures h in HoldersAfter(held, a, asked)
  {
  }

  lemma HoldersAtLast(acts: seq<Action>)
    requires acts != []
    ensures var n := |acts| - 1;
            Holders(acts) ==
            HoldersAfter(Holders(acts[..n]), acts[n], if acts[n].Grant? then Asked(acts[..n], acts[n].t) else None)
  {
  }

  /** From the grant of an exclusive request until the thread's unlock, in any run: the thread has the
      lock, nobody else has it, and nobody can get in. */
  lemma ExclusiveUntilUnlock(before: seq<Action>, t: Tid, id: Id, after: seq<Action>, s: System)
    requires LeadsTo(Free, Initial(), before + [Grant(t)] + after, s)
    requires Asked(before, t) == Some(Call(id, Exclusive)) && Unlock(t, id) !in after
    ensures s.Holds(t, id)
    ensures forall u: Tid :: u != t ==> !s.Holds(u, id)
    ensures forall u: Tid, s' :: s.PhaseOf(u).Pending(id) ==> !Step(s, Grant(u), s')
  {
    var acts := before + [Grant(t)] + after;
    HeldUntilUnlock(before, t, Call(id, Exclusive), after);
    RunIsRecorded(acts, s);
    var held := Holders(acts);
    hide Asked, Holders, LeadsTo, Tracked;
    var h := Hold(t, id, Exclusive);
    HoldsAre(s, held, t, id);
    forall u: Tid | u != t ensures !s.Holds(u, id) {
      HoldsAre(s, held, u, id);
      if s.Holds(u, id) {
        OthersAreOut(acts, s, t, u, id);
      }
    }
    assert held[h] == Times(s, h);
    assert s.locks[id].writer == Some(t);
  }

  lemma OthersAreOut(acts: seq<Action>, s: System, t: Tid, u: Tid, id: Id)
    requires LeadsTo(Free, Initial(), acts, s) && Hold(t, id, Exclusive) in Holders(acts) && u != t
    ensures Hold(u, id, Exclusive) !in Holders(acts) && Hold(u, id, Shared) !in Holders(acts)
  {
    if Hold(u, id, Exclusive) in Holders(acts) {
      WritersAreAlone(acts, s, t, id, Hold(u, id, Exclusive));
    }
    if Hold(u, id, Shared) in Holders(acts) {
      WritersAreAlone(acts, s, t, id, Hold(u, id, Shared));
    }
  }

  // ----- the answers of the wrapper's calls -----

  /** After any run: a call of `lock` panics exactly when the lock leads to the thread's newest one, and
      otherwise returns at once exactly when nobody is in the way. */
  lemma LockAnswersExactly(
    acts: seq<Action>, s: System, t: Tid, id: Id, mode: Mode, dep: Dep, o: Outcome, v: View)
    requires LeadsTo(Free, Initial(), acts, s) && id in s.locks
    requires LockEffect(ViewOf(s, t, id), t, id, mode, dep, o, v)
    ensures var st := s.Stack(t);
            var cycle := st != [] && Reaches(Edges(s.graph.nodes), id, st[|st| - 1]);
            && (o.Panicked? <==> cycle)
            && (o == Returned(true) <==> !cycle && Admits(Holders(acts), id, mode))
            && (o == Blocked <==> !cycle && !Admits(Holders(acts), id, mode))
  {
    RunIsRecorded(acts, s);
    hide LeadsTo, Holders, Admits, Tracked;
    AdmitsExactly(s, Holders(acts), id, mode);
  }

  /** A call of `conditionally_lock` panics on the same condition, and otherwise succeeds exactly when it
      is permitted to and nobody is in the way. */
  lemma ConditionallyLockAnswersExactly(
    acts: seq<Action>, s: System, t: Tid, id: Id, mode: Mode, dep: Dep, permit: bool, o: Outcome, v: View)
    requires LeadsTo(Free, Initial(), acts, s) && id in s.locks
    requires TryEffect(ViewOf(s, t, id), t, id, mode, dep, permit, o, v)
    ensures var st := s.Stack(t);
            var cycle := st != [] && Reaches(Edges(s.graph.nodes), id, st[|st| - 1]);
            && (o.Panicked? <==> cycle)
            && (o == Returned(true) <==> !cycle && permit && Admits(Holders(acts), id, mode))
            && (o == Returned(false) <==> !cycle && !(permit && Admits(Holders(acts), id, mode)))
  {
    RunIsRecorded(acts, s);
    hide LeadsTo, Holders, Admits, Tracked;
    AdmitsExactly(s, Holders(acts), id, mode);
  }
}
