/** A traced lock: an inner lock whose every operation is bracketed by shadow-stack updates
    (src/lockapi.rs). */
module LockWrapper {
  import opened GraphModel
  import opened Search
  import opened DiGraphs
  import opened LockTracking

  type Tid = nat

  datatype Mode = Exclusive | Shared

  datatype Option<T> = None | Some(value: T)

  /** The inner lock: at most one writer, or any number of readers. A reader that got in several times
      counts that often. */
  datatype RawLock = RawLock(writer: Option<Tid>, readers: multiset<Tid>) {
    predicate HeldBy(t: Tid) {
      writer == Some(t) || t in readers
    }

    /** How often `t` has got in. */
    function Count(t: Tid): nat {
      (if writer == Some(t) then 1 else 0) + readers[t]
    }

    predicate CanAcquire(mode: Mode) {
      writer.None? && (mode.Exclusive? ==> readers == multiset{})
    }

    function Acquire(t: Tid, mode: Mode): RawLock {
      if mode.Exclusive? then RawLock(Some(t), readers) else RawLock(writer, readers + multiset{t})
    }

    function Release(t: Tid): RawLock {
      if writer == Some(t) then RawLock(None, readers) else RawLock(writer, readers - multiset{t})
    }
  }

  const FREE := RawLock(None, multiset{})

  /** A thread that got in exclusively keeps everybody out; a reader keeps out writers only. */
  lemma Exclusion(l: RawLock, t: Tid, mode: Mode, next: Mode)
    requires l.CanAcquire(mode)
    ensures l.Acquire(t, mode).CanAcquire(next) <==> mode.Shared? && next.Shared?
    ensures l.Acquire(t, mode).HeldBy(t)
  {
    assert t in l.Acquire(t, Shared).readers;
  }

  /** Giving a lock back undoes the taking of it. */
  lemma AcquireThenRelease(l: RawLock, t: Tid, mode: Mode)
    requires l.CanAcquire(mode)
    ensures l.Acquire(t, mode).Release(t) == l
  {
  }

  /** How a call that takes the lock ends: it panics on a cycle, it is still waiting, or it returns. */
  datatype Outcome = Panicked(cycle: seq<Dep>) | Blocked | Returned(acquired: bool)

  /** What one call works on: the graph, its thread's stack and its inner lock. */
  datatype View = View(graph: Deps, stack: seq<Id>, inner: RawLock)

  /** Mark as held, then lock. */
  ghost predicate LockEffect(v: View, t: Tid, id: Id, mode: Mode, dep: Dep, o: Outcome, v': View) {
    && MarkHeldStep(v.graph, v.stack, id, dep, !o.Panicked?, v'.graph, v'.stack)
    && match o
       case Panicked(_) => v' == v
       case Blocked => v'.inner == v.inner && !v.inner.CanAcquire(mode)
       case Returned(acquired) =>
         acquired && v.inner.CanAcquire(mode) && v'.inner == v.inner.Acquire(t, mode)
  }

  /** Mark as held, try to lock, and on failure restore the stack exactly; the dependency stays. */
  ghost predicate TryEffect(
    v: View, t: Tid, id: Id, mode: Mode, dep: Dep, permit: bool, o: Outcome, v': View)
  {
    match o
    case Panicked(_) => MarkHeldStep(v.graph, v.stack, id, dep, false, v'.graph, v'.stack) && v' == v
    case Blocked => false
    case Returned(acquired) =>
      && acquired == (permit && v.inner.CanAcquire(mode))
      && MarkHeldStep(v.graph, v.stack, id, dep, true, v'.graph, v.stack + [id])
      && v'.stack == (if acquired then v.stack + [id] else v.stack)
      && v'.inner == if acquired then v.inner.Acquire(t, mode) else v.inner
  }

  /** Unlock, then mark as released. */
  ghost predicate UnlockEffect(v: View, t: Tid, id: Id, found: bool, v': View) {
    && (found <==> id in v.stack)
    && v' == View(v.graph, Released(v.stack, id), v.inner.Release(t))
  }

  /** A traced lock. Every method states its effect on the view of its caller. */
  class TracingWrapper {
    const id: Id
    var inner: RawLock

    constructor (id: Id)
      ensures this.id == id && inner == FREE
    {
      this.id := id;
      inner := FREE;
    }

    ghost function Seen(held: HeldLocks, graph: DiGraph<Id, Dep>): View
      reads this, held, graph
    {
      View(graph.State(), held.locks, inner)
    }

    method Lock(t: Tid, held: HeldLocks, graph: DiGraph<Id, Dep>, mode: Mode, dep: Dep)
      returns (o: Outcome)
      requires Valid(graph.State())
      modifies this, held, graph
      ensures Valid(graph.State())
      ensures LockEffect(old(Seen(held, graph)), t, id, mode, dep, o, Seen(held, graph))
      ensures o.Panicked? ==>
                held.locks != [] && GenuineCycle(graph.nodes, held.locks[|held.locks| - 1], id, o.cycle)
    {
      ghost var v := Seen(held, graph);
      var r := held.MarkHeld(graph, id, dep);
      if r.Err? {
        PanicChangesNothing(v.graph, v.stack, id, dep, graph.State(), held.locks);
        return Panicked(r.cycle);
      }
      MarkHeldPushes(v.graph, v.stack, id, dep, graph.State(), held.locks);
      if !inner.CanAcquire(mode) {
        return Blocked;
      }
      inner := inner.Acquire(t, mode);
      return Returned(true);
    }

    method Unlock(t: Tid, held: HeldLocks, ghost graph: DiGraph<Id, Dep>) returns (found: bool)
      modifies this, held
      ensures UnlockEffect(old(Seen(held, graph)), t, id, found, Seen(held, graph))
    {
      inner := inner.Release(t);
      found := held.MarkReleased(id);
    }

    /** `permit` stands for whatever else may make the attempt fail, a timeout for instance. */
    method ConditionallyLock(
      t: Tid, held: HeldLocks, graph: DiGraph<Id, Dep>, mode: Mode, dep: Dep, permit: bool)
      returns (o: Outcome)
      requires Valid(graph.State())
      modifies this, held, graph
      ensures Valid(graph.State())
      ensures TryEffect(old(Seen(held, graph)), t, id, mode, dep, permit, o, Seen(held, graph))
      ensures o.Panicked? ==>
                held.locks != [] && GenuineCycle(graph.nodes, held.locks[|held.locks| - 1], id, o.cycle)
    {
      ghost var v := Seen(held, graph);
      var r := held.MarkHeld(graph, id, dep);
      if r.Err? {
        PanicChangesNothing(v.graph, v.stack, id, dep, graph.State(), held.locks);
        return Panicked(r.cycle);
      }
      MarkHeldPushes(v.graph, v.stack, id, dep, graph.State(), held.locks);
      if permit && inner.CanAcquire(mode) {
        inner := inner.Acquire(t, mode);
        return Returned(true);
      }
      HeldThenReleased(v.graph, v.stack, id, dep, graph.State(), held.locks);
      var found := held.MarkReleased(id);
      return Returned(false);
    }
  }

  lemma PanicChangesNothing(graph: Deps, stack: seq<Id>, id: Id, dep: Dep, graph': Deps, stack': seq<Id>)
    requires MarkHeldStep(graph, stack, id, dep, false, graph', stack')
    ensures graph' == graph && stack' == stack
  {
  }

  lemma MarkHeldPushes(graph: Deps, stack: seq<Id>, id: Id, dep: Dep, graph': Deps, stack': seq<Id>)
    requires MarkHeldStep(graph, stack, id, dep, true, graph', stack')
    ensures stack' == stack + [id]
  {
  }
}
