/** The shadow stack of locks a thread holds, and how acquiring and releasing keeps it and the
    dependency graph up to date (src/lib.rs). */
module LockTracking {
  import opened GraphModel
  import opened Insertion
  import opened Search
  import opened DiGraphs

  type Id = nat

  /** The opaque data attached to a dependency. */
  datatype Dep = Dep(trace: string)

  type Deps = Graph<Id, Dep>

  /** Effect of `mark_held`: a new entry on the stack and a dependency from the old top to it, or
      nothing at all when that dependency would close a cycle (the caller panics). */
  ghost predicate MarkHeldStep(
    graph: Deps, stack: seq<Id>, id: Id, dep: Dep, accepted: bool, graph': Deps, stack': seq<Id>)
  {
    if stack == [] then accepted && graph' == graph && stack' == [id]
    else
      && AddEdgeStep(graph, stack[|stack| - 1], id, dep, accepted, graph')
      && stack' == if accepted then stack + [id] else stack
  }

  /** The stack without the last occurrence of `id`. */
  function Released(stack: seq<Id>, id: Id): seq<Id> {
    if stack == [] then []
    else
      var n := |stack| - 1;
      if stack[n] == id then stack[..n] else Released(stack[..n], id) + [stack[n]]
  }

  lemma {:induction false} ReleasedAt(stack: seq<Id>, id: Id, i: nat)
    requires i < |stack| && stack[i] == id && id !in stack[i + 1..]
    ensures Released(stack, id) == stack[..i] + stack[i + 1..]
    decreases |stack|
  {
    var n := |stack| - 1;
    if i < n {
      assert stack[n] in stack[i + 1..];
      assert stack[i + 1..] == stack[..n][i + 1..] + [stack[n]];
      ReleasedAt(stack[..n], id, i);
    }
  }

  lemma {:induction false} ReleasedAbsent(stack: seq<Id>, id: Id)
    requires id !in stack
    ensures Released(stack, id) == stack
    decreases |stack|
  {
    if stack != [] {
      ReleasedAbsent(stack[..|stack| - 1], id);
    }
  }

  /** Releasing takes one entry out and keeps the others in their order: entry `k` of the new stack
      is entry `k` or `k + 1` of the old one. */
  lemma {:induction false} ReleasedSplits(stack: seq<Id>, id: Id) returns (i: nat)
    requires id in stack
    ensures i < |stack| && stack[i] == id && id !in stack[i + 1..]
    ensures Released(stack, id) == stack[..i] + stack[i + 1..]
    decreases |stack|
  {
    var n := |stack| - 1;
    if stack[n] == id {
      i := n;
    } else {
      i := ReleasedSplits(stack[..n], id);
      assert stack[i + 1..] == stack[..n][i + 1..] + [stack[n]];
    }
  }

  /** Marking a lock as held and then as released restores the stack. */
  lemma HeldThenReleased(graph: Deps, stack: seq<Id>, id: Id, dep: Dep, graph': Deps, stack': seq<Id>)
    requires MarkHeldStep(graph, stack, id, dep, true, graph', stack')
    ensures Released(stack', id) == stack
  {
  }

  /** The thread-local list of held locks. */
  class HeldLocks {
    var locks: seq<Id>

    constructor ()
      ensures locks == []
    {
      locks := [];
    }

    /** Record that this thread is about to hold `id`; on an error the caller panics. */
    method MarkHeld(graph: DiGraph<Id, Dep>, id: Id, dep: Dep) returns (r: Result<Dep>)
      requires Valid(graph.State())
      modifies this, graph
      ensures Valid(graph.State())
      ensures MarkHeldStep(
                old(graph.State()), old(locks), id, dep, r.Ok?, graph.State(), locks)
      ensures r.Err? ==>
                locks != [] && GenuineCycle(old(graph.nodes), locks[|locks| - 1], id, r.cycle)
    {
      r := Ok;
      if |locks| > 0 {
        var previous := locks[|locks| - 1];
        r := graph.AddEdge(previous, id, dep);
      }
      if r.Ok? {
        locks := locks + [id];
      }
    }

    /** Take `id` off the list. The result is false where the original declares the case unreachable
        and panics: when `id` is not on the list. */
    method MarkReleased(id: Id) returns (found: bool)
      modifies this
      ensures found <==> id in old(locks)
      ensures locks == Released(old(locks), id)
    {
      var i := |locks|;
      while i > 0
        invariant 0 <= i <= |locks| && locks == old(locks) && id !in locks[i..]
      {
        i := i - 1;
        assert locks[i..] == [locks[i]] + locks[i + 1..];
        if locks[i] == id {
          ReleasedAt(locks, id, i);
          locks := locks[..i] + locks[i + 1..];
          return true;
        }
      }
      assert locks[0..] == locks;
      ReleasedAbsent(locks, id);
      return false;
    }
  }
}
