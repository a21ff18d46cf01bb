/** How a thread's stack of lock ids relates to the dependency graph (src/lib.rs, `HELD_LOCKS`). */
module LockStacks {
  import opened Reachability
  import opened GraphModel
  import opened Insertion
  import opened LockTracking

  /** Every entry reaches every later entry along at least one dependency. */
  ghost predicate OrderedStack(es: set<(Id, Id)>, st: seq<Id>) {
    forall i, j :: 0 <= i < j < |st| ==> Precedes(es, st[i], st[j])
  }

  /** Every entry reaches every later entry, or is the same lock. */
  ghost predicate ConnectedStack(es: set<(Id, Id)>, st: seq<Id>) {
    forall i, j :: 0 <= i < j < |st| ==> Reaches(es, st[i], st[j])
  }

  /** Neighbouring entries are joined by a direct dependency. */
  ghost predicate LinkedStack(es: set<(Id, Id)>, st: seq<Id>) {
    IsPath(es, st) || st == []
  }

  lemma {:induction false} LinkedIsOrdered(es: set<(Id, Id)>, st: seq<Id>)
    requires LinkedStack(es, st)
    ensures OrderedStack(es, st)
  {
    forall i, j | 0 <= i < j < |st| ensures Precedes(es, st[i], st[j]) {
      assert (st[i], st[i + 1]) in es;
      assert Connects(es, st[i + 1..j + 1], st[i + 1], st[j]);
    }
  }

  lemma OrderedStackMonotone(es: set<(Id, Id)>, fs: set<(Id, Id)>, st: seq<Id>)
    requires OrderedStack(es, st) && es <= fs
    ensures OrderedStack(fs, st)
  {
    forall i, j | 0 <= i < j < |st| ensures Precedes(fs, st[i], st[j]) {
      Monotone(es, fs, st[i], st[j]);
    }
  }

  /** A dependency from the top alone orders the new entry after all the others. */
  lemma OrderedStackPush(es: set<(Id, Id)>, st: seq<Id>, id: Id)
    requires OrderedStack(es, st) && st != [] && (st[|st| - 1], id) in es
    ensures OrderedStack(es, st + [id])
  {
    var top := st[|st| - 1];
    EdgeReaches(es, top, id);
    forall i, j | 0 <= i < j < |st + [id]| ensures Precedes(es, (st + [id])[i], (st + [id])[j]) {
      if j == |st| && i < |st| - 1 {
        PrecedesThen(es, st[i], top, id);
      }
    }
  }

  /** Releasing any entry, not only the top, leaves the others ordered. */
  lemma OrderedStackRelease(es: set<(Id, Id)>, st: seq<Id>, id: Id)
    requires OrderedStack(es, st) && id in st
    ensures OrderedStack(es, Released(st, id))
  {
    var k := ReleasedSplits(st, id);
    var rest := st[..k] + st[k + 1..];
    forall i, j | 0 <= i < j < |rest| ensures Precedes(es, rest[i], rest[j]) {
      assert rest[i] == st[if i < k then i else i + 1];
      assert rest[j] == st[if j < k then j else j + 1];
    }
  }

  // ----- connected stacks -----

  lemma OrderedIsConnected(es: set<(Id, Id)>, st: seq<Id>)
    requires OrderedStack(es, st)
    ensures ConnectedStack(es, st)
  {
    forall i, j | 0 <= i < j < |st| ensures Reaches(es, st[i], st[j]) {
      PrecedesReaches(es, st[i], st[j]);
    }
  }

  lemma ConnectedStackMonotone(es: set<(Id, Id)>, fs: set<(Id, Id)>, st: seq<Id>)
    requires ConnectedStack(es, st) && es <= fs
    ensures ConnectedStack(fs, st)
  {
    forall i, j | 0 <= i < j < |st| ensures Reaches(fs, st[i], st[j]) {
      Monotone(es, fs, st[i], st[j]);
    }
  }

  lemma ConnectedStackPush(es: set<(Id, Id)>, st: seq<Id>, id: Id)
    requires ConnectedStack(es, st) && (st != [] ==> (st[|st| - 1], id) in es)
    ensures ConnectedStack(es, st + [id])
    ensures forall i :: 0 <= i < |st| ==> Precedes(es, st[i], id)
  {
    forall i | 0 <= i < |st| ensures Precedes(es, st[i], id) && Reaches(es, st[i], id) {
      var top := st[|st| - 1];
      EdgeReaches(es, top, id);
      if i < |st| - 1 && st[i] != top {
        EndsAreEdges(es, st[i], top);
        PrecedesThen(es, st[i], top, id);
      }
      PrecedesReaches(es, st[i], id);
    }
  }

  lemma ConnectedStackRelease(es: set<(Id, Id)>, st: seq<Id>, id: Id)
    requires ConnectedStack(es, st) && id in st
    ensures ConnectedStack(es, Released(st, id))
  {
    var k := ReleasedSplits(st, id);
    var rest := st[..k] + st[k + 1..];
    forall i, j | 0 <= i < j < |rest| ensures Reaches(es, rest[i], rest[j]) {
      assert rest[i] == st[if i < k then i else i + 1];
      assert rest[j] == st[if j < k then j else j + 1];
    }
  }

  /** In an acyclic graph an ordered stack holds no id twice. */
  lemma OrderedIsDistinct(g: Deps, st: seq<Id>)
    requires Valid(g) && OrderedStack(Edges(g.nodes), st)
    ensures Distinct(st)
  {
    forall i, j | 0 <= i < j < |st| ensures st[i] != st[j] {
      Ascends(Edges(g.nodes), Ords(g.nodes), st[i], st[j]);
    }
  }

  /** A lock that is already on the stack is never accepted a second time. */
  lemma HeldIsRejected(g: Deps, st: seq<Id>, id: Id, dep: Dep, g': Deps, st': seq<Id>)
    requires OrderedStack(Edges(g.nodes), st)
    requires MarkHeldStep(g, st, id, dep, true, g', st')
    ensures id !in st
  {
    var es := Edges(g.nodes);
    Reflexive(es, id);
    if id in st {
      var i :| 0 <= i < |st| && st[i] == id;
      if i < |st| - 1 {
        PrecedesReaches(es, id, st[|st| - 1]);
      }
    }
  }

  /** What accepting a lock does to the graph: at most the one dependency from the old top. */
  lemma MarkHeldEdges(g: Deps, st: seq<Id>, id: Id, dep: Dep, g': Deps, st': seq<Id>)
    requires Valid(g) && MarkHeldStep(g, st, id, dep, true, g', st')
    ensures Valid(g')
    ensures Edges(g'.nodes) == if st == [] then Edges(g.nodes) else Edges(g.nodes) + {(st[|st| - 1], id)}
    ensures g'.nodes.Keys == if st == [] then g.nodes.Keys else g.nodes.Keys + {st[|st| - 1], id}
  {
    if st != [] {
      EdgeAddedKeeps(g, st[|st| - 1], id, dep, g');
    }
  }

  /** What accepting a lock does to the data in the graph: a new dependency carries the data of this
      request, an old one keeps its own. */
  lemma MarkHeldLabels(g: Deps, st: seq<Id>, id: Id, dep: Dep, g': Deps, st': seq<Id>)
    requires Valid(g) && MarkHeldStep(g, st, id, dep, true, g', st')
    ensures EdgeMap(g'.nodes) ==
            if st == [] || (st[|st| - 1], id) in EdgeMap(g.nodes) then EdgeMap(g.nodes)
            else EdgeMap(g.nodes)[(st[|st| - 1], id) := dep]
  {
    if st != [] {
      EdgeAddedKeeps(g, st[|st| - 1], id, dep, g');
    }
  }

  lemma {:induction false} ReleasedOnce(st: seq<Id>, id: Id)
    requires id in st
    ensures multiset(Released(st, id)) == multiset(st) - multiset{id}
    decreases |st|
  {
    var n := |st| - 1;
    assert st == st[..n] + [st[n]];
    if st[n] != id {
      ReleasedOnce(st[..n], id);
    }
  }

  lemma ReleasedMembers(st: seq<Id>, id: Id)
    requires id in st
    ensures forall v :: v in Released(st, id) ==> v in st
  {
  }

  /** Without repetition, an entry is on the stack once. */
  lemma {:induction false} DistinctOnce(st: seq<Id>, id: Id)
    requires Distinct(st)
    ensures multiset(st)[id] == if id in st then 1 else 0
    decreases |st|
  {
    if st != [] {
      var n := |st| - 1;
      DistinctOnce(st[..n], id);
      assert st == st[..n] + [st[n]];
    }
  }
}
