/** The mutable dependency graph with its dynamic topological order (src/graph.rs). Hash tables are
    traversed by picking any remaining entry, so every result below holds for every traversal order. */
module DiGraphs {
  import opened Reachability
  import opened GraphModel
  import opened OrderRepair
  import opened Insertion
  import opened Search
  import opened Sorting

  datatype Result<E> = Ok | Err(cycle: seq<E>)

  class DiGraph<V(==, !new), E(!new)> {
    var nodes: Nodes<V, E>
    var unusedOrder: seq<nat>

    ghost function State(): Graph<V, E>
      reads this
    {
      Graph(nodes, unusedOrder)
    }

    constructor ()
      ensures State() == Empty() && Valid(State())
    {
      nodes, unusedOrder := map[], [];
      new;
      hide Valid;
      EmptyIsValid<V, E>();
    }

    /** Find or create the node `n`, and return its order. */
    method AddNode(n: V) returns (ord: nat)
      modifies this
      ensures State() == WithNode(old(State()), n)
      ensures n in nodes && ord == nodes[n].ord
    {
      var fallbackId := |nodes|;
      if n !in nodes {
        var order := fallbackId;
        if |unusedOrder| > 0 {
          order := unusedOrder[|unusedOrder| - 1];
          unusedOrder := unusedOrder[..|unusedOrder| - 1];
        }
        nodes := nodes[n := Node({}, map[], order)];
      }
      ord := nodes[n].ord;
    }

    method RemoveNode(n: V) returns (found: bool)
      requires Valid(State())
      modifies this
      ensures Valid(State())
      ensures found <==> n in old(nodes)
      ensures State() == WithoutNode(old(State()), n)
    {
      hide Valid, WithoutNode, Erased;
      ghost var pre := State();
      WithoutNodeKeeps(pre, n);
      if n !in nodes {
        AbsentNode(pre, n);
        return false;
      }
      NeighboursAreLive(pre, n);
      var node := nodes[n];
      nodes := nodes - {n};
      unusedOrder := unusedOrder + [node.ord];
      ghost var pool := unusedOrder;
      var targets := node.outEdges.Keys;
      assert node.outEdges.Keys - targets == {};
      while targets != {}
        modifies `nodes
        invariant unusedOrder == pool
        invariant targets <= node.outEdges.Keys
        invariant nodes == Erased(pre.nodes, n, node.outEdges.Keys - targets, {})
        decreases targets
      {
        var m :| m in targets;
        EraseTarget(pre.nodes, n, node.outEdges.Keys, targets, m);
        targets := targets - {m};
        nodes := nodes[m := nodes[m].(inEdges := nodes[m].inEdges - {n})];
      }
      var sources := node.inEdges;
      assert node.outEdges.Keys - targets == node.outEdges.Keys;
      assert node.inEdges - sources == {};
      while sources != {}
        modifies `nodes
        invariant unusedOrder == pool
        invariant sources <= node.inEdges
        invariant nodes == Erased(pre.nodes, n, node.outEdges.Keys, node.inEdges - sources)
        decreases sources
      {
        var m :| m in sources;
        EraseSource(pre.nodes, n, node.outEdges.Keys, node.inEdges, sources, m);
        sources := sources - {m};
        nodes := nodes[m := nodes[m].(outEdges := nodes[m].outEdges - {n})];
      }
      assert node.inEdges - sources == node.inEdges;
      ErasedIsWithoutNode(pre, n);
      assert State() == WithoutNode(pre, n);
      return true;
    }

    /** Insert the edge `x -> y` unless that would close a cycle. */
    method AddEdge(x: V, y: V, e: E) returns (r: Result<E>)
      requires Valid(State())
      modifies this
      ensures Valid(State())
      ensures AddEdgeStep(old(State()), x, y, e, r.Ok?, State())
      ensures r.Ok? <==> !Reaches(old(Edges(nodes)), y, x)
      ensures r.Err? ==> State() == old(State())
      ensures r.Err? ==> GenuineCycle(old(nodes), x, y, r.cycle)
    {
      if x == y {
        SelfEdge(nodes, x);
        return Err([]);
      }
      ghost var pre := State();
      var ub := AddNode(x);
      if y in nodes[x].outEdges {
        PresentEdge(pre, x, y, e);
        return Ok;
      }
      nodes := nodes[x := nodes[x].(outEdges := nodes[x].outEdges[y := e])];
      var lb := AddNode(y);
      nodes := nodes[y := nodes[y].(inEdges := nodes[y].inEdges + {x})];
      LinkingOrder(pre, x, y, e);
      assert State() == Linked(pre, x, y, e);
      assert ub == nodes[x].ord && lb == nodes[y].ord;
      if lb < ub {
        ReadyToSearch(pre, x, y, e);
        var visited, deltaF, deltaB := {x, y}, [], [];
        var f;
        f, visited, deltaF := DfsF(y, ub, visited, deltaF);
        if f.Err? {
          nodes := nodes[y := nodes[y].(inEdges := nodes[y].inEdges - {x})];
          nodes := nodes[x := nodes[x].(outEdges := nodes[x].outEdges - {y})];
          Rejected(pre, x, y, e, State(), f.cycle);
          return f;
        }
        ForwardExact(nodes, Edges(pre.nodes), x, y, visited, deltaF);
        ghost var seen := visited;
        BackwardCanStart(nodes, Edges(pre.nodes), x, y, visited);
        visited, deltaB := DfsB(x, lb, visited, deltaB);
        BackwardExact(nodes, Edges(pre.nodes), x, y, seen, visited, deltaB);
        ReadyToReorder(nodes, Edges(pre.nodes), x, y, deltaF, deltaB);
        Reorder(deltaF, deltaB);
        AcceptedBelow(pre, x, y, e, State());
      } else {
        AcceptedAbove(pre, x, y, e);
      }
      return Ok;
    }

    /** Forward depth-first search from `n`, staying below `ub`. */
    method DfsF(n: V, ub: nat, visited: set<V>, deltaF: seq<V>)
      returns (r: Result<E>, visited': set<V>, deltaF': seq<V>)
      requires EndsLive(nodes) && CanStart(nodes, n, visited, deltaF) && nodes[n].ord < ub
      ensures r.Ok? ==> ForwardPass(nodes, n, ub, visited, deltaF, visited', deltaF')
      ensures r.Err? ==> exists p :: HitsBound(nodes, n, ub, p, r.cycle)
      decreases nodes.Keys - visited
    {
      visited', deltaF' := visited, deltaF + [n];
      var remaining := nodes[n].outEdges.Keys;
      ForwardStart(nodes, n, ub, visited, deltaF);
      while remaining != {}
        invariant remaining <= nodes[n].outEdges.Keys
        invariant ForwardPartial(nodes, n, ub, visited, deltaF, visited', deltaF', remaining)
        decreases remaining
      {
        var w :| w in remaining;
        ghost var before := remaining;
        remaining := remaining - {w};
        assert before == remaining + {w};
        var ord := nodes[w].ord;
        if ord == ub {
          HitDirectly(nodes, n, ub, w);
          return Err([nodes[n].outEdges[w]]), visited', deltaF';
        } else if w !in visited' && ord < ub {
          ghost var visited1, delta1 := visited', deltaF';
          var chain;
          chain, visited', deltaF' := DfsF(w, ub, visited' + {w}, deltaF');
          if chain.Err? {
            ghost var p :| HitsBound(nodes, w, ub, p, chain.cycle);
            HitThrough(nodes, n, ub, w, p, chain.cycle);
            return Err(chain.cycle + [nodes[n].outEdges[w]]), visited', deltaF';
          }
          ForwardJoin(nodes, n, w, ub, visited, deltaF, visited1, delta1, visited', deltaF', remaining);
        }
      }
      return Ok, visited', deltaF';
    }

    /** Backward depth-first search from `n`, staying above `lb`. */
    method DfsB(n: V, lb: nat, visited: set<V>, deltaB: seq<V>)
      returns (visited': set<V>, deltaB': seq<V>)
      requires EndsLive(nodes) && Mirrored(nodes)
      requires CanStart(nodes, n, visited, deltaB) && lb < nodes[n].ord
      ensures BackwardPass(nodes, n, lb, visited, deltaB, visited', deltaB')
      decreases nodes.Keys - visited
    {
      visited', deltaB' := visited, deltaB + [n];
      var remaining := nodes[n].inEdges;
      BackwardStart(nodes, n, lb, visited, deltaB);
      while remaining != {}
        invariant remaining <= nodes[n].inEdges
        invariant BackwardPartial(nodes, n, lb, visited, deltaB, visited', deltaB', remaining)
        decreases remaining
      {
        var w :| w in remaining;
        ghost var before := remaining;
        remaining := remaining - {w};
        assert before == remaining + {w};
        if w !in visited' && lb < nodes[w].ord {
          ghost var visited1, delta1 := visited', deltaB';
          visited', deltaB' := DfsB(w, lb, visited' + {w}, deltaB');
          BackwardJoin(nodes, n, w, lb, visited, deltaB, visited1, delta1, visited', deltaB', remaining);
        }
      }
    }

    /** Deal the orders of the affected vertices out again. */
    method Reorder(deltaF: seq<V>, deltaB: seq<V>)
      requires OrdInjective(nodes) && Elements(deltaB) + Elements(deltaF) <= nodes.Keys
      requires Distinct(deltaF) && Distinct(deltaB) && Elements(deltaB) !! Elements(deltaF)
      modifies `nodes
      ensures Reordered(old(nodes), Elements(deltaB), Elements(deltaF), nodes)
    {
      ghost var pre := nodes;
      var sortedF := Sort(deltaF);
      var sortedB := Sort(deltaB);
      var chain := sortedB + sortedF;
      ChainIsLive(pre, sortedB, sortedF);
      var l, raw := [], [];
      for i := 0 to |chain|
        modifies {}
        invariant l == chain[..i] && Gathered(pre, l, raw)
      {
        GatherOne(pre, chain, i, l, raw);
        raw := raw + [nodes[chain[i]].ord];
        l := l + [chain[i]];
      }
      assert l == chain;
      var orders := SortNumbers(raw);
      Rearranged(raw, orders);
      assert Prepared(pre, sortedB, sortedF, l, raw, orders);
      PreparedIsLive(pre, sortedB, sortedF, l, raw, orders);
      for i := 0 to |l|
        invariant OnlyOrders(pre, nodes) && Dealt(Ords(pre), l, orders, i, Ords(nodes))
      {
        DealOne(pre, l, orders, i, nodes);
        nodes := nodes[l[i] := nodes[l[i]].(ord := orders[i])];
      }
      DealtIsReordered(pre, sortedB, sortedF, l, raw, orders, nodes);
    }

    function Sort(ids: seq<V>): (r: seq<V>)
      reads this
      requires Elements(ids) <= nodes.Keys
      ensures multiset(r) == multiset(ids) && Ascending(r, Ords(nodes))
      ensures Elements(r) == Elements(ids) && (Distinct(ids) ==> Distinct(r))
    {
      var r := SortByKey(ids, Ords(nodes));
      Rearranged(ids, r);
      r
    }
  }

  // ----- remove_node -----

  /** `n` is gone, and with it the in-edges of `targets` and the out-edges of `sources`. */
  ghost function Erased<V(!new), E(!new)>(
    pre: Nodes<V, E>, n: V, targets: set<V>, sources: set<V>): Nodes<V, E>
  {
    map m | m in pre && m != n ::
      Node(
        if m in targets then pre[m].inEdges - {n} else pre[m].inEdges,
        if m in sources then pre[m].outEdges - {n} else pre[m].outEdges,
        pre[m].ord)
  }

  lemma AbsentNode<V(!new), E(!new)>(g: Graph<V, E>, n: V)
    requires n !in g.nodes
    ensures WithoutNode(g, n) == g
  {
  }

  lemma NeighboursAreLive<V(!new), E(!new)>(g: Graph<V, E>, n: V)
    requires Valid(g) && n in g.nodes
    ensures g.nodes[n].outEdges.Keys <= g.nodes.Keys - {n}
    ensures g.nodes[n].inEdges <= g.nodes.Keys - {n}
    ensures Mirrored(g.nodes)
    ensures g.nodes - {n} == Erased(g.nodes, n, {}, {})
  {
  }

  lemma EraseTarget<V(!new), E(!new)>(pre: Nodes<V, E>, n: V, all: set<V>, targets: set<V>, m: V)
    requires m in targets && targets <= all <= pre.Keys - {n}
    ensures var nodes := Erased(pre, n, all - targets, {});
            && m in nodes
            && nodes[m := nodes[m].(inEdges := nodes[m].inEdges - {n})]
               == Erased(pre, n, all - (targets - {m}), {})
  {
  }

  lemma EraseSource<V(!new), E(!new)>(
    pre: Nodes<V, E>, n: V, targets: set<V>, all: set<V>, sources: set<V>, m: V)
    requires m in sources && sources <= all <= pre.Keys - {n}
    ensures var nodes := Erased(pre, n, targets, all - sources);
            && m in nodes
            && nodes[m := nodes[m].(outEdges := nodes[m].outEdges - {n})]
               == Erased(pre, n, targets, all - (sources - {m}))
  {
  }

  lemma ErasedIsWithoutNode<V(!new), E(!new)>(g: Graph<V, E>, n: V)
    requires Mirrored(g.nodes) && n in g.nodes
    ensures Graph(Erased(g.nodes, n, g.nodes[n].outEdges.Keys, g.nodes[n].inEdges),
                  g.unusedOrder + [g.nodes[n].ord]) == WithoutNode(g, n)
  {
    var nodes := Erased(g.nodes, n, g.nodes[n].outEdges.Keys, g.nodes[n].inEdges);
    var h := WithoutNode(g, n).nodes;
    forall m | m in nodes ensures nodes[m] == h[m] {
      if m !in g.nodes[n].outEdges {
        assert n !in g.nodes[m].inEdges;
        assert g.nodes[m].inEdges - {n} == g.nodes[m].inEdges;
      }
      if m !in g.nodes[n].inEdges {
        assert n !in g.nodes[m].outEdges;
        assert g.nodes[m].outEdges - {n} == g.nodes[m].outEdges;
      }
    }
  }

  // ----- add_edge -----

  lemma SelfEdge<V(!new), E(!new)>(nodes: Nodes<V, E>, x: V)
    ensures Reaches(Edges(nodes), x, x) && GenuineCycle(nodes, x, x, [])
  {
    Reflexive(Edges(nodes), x);
    assert CycleWalk(nodes, x, x, [x], []);
  }

  lemma PresentEdge<V(!new), E(!new)>(pre: Graph<V, E>, x: V, y: V, e: E)
    requires Valid(pre) && y in WithNode(pre, x).nodes[x].outEdges
    ensures WithNode(pre, x) == pre && AddEdgeStep(pre, x, y, e, true, pre)
  {
    assert (x, y) in Edges(pre.nodes);
    ValidIsAcyclic(pre);
  }

  /** Recording the out-edge before the head exists, or after, makes no difference. */
  lemma LinkingOrder<V(!new), E(!new)>(pre: Graph<V, E>, x: V, y: V, e: E)
    requires x != y
    ensures var h := WithNode(pre, x);
            var mid := WithNode(WithOut(h, x, y, e), y);
            mid.(nodes := mid.nodes[y := mid.nodes[y].(inEdges := mid.nodes[y].inEdges + {x})])
            == Linked(pre, x, y, e)
    ensures Linked(pre, x, y, e).nodes[x].ord == WithNode(pre, x).nodes[x].ord
  {
    var h := WithNode(pre, x);
    UpdateThenAdd(h, x, h.nodes[x].(outEdges := h.nodes[x].outEdges[y := e]), y);
  }

  function WithOut<V(==), E>(h: Graph<V, E>, x: V, y: V, e: E): Graph<V, E>
    requires x in h.nodes
  {
    Graph(h.nodes[x := h.nodes[x].(outEdges := h.nodes[x].outEdges[y := e])], h.unusedOrder)
  }

  lemma UpdateThenAdd<V(!new), E(!new)>(h: Graph<V, E>, x: V, node: Node<V, E>, y: V)
    requires x in h.nodes && x != y
    ensures WithNode(Graph(h.nodes[x := node], h.unusedOrder), y) ==
            Graph(WithNode(h, y).nodes[x := node], WithNode(h, y).unusedOrder)
    ensures WithNode(h, y).nodes[x] == h.nodes[x]
  {
  }

  lemma ReadyToSearch<V(!new), E(!new)>(pre: Graph<V, E>, x: V, y: V, e: E)
    requires Valid(pre) && x != y
    requires Linked(pre, x, y, e).nodes[y].ord < Linked(pre, x, y, e).nodes[x].ord
    ensures var nodes := Linked(pre, x, y, e).nodes;
            && EndsLive(nodes) && Inserted(nodes, Edges(pre.nodes), x, y)
            && CanStart(nodes, y, {x, y}, [])
  {
    LinkedKeeps(pre, x, y, e);
  }

  lemma BackwardCanStart<V(!new), E(!new)>(
    nodes: Nodes<V, E>, es: set<(V, V)>, x: V, y: V, visited: set<V>)
    requires Inserted(nodes, es, x, y)
    requires visited == {x} + After(es, Ords(nodes), y, nodes[x].ord)
    ensures CanStart(nodes, x, visited, [])
  {
  }

  lemma ForwardStart<V(!new), E(!new)>(nodes: Nodes<V, E>, n: V, ub: nat, visited: set<V>, delta: seq<V>)
    requires EndsLive(nodes) && CanStart(nodes, n, visited, delta) && nodes[n].ord < ub
    ensures ForwardPartial(nodes, n, ub, visited, delta, visited, delta + [n], nodes[n].outEdges.Keys)
  {
    Reflexive(Edges(nodes), n);
  }

  lemma BackwardStart<V(!new), E(!new)>(nodes: Nodes<V, E>, n: V, lb: nat, visited: set<V>, delta: seq<V>)
    requires EndsLive(nodes) && CanStart(nodes, n, visited, delta) && lb < nodes[n].ord
    ensures BackwardPartial(nodes, n, lb, visited, delta, visited, delta + [n], nodes[n].inEdges)
  {
    Reflexive(Edges(nodes), n);
  }

  /** Taking the edge out again restores the graph: on a cycle both ends were there before. */
  lemma Rejected<V(!new), E(!new)>(
    pre: Graph<V, E>, x: V, y: V, e: E, post: Graph<V, E>, labels: seq<E>)
    requires Valid(pre) && x != y && (x, y) !in Edges(pre.nodes)
    requires Linked(pre, x, y, e).nodes[y].ord < Linked(pre, x, y, e).nodes[x].ord
    requires post == Unlinked(Linked(pre, x, y, e), x, y)
    requires var l := Linked(pre, x, y, e).nodes; exists p :: HitsBound(l, y, l[x].ord, p, labels)
    ensures AddEdgeStep(pre, x, y, e, false, post)
    ensures GenuineCycle(pre.nodes, x, y, labels)
  {
    var l := Linked(pre, x, y, e).nodes;
    var p :| HitsBound(l, y, l[x].ord, p, labels);
    ReadyToSearch(pre, x, y, e);
    LinkedExtends(pre, x, y, e);
    HitIsGenuine(l, pre.nodes, x, y, p, labels);
    EndsAreEdges(Edges(pre.nodes), y, x);
    assert x in pre.nodes && y in pre.nodes;
    UnlinkRestores(pre, x, y, e);
  }

  function Unlinked<V(==), E>(g: Graph<V, E>, x: V, y: V): Graph<V, E>
    requires x in g.nodes && y in g.nodes
  {
    var mid := g.nodes[y := g.nodes[y].(inEdges := g.nodes[y].inEdges - {x})];
    Graph(mid[x := mid[x].(outEdges := mid[x].outEdges - {y})], g.unusedOrder)
  }

  lemma UnlinkRestores<V(!new), E(!new)>(pre: Graph<V, E>, x: V, y: V, e: E)
    requires Mirrored(pre.nodes) && x in pre.nodes && y in pre.nodes && x != y
    requires (x, y) !in Edges(pre.nodes)
    ensures Unlinked(Linked(pre, x, y, e), x, y) == pre
  {
    assert y !in pre.nodes[x].outEdges && x !in pre.nodes[y].inEdges;
    assert pre.nodes[x].outEdges[y := e] - {y} == pre.nodes[x].outEdges;
    assert pre.nodes[y].inEdges + {x} - {x} == pre.nodes[y].inEdges;
    LinkPoints(pre.nodes, x, y, e);
    assert Unlinked(Linked(pre, x, y, e), x, y).nodes.Keys == pre.nodes.Keys;
  }

  lemma LinkedExtends<V(!new), E(!new)>(pre: Graph<V, E>, x: V, y: V, e: E)
    requires x != y
    ensures Extends(Linked(pre, x, y, e).nodes, pre.nodes, x, y)
  {
    hide WithEnds;
    var h := WithEnds(pre, x, y);
    WithEndsPoints(pre, x, y);
    LinkPoints(h.nodes, x, y, e);
  }

  lemma WithEndsPoints<V(!new), E(!new)>(pre: Graph<V, E>, x: V, y: V)
    ensures var h := WithEnds(pre, x, y).nodes;
            && (forall v :: v in pre.nodes ==> v in h && h[v] == pre.nodes[v])
            && (forall v :: v in h && v !in pre.nodes ==> h[v].outEdges == map[])
  {
  }

  lemma ReadyToReorder<V(!new), E(!new)>(
    nodes: Nodes<V, E>, es: set<(V, V)>, x: V, y: V, deltaF: seq<V>, deltaB: seq<V>)
    requires Inserted(nodes, es, x, y) && !Reaches(es, y, x)
    requires forall v :: v in deltaF <==> v in After(es, Ords(nodes), y, nodes[x].ord)
    requires forall v :: v in deltaB <==> v in Before(es, Ords(nodes), x, nodes[y].ord)
    ensures Elements(deltaF) == After(es, Ords(nodes), y, nodes[x].ord)
    ensures Elements(deltaB) == Before(es, Ords(nodes), x, nodes[y].ord)
    ensures Elements(deltaB) !! Elements(deltaF)
    ensures Elements(deltaB) + Elements(deltaF) <= nodes.Keys
  {
    RegionsAreApart(es, Ords(nodes), x, y);
  }

  lemma AcceptedBelow<V(!new), E(!new)>(pre: Graph<V, E>, x: V, y: V, e: E, post: Graph<V, E>)
    requires Valid(pre) && x != y && (x, y) !in Edges(pre.nodes) && !Reaches(Edges(pre.nodes), y, x)
    requires EdgeAdded(pre, x, y, e, post)
    ensures AddEdgeStep(pre, x, y, e, true, post) && Valid(post)
  {
    EdgeAddedKeeps(pre, x, y, e, post);
  }

  /** An edge that already climbs needs no search: it cannot close a cycle. */
  lemma AcceptedAbove<V(!new), E(!new)>(pre: Graph<V, E>, x: V, y: V, e: E)
    requires Valid(pre) && x != y && (x, y) !in Edges(pre.nodes)
    requires Linked(pre, x, y, e).nodes[x].ord <= Linked(pre, x, y, e).nodes[y].ord
    ensures AddEdgeStep(pre, x, y, e, true, Linked(pre, x, y, e)) && Valid(Linked(pre, x, y, e))
  {
    LinkedKeeps(pre, x, y, e);
    var mid := Linked(pre, x, y, e);
    Ascends(Edges(pre.nodes), Ords(mid.nodes), y, x);
    OrdInjectiveMap(mid.nodes);
    DifferentOrders(Ords(mid.nodes), x, y);
    assert EdgeAdded(pre, x, y, e, mid);
    EdgeAddedKeeps(pre, x, y, e, mid);
  }

  // ----- reorder -----

  ghost predicate OnlyOrders<V(!new), E(!new)>(pre: Nodes<V, E>, nodes: Nodes<V, E>) {
    && nodes.Keys == pre.Keys
    && forall v :: v in pre ==>
         nodes[v].inEdges == pre[v].inEdges && nodes[v].outEdges == pre[v].outEdges
  }

  ghost predicate Gathered<V(!new), E(!new)>(nodes: Nodes<V, E>, l: seq<V>, raw: seq<nat>) {
    && |raw| == |l|
    && (forall v :: v in l ==> v in nodes)
    && (forall i :: 0 <= i < |raw| ==> raw[i] == Ords(nodes)[l[i]])
  }

  lemma ChainIsLive<V(!new), E(!new)>(nodes: Nodes<V, E>, s: seq<V>, t: seq<V>)
    requires Elements(s) + Elements(t) <= nodes.Keys
    ensures forall v :: v in s + t ==> v in nodes
  {
  }

  lemma GatherOne<V(!new), E(!new)>(nodes: Nodes<V, E>, chain: seq<V>, i: nat, l: seq<V>, raw: seq<nat>)
    requires i < |chain| && l == chain[..i] && Gathered(nodes, l, raw)
    requires forall v :: v in chain ==> v in nodes
    ensures chain[i] in nodes && l + [chain[i]] == chain[..i + 1]
    ensures Gathered(nodes, l + [chain[i]], raw + [nodes[chain[i]].ord])
  {
  }

  /** Everything `reorder` has worked out before it touches a node. */
  ghost predicate Prepared<V(!new), E(!new)>(
    nodes: Nodes<V, E>, sb: seq<V>, sf: seq<V>, l: seq<V>, raw: seq<nat>, orders: seq<nat>)
  {
    && l == sb + sf && Gathered(nodes, l, raw)
    && Distinct(sb) && Distinct(sf) && Elements(sb) !! Elements(sf)
    && Ascending(sb, Ords(nodes)) && Ascending(sf, Ords(nodes))
    && multiset(orders) == multiset(raw) && |orders| == |raw|
    && (forall i, j :: 0 <= i < j < |orders| ==> orders[i] <= orders[j])
  }

  lemma PreparedIsLive<V(!new), E(!new)>(
    nodes: Nodes<V, E>, sb: seq<V>, sf: seq<V>, l: seq<V>, raw: seq<nat>, orders: seq<nat>)
    requires Prepared(nodes, sb, sf, l, raw, orders)
    ensures Distinct(l) && |l| == |orders|
    ensures OnlyOrders(nodes, nodes) && Dealt(Ords(nodes), l, orders, 0, Ords(nodes))
  {
    ChainIsDistinct(sb, sf);
  }

  lemma DealtIsReordered<V(!new), E(!new)>(
    pre: Nodes<V, E>, sb: seq<V>, sf: seq<V>, l: seq<V>, raw: seq<nat>, orders: seq<nat>,
    nodes: Nodes<V, E>)
    requires OrdInjective(pre) && Prepared(pre, sb, sf, l, raw, orders)
    requires OnlyOrders(pre, nodes) && Dealt(Ords(pre), l, orders, |l|, Ords(nodes))
    ensures Reordered(pre, Elements(sb), Elements(sf), nodes)
  {
    OrdInjectiveMap(pre);
    DealIsRepair(Ords(pre), sb, sf, raw, orders, Ords(nodes));
  }

  lemma DealOne<V(!new), E(!new)>(
    pre: Nodes<V, E>, l: seq<V>, orders: seq<nat>, i: nat, nodes: Nodes<V, E>)
    requires i < |l| == |orders| && Distinct(l)
    requires OnlyOrders(pre, nodes) && Dealt(Ords(pre), l, orders, i, Ords(nodes))
    ensures l[i] in nodes
    ensures var after := nodes[l[i] := nodes[l[i]].(ord := orders[i])];
            OnlyOrders(pre, after) && Dealt(Ords(pre), l, orders, i + 1, Ords(after))
  {
    assert l[i] in l;
    assert l[..i + 1] == l[..i] + [l[i]];
  }
}
