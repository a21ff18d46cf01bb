/** What the two bounded depth-first searches establish, and why that is exactly the set of affected
    vertices or a genuine cycle (src/graph.rs, `dfs_f` and `dfs_b`). */
module Search {
  import opened Reachability
  import opened GraphModel
  import opened OrderRepair
  import opened Insertion

  /** Every recorded neighbour is a live node. */
  ghost predicate EndsLive<V(!new), E(!new)>(nodes: Nodes<V, E>) {
    && (forall u, v {:trigger v in nodes[u].outEdges} :: u in nodes && v in nodes[u].outEdges ==> v in nodes)
    && (forall u, v {:trigger u in nodes[v].inEdges} :: v in nodes && u in nodes[v].inEdges ==> u in nodes)
  }

  /** A search starts at a visited, not yet listed vertex. */
  ghost predicate CanStart<V(!new), E(!new)>(nodes: Nodes<V, E>, n: V, visited: set<V>, delta: seq<V>) {
    && n in nodes && n in visited && visited <= nodes.Keys
    && n !in delta && Distinct(delta) && (forall v :: v in delta ==> v in visited)
  }

  /** The vertices a search from `n` has added: `n` itself and everything newly visited. */
  ghost function Explored<V(!new)>(n: V, visited: set<V>, visited': set<V>): set<V> {
    {n} + (visited' - visited)
  }

  /** The list has grown by exactly the explored vertices, each listed once. */
  ghost predicate Listed<V(!new), E(!new)>(
    nodes: Nodes<V, E>, n: V, visited: set<V>, delta: seq<V>, visited': set<V>, delta': seq<V>)
  {
    && visited <= visited' <= nodes.Keys
    && delta <= delta' && Distinct(delta')
    && forall v :: v in delta' <==> v in delta || v in Explored(n, visited, visited')
  }

  lemma ListedJoin<V(!new), E(!new)>(
    nodes: Nodes<V, E>, n: V, w: V, visited0: set<V>, delta0: seq<V>,
    visited1: set<V>, delta1: seq<V>, visited2: set<V>, delta2: seq<V>)
    requires Listed(nodes, n, visited0, delta0, visited1, delta1)
    requires w !in visited1 && n in visited0
    requires Listed(nodes, w, visited1 + {w}, delta1, visited2, delta2)
    ensures Listed(nodes, n, visited0, delta0, visited2, delta2)
    ensures Explored(n, visited0, visited2) ==
            Explored(n, visited0, visited1) + Explored(w, visited1 + {w}, visited2)
  {
  }

  // ----- forward -----

  ghost predicate BelowAndReached<V(!new), E(!new)>(nodes: Nodes<V, E>, n: V, ub: nat, s: set<V>)
    requires s <= nodes.Keys
  {
    forall v :: v in s ==> Reaches(Edges(nodes), n, v) && nodes[v].ord < ub
  }

  /** The edge `v -> w` has been dealt with: it does not hit the bound, and leads out of the
      affected range or to a visited vertex. */
  ghost predicate ForwardDone<V(!new), E(!new)>(nodes: Nodes<V, E>, ub: nat, visited: set<V>, w: V)
    requires w in nodes
  {
    nodes[w].ord != ub && (nodes[w].ord < ub ==> w in visited)
  }

  ghost predicate ForwardScanned<V(!new), E(!new)>(
    nodes: Nodes<V, E>, ub: nat, visited: set<V>, s: set<V>)
    requires EndsLive(nodes) && s <= nodes.Keys
  {
    forall v, w {:trigger v in s, w in nodes[v].outEdges} ::
      v in s && w in nodes[v].outEdges ==> ForwardDone(nodes, ub, visited, w)
  }

  /** A completed forward search from `n`. */
  ghost predicate ForwardPass<V(!new), E(!new)>(
    nodes: Nodes<V, E>, n: V, ub: nat, visited: set<V>, delta: seq<V>, visited': set<V>, delta': seq<V>)
    requires EndsLive(nodes) && n in nodes
  {
    && Listed(nodes, n, visited, delta, visited', delta')
    && BelowAndReached(nodes, n, ub, Explored(n, visited, visited'))
    && ForwardScanned(nodes, ub, visited', Explored(n, visited, visited'))
  }

  /** A forward search from `n` that still has the edges to `remaining` to look at. */
  ghost predicate ForwardPartial<V(!new), E(!new)>(
    nodes: Nodes<V, E>, n: V, ub: nat, visited: set<V>, delta: seq<V>,
    visited': set<V>, delta': seq<V>, remaining: set<V>)
    requires EndsLive(nodes) && n in nodes
  {
    && Listed(nodes, n, visited, delta, visited', delta')
    && BelowAndReached(nodes, n, ub, Explored(n, visited, visited'))
    && ForwardScanned(nodes, ub, visited', visited' - visited)
    && (forall w :: w in nodes[n].outEdges && w !in remaining ==> ForwardDone(nodes, ub, visited', w))
  }

  lemma ForwardJoin<V(!new), E(!new)>(
    nodes: Nodes<V, E>, n: V, w: V, ub: nat, visited0: set<V>, delta0: seq<V>,
    visited1: set<V>, delta1: seq<V>, visited2: set<V>, delta2: seq<V>, remaining: set<V>)
    requires EndsLive(nodes) && n in nodes && w in nodes[n].outEdges && n in visited0
    requires w !in visited1 && nodes[w].ord < ub
    requires ForwardPartial(nodes, n, ub, visited0, delta0, visited1, delta1, remaining + {w})
    requires ForwardPass(nodes, w, ub, visited1 + {w}, delta1, visited2, delta2)
    ensures ForwardPartial(nodes, n, ub, visited0, delta0, visited2, delta2, remaining)
  {
    ListedJoin(nodes, n, w, visited0, delta0, visited1, delta1, visited2, delta2);
    forall v | v in Explored(w, visited1 + {w}, visited2) ensures Reaches(Edges(nodes), n, v) {
      EdgeReaches(Edges(nodes), n, w);
      Transitive(Edges(nodes), n, w, v);
    }
  }

  ghost predicate IsLabel<V(!new), E(!new)>(nodes: Nodes<V, E>, u: V, v: V, e: E) {
    u in nodes && v in nodes[u].outEdges && nodes[u].outEdges[v] == e
  }

  /** A walk found by the search, and the labels it reports: those of the edges, last one first. */
  ghost predicate Trail<V(!new), E(!new)>(nodes: Nodes<V, E>, p: seq<V>, labels: seq<E>) {
    && IsPath(Edges(nodes), p)
    && |labels| == |p| - 1
    && forall i :: 0 <= i < |labels| ==> IsLabel(nodes, p[|p| - 2 - i], p[|p| - 1 - i], labels[i])
  }

  /** The search has hit the bound: a trail from `n` to the vertex of order `ub`, below it before. */
  ghost predicate HitsBound<V(!new), E(!new)>(
    nodes: Nodes<V, E>, n: V, ub: nat, p: seq<V>, labels: seq<E>)
  {
    && Trail(nodes, p, labels) && |p| > 1 && p[0] == n
    && (forall i :: 0 <= i < |p| - 1 ==> p[i] in nodes && nodes[p[i]].ord < ub)
    && p[|p| - 1] in nodes && nodes[p[|p| - 1]].ord == ub
  }

  lemma HitDirectly<V(!new), E(!new)>(nodes: Nodes<V, E>, n: V, ub: nat, w: V)
    requires n in nodes && w in nodes[n].outEdges && w in nodes
    requires nodes[n].ord < ub == nodes[w].ord
    ensures HitsBound(nodes, n, ub, [n, w], [nodes[n].outEdges[w]])
  {
  }

  lemma HitThrough<V(!new), E(!new)>(nodes: Nodes<V, E>, n: V, ub: nat, w: V, p: seq<V>, labels: seq<E>)
    requires n in nodes && nodes[n].ord < ub && w in nodes[n].outEdges
    requires HitsBound(nodes, w, ub, p, labels)
    ensures HitsBound(nodes, n, ub, [n] + p, labels + [nodes[n].outEdges[w]])
  {
  }

  // ----- backward -----

  ghost predicate AboveAndReaching<V(!new), E(!new)>(nodes: Nodes<V, E>, n: V, lb: nat, s: set<V>)
    requires s <= nodes.Keys
  {
    forall v :: v in s ==> Reaches(Edges(nodes), v, n) && lb < nodes[v].ord
  }

  ghost predicate BackwardScanned<V(!new), E(!new)>(
    nodes: Nodes<V, E>, lb: nat, visited: set<V>, s: set<V>)
    requires EndsLive(nodes) && s <= nodes.Keys
  {
    forall v, w {:trigger v in s, w in nodes[v].inEdges} ::
      v in s && w in nodes[v].inEdges && lb < nodes[w].ord ==> w in visited
  }

  /** A completed backward search from `n`. */
  ghost predicate BackwardPass<V(!new), E(!new)>(
    nodes: Nodes<V, E>, n: V, lb: nat, visited: set<V>, delta: seq<V>, visited': set<V>, delta': seq<V>)
    requires EndsLive(nodes) && n in nodes
  {
    && Listed(nodes, n, visited, delta, visited', delta')
    && AboveAndReaching(nodes, n, lb, Explored(n, visited, visited'))
    && BackwardScanned(nodes, lb, visited', Explored(n, visited, visited'))
  }

  ghost predicate BackwardPartial<V(!new), E(!new)>(
    nodes: Nodes<V, E>, n: V, lb: nat, visited: set<V>, delta: seq<V>,
    visited': set<V>, delta': seq<V>, remaining: set<V>)
    requires EndsLive(nodes) && n in nodes
  {
    && Listed(nodes, n, visited, delta, visited', delta')
    && AboveAndReaching(nodes, n, lb, Explored(n, visited, visited'))
    && BackwardScanned(nodes, lb, visited', visited' - visited)
    && (forall w :: w in nodes[n].inEdges && w !in remaining && lb < nodes[w].ord ==> w in visited')
  }

  lemma BackwardJoin<V(!new), E(!new)>(
    nodes: Nodes<V, E>, n: V, w: V, lb: nat, visited0: set<V>, delta0: seq<V>,
    visited1: set<V>, delta1: seq<V>, visited2: set<V>, delta2: seq<V>, remaining: set<V>)
    requires EndsLive(nodes) && Mirrored(nodes) && n in nodes && w in nodes[n].inEdges && n in visited0
    requires w !in visited1 && lb < nodes[w].ord
    requires BackwardPartial(nodes, n, lb, visited0, delta0, visited1, delta1, remaining + {w})
    requires BackwardPass(nodes, w, lb, visited1 + {w}, delta1, visited2, delta2)
    ensures BackwardPartial(nodes, n, lb, visited0, delta0, visited2, delta2, remaining)
  {
    ListedJoin(nodes, n, w, visited0, delta0, visited1, delta1, visited2, delta2);
    forall v | v in Explored(w, visited1 + {w}, visited2) ensures Reaches(Edges(nodes), v, n) {
      assert n in nodes[w].outEdges;
      EdgeReaches(Edges(nodes), w, n);
      Transitive(Edges(nodes), v, w, n);
    }
  }

  // ----- what the passes find -----

  /** The situation both passes run in: the edge `x -> y` is in place, every other edge climbs. */
  ghost predicate Inserted<V(!new), E(!new)>(
    nodes: Nodes<V, E>, es: set<(V, V)>, x: V, y: V)
  {
    && Mirrored(nodes) && OrdInjective(nodes)
    && x in nodes && y in nodes && nodes[y].ord < nodes[x].ord
    && Edges(nodes) == es + {(x, y)} && Ordered(es, Ords(nodes))
  }

  /** The bounded, pruned forward pass misses nothing: it lists exactly what `y` reaches below the
      bound, and when it completes there is no cycle to find. */
  lemma ForwardExact<V(!new), E(!new)>(
    nodes: Nodes<V, E>, es: set<(V, V)>, x: V, y: V, visited': set<V>, delta': seq<V>)
    requires EndsLive(nodes) && Inserted(nodes, es, x, y)
    requires ForwardPass(nodes, y, nodes[x].ord, {x, y}, [], visited', delta')
    ensures !Reaches(es, y, x)
    ensures forall v :: v in delta' <==> v in After(es, Ords(nodes), y, nodes[x].ord)
    ensures visited' == {x} + After(es, Ords(nodes), y, nodes[x].ord)
  {
    var ub, s, ord := nodes[x].ord, Explored(y, {x, y}, visited'), Ords(nodes);
    forall u, v | u in s && (u, v) in es ensures ord[v] != ub && (ord[v] < ub ==> v in s) {
      assert v in nodes[u].outEdges;
      assert ForwardDone(nodes, ub, visited', v);
    }
    forall v | Reaches(es, y, v) && v in ord && ord[v] <= ub ensures v in s {
      var p :| Connects(es, p, y, v);
      ForwardClosed(es, ord, s, ub, p);
    }
    assert x !in s;
    forall v | v in s ensures Reaches(es, y, v) {
      AfterInsert(es, x, y, y, v);
    }
  }

  /** The backward pass lists exactly what reaches `x` above the bound: sharing the forward pass's
      visited set prunes nothing. */
  lemma BackwardExact<V(!new), E(!new)>(
    nodes: Nodes<V, E>, es: set<(V, V)>, x: V, y: V, visited: set<V>, visited': set<V>, delta': seq<V>)
    requires EndsLive(nodes) && Inserted(nodes, es, x, y) && !Reaches(es, y, x)
    requires visited == {x} + After(es, Ords(nodes), y, nodes[x].ord)
    requires BackwardPass(nodes, x, nodes[y].ord, visited, [], visited', delta')
    ensures forall v :: v in delta' <==> v in Before(es, Ords(nodes), x, nodes[y].ord)
  {
    var lb, s, ord := nodes[y].ord, Explored(x, visited, visited'), Ords(nodes);
    forall v | v in s ensures Reaches(es, v, x) {
      AfterInsert(es, x, y, v, x);
    }
    forall u, v | v in s && (u, v) in es && lb < ord[u] ensures u in s {
      assert u in nodes[v].inEdges;
      EdgeReaches(es, u, v);
      Transitive(es, u, v, x);
      if u in After(es, ord, y, nodes[x].ord) {
        Transitive(es, y, u, x);
      }
    }
    forall v | Reaches(es, v, x) && v in ord && lb < ord[v] ensures v in s {
      var p :| Connects(es, p, v, x);
      BackwardClosed(es, ord, s, lb, p);
    }
  }

  /** Together the two passes list no more vertices than there are orders between the ends, and none
      of them twice. */
  lemma SearchesStayInside<V(!new), E(!new)>(
    nodes: Nodes<V, E>, es: set<(V, V)>, x: V, y: V,
    visited1: set<V>, deltaF: seq<V>, visited2: set<V>, deltaB: seq<V>)
    requires EndsLive(nodes) && Inserted(nodes, es, x, y)
    requires ForwardPass(nodes, y, nodes[x].ord, {x, y}, [], visited1, deltaF)
    requires BackwardPass(nodes, x, nodes[y].ord, visited1, [], visited2, deltaB)
    ensures Distinct(deltaF) && Distinct(deltaB) && forall v :: !(v in deltaF && v in deltaB)
    ensures |deltaF| + |deltaB| <= nodes[x].ord - nodes[y].ord + 1
  {
    var ord := Ords(nodes);
    ForwardExact(nodes, es, x, y, visited1, deltaF);
    BackwardExact(nodes, es, x, y, visited1, visited2, deltaB);
    OrdInjectiveMap(nodes);
    RegionsAreApart(es, ord, x, y);
    AffectedRegionBound(es, ord, x, y);
    ListLength(deltaF, After(es, ord, y, ord[x]));
    ListLength(deltaB, Before(es, ord, x, ord[y]));
  }

  lemma ListLength<V(!new)>(list: seq<V>, s: set<V>)
    requires Distinct(list) && forall v :: v in list <==> v in s
    ensures |list| == |s|
  {
    DistinctSize(list);
    assert (set v | v in list) == s;
  }

  /** What a rejection reports: the labels, last one first, of a simple walk from `y` to `x` that
      climbs the order, and so is no longer than the distance between the two. */
  ghost predicate GenuineCycle<V(!new), E(!new)>(nodes: Nodes<V, E>, x: V, y: V, labels: seq<E>) {
    exists p :: CycleWalk(nodes, x, y, p, labels)
  }

  ghost predicate CycleWalk<V(!new), E(!new)>(nodes: Nodes<V, E>, x: V, y: V, p: seq<V>, labels: seq<E>) {
    && Trail(nodes, p, labels) && p[0] == y && p[|p| - 1] == x && Distinct(p)
    && (forall i :: 0 <= i < |p| - 1 ==> Climbs(nodes, p[i], p[i + 1]))
    && (x != y ==> x in nodes && y in nodes && nodes[y].ord + |labels| <= nodes[x].ord)
  }

  /** Of the would-be cycle, which the rejected edge would close, the report has the label of every edge
      that is in the graph, and none for the rejected one. */
  lemma ReportOmitsRejectedEdge<V(!new), E(!new)>(nodes: Nodes<V, E>, x: V, y: V, p: seq<V>, labels: seq<E>)
    requires CycleWalk(nodes, x, y, p, labels)
    ensures IsPath(Edges(nodes) + {(x, y)}, p + [y]) && |labels| == |p + [y]| - 2
    ensures forall i :: 0 <= i < |labels| ==> IsLabel(nodes, p[|p| - 2 - i], p[|p| - 1 - i], labels[i])
    ensures forall i :: 0 <= i < |p| - 1 ==> (p[i], p[i + 1]) != (x, y)
    ensures labels == [] <==> x == y
  {
    assert x == y ==> p[0] == p[|p| - 1];
  }

  ghost predicate Climbs<V(!new), E(!new)>(nodes: Nodes<V, E>, u: V, v: V) {
    u in nodes && v in nodes && nodes[u].ord < nodes[v].ord
  }

  /** `linked` differs from `nodes` in the edge `x -> y` and perhaps in new, isolated nodes. */
  ghost predicate Extends<V(!new), E(!new)>(linked: Nodes<V, E>, nodes: Nodes<V, E>, x: V, y: V) {
    && (forall v :: v in nodes ==> v in linked && nodes[v].ord == linked[v].ord)
    && (forall u, v, e :: IsLabel(linked, u, v, e) && (u, v) != (x, y) ==> IsLabel(nodes, u, v, e))
  }

  /** A hit during the search is a cycle of the graph before the insertion. */
  lemma HitIsGenuine<V(!new), E(!new)>(
    linked: Nodes<V, E>, nodes: Nodes<V, E>, x: V, y: V, p: seq<V>, labels: seq<E>)
    requires Inserted(linked, Edges(nodes), x, y) && Extends(linked, nodes, x, y)
    requires Topological(nodes)
    requires HitsBound(linked, y, linked[x].ord, p, labels)
    ensures CycleWalk(nodes, x, y, p, labels) && Reaches(Edges(nodes), y, x)
  {
    HitTrail(linked, nodes, x, y, p, labels);
    var es := Edges(nodes);
    assert Connects(es, p, y, x);
    PathIsSimple(es, Ords(nodes), p);
    PathAscends(es, Ords(nodes), p, 0, |p| - 1);
    forall i | 0 <= i < |p| - 1 ensures Climbs(nodes, p[i], p[i + 1]) {
      PathAscends(es, Ords(nodes), p, i, i + 1);
    }
  }

  lemma HitTrail<V(!new), E(!new)>(
    linked: Nodes<V, E>, nodes: Nodes<V, E>, x: V, y: V, p: seq<V>, labels: seq<E>)
    requires Extends(linked, nodes, x, y) && x in linked && OrdInjective(linked)
    requires HitsBound(linked, y, linked[x].ord, p, labels)
    ensures Trail(nodes, p, labels) && p[|p| - 1] == x
  {
    assert forall i :: 0 <= i < |p| - 1 ==> p[i] != x;
    forall i | 0 <= i < |labels| ensures IsLabel(nodes, p[|p| - 2 - i], p[|p| - 1 - i], labels[i]) {
      assert IsLabel(linked, p[|p| - 2 - i], p[|p| - 1 - i], labels[i]);
    }
    forall i | 0 <= i < |p| - 1 ensures (p[i], p[i + 1]) in Edges(nodes) {
      var k := |p| - 2 - i;
      assert IsLabel(nodes, p[|p| - 2 - k], p[|p| - 1 - k], labels[k]);
    }
  }
}
