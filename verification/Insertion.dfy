/** What one `add_edge` call may do to the graph, as a relation between values, and what follows
    from it (src/graph.rs, `add_edge`). */
module Insertion {
  import opened Reachability
  import opened GraphModel
  import opened OrderRepair

  /** Both ends record the edge `x -> y`. */
  function Link<V(==), E>(nodes: Nodes<V, E>, x: V, y: V, e: E): Nodes<V, E>
    requires x in nodes && y in nodes
  {
    var out := nodes[x := nodes[x].(outEdges := nodes[x].outEdges[y := e])];
    out[y := out[y].(inEdges := out[y].inEdges + {x})]
  }

  /** The graph with both ends present. */
  function WithEnds<V(==), E>(g: Graph<V, E>, x: V, y: V): (h: Graph<V, E>)
    ensures x in h.nodes && y in h.nodes
  {
    WithNode(WithNode(g, x), y)
  }

  /** The graph with both ends present and the edge in place, before any search or repair. */
  function Linked<V(==), E>(g: Graph<V, E>, x: V, y: V, e: E): Graph<V, E> {
    var h := WithEnds(g, x, y);
    Graph(Link(h.nodes, x, y, e), h.unusedOrder)
  }

  /** Only orders differ, and they are a repair of the two groups. */
  ghost predicate Reordered<V(!new), E(!new)>(
    pre: Nodes<V, E>, b: set<V>, f: set<V>, post: Nodes<V, E>)
  {
    && post.Keys == pre.Keys
    && (forall v :: v in pre ==> post[v].inEdges == pre[v].inEdges && post[v].outEdges == pre[v].outEdges)
    && Repaired(Ords(pre), b, f, Ords(post))
  }

  /** `post` is what an accepted `add_edge(x, y, e)` makes of `pre`: nothing new when the edge was
      there, and otherwise the linked graph, repaired when the edge points down the order. */
  ghost predicate EdgeAdded<V(!new), E(!new)>(
    pre: Graph<V, E>, x: V, y: V, e: E, post: Graph<V, E>)
  {
    if (x, y) in Edges(pre.nodes) then post == pre
    else
      var mid := Linked(pre, x, y, e);
      var es, ord := Edges(pre.nodes), Ords(mid.nodes);
      && post.unusedOrder == mid.unusedOrder
      && if ord[x] < ord[y] then post.nodes == mid.nodes
         else Reordered(mid.nodes, Before(es, ord, x, ord[y]), After(es, ord, y, ord[x]), post.nodes)
  }

  /** The answer and the graph one `add_edge` call leaves behind. */
  ghost predicate AddEdgeStep<V(!new), E(!new)>(
    pre: Graph<V, E>, x: V, y: V, e: E, accepted: bool, post: Graph<V, E>)
  {
    && (accepted <==> !Reaches(Edges(pre.nodes), y, x))
    && (if accepted then EdgeAdded(pre, x, y, e, post) else post == pre)
  }

  // ----- the linked graph -----

  lemma LinkPoints<V(!new), E(!new)>(nodes: Nodes<V, E>, x: V, y: V, e: E)
    requires x in nodes && y in nodes && x != y
    ensures var l := Link(nodes, x, y, e);
            && l.Keys == nodes.Keys
            && (forall v :: v in nodes ==> l[v].ord == nodes[v].ord)
            && l[x].outEdges == nodes[x].outEdges[y := e] && l[x].inEdges == nodes[x].inEdges
            && l[y].inEdges == nodes[y].inEdges + {x} && l[y].outEdges == nodes[y].outEdges
            && (forall v :: v in nodes && v != x && v != y ==> l[v] == nodes[v])
  {
  }

  lemma LinkMirrored<V(!new), E(!new)>(nodes: Nodes<V, E>, x: V, y: V, e: E)
    requires x in nodes && y in nodes && x != y && Mirrored(nodes)
    ensures Mirrored(Link(nodes, x, y, e))
  {
  }

  lemma LinkEdges<V(!new), E(!new)>(nodes: Nodes<V, E>, x: V, y: V, e: E)
    requires x in nodes && y in nodes && x != y
    ensures Edges(Link(nodes, x, y, e)) == Edges(nodes) + {(x, y)}
    ensures EdgeMap(Link(nodes, x, y, e)) == EdgeMap(nodes)[(x, y) := e]
    ensures Ords(Link(nodes, x, y, e)) == Ords(nodes) && Link(nodes, x, y, e).Keys == nodes.Keys
  {
    LinkPoints(nodes, x, y, e);
    EdgeMapIs(Link(nodes, x, y, e), EdgeMap(nodes)[(x, y) := e]);
  }

  lemma WithEndsKeeps<V(!new), E(!new)>(g: Graph<V, E>, x: V, y: V)
    requires Valid(g)
    ensures Valid(WithEnds(g, x, y))
    ensures WithEnds(g, x, y).nodes.Keys == g.nodes.Keys + {x, y}
    ensures EdgeMap(WithEnds(g, x, y).nodes) == EdgeMap(g.nodes)
  {
    hide WithNode, Consistent, Topological, Edges, EdgeMap;
    WithNodeKeeps(g, x);
    WithNodeKeeps(WithNode(g, x), y);
  }

  lemma LinkedKeeps<V(!new), E(!new)>(g: Graph<V, E>, x: V, y: V, e: E)
    requires Valid(g) && x != y
    ensures Consistent(Linked(g, x, y, e))
    ensures Linked(g, x, y, e).nodes.Keys == g.nodes.Keys + {x, y}
    ensures Edges(Linked(g, x, y, e).nodes) == Edges(g.nodes) + {(x, y)}
    ensures EdgeMap(Linked(g, x, y, e).nodes) == EdgeMap(g.nodes)[(x, y) := e]
    ensures Ordered(Edges(g.nodes), Ords(Linked(g, x, y, e).nodes))
    ensures Linked(g, x, y, e).Span() == WithEnds(g, x, y).Span()
  {
    WithEndsKeeps(g, x, y);
    var h := WithEnds(g, x, y);
    assert Edges(g.nodes) == EdgeMap(g.nodes).Keys == Edges(h.nodes);
    LinkKeeps(h, x, y, e);
  }

  lemma LinkKeeps<V(!new), E(!new)>(h: Graph<V, E>, x: V, y: V, e: E)
    requires Consistent(h) && x in h.nodes && y in h.nodes && x != y
    ensures var mid := Graph(Link(h.nodes, x, y, e), h.unusedOrder);
            && Consistent(mid)
            && mid.nodes.Keys == h.nodes.Keys
            && Edges(mid.nodes) == Edges(h.nodes) + {(x, y)}
            && EdgeMap(mid.nodes) == EdgeMap(h.nodes)[(x, y) := e]
            && Ords(mid.nodes) == Ords(h.nodes)
            && mid.Span() == h.Span()
  {
    LinkMirrored(h.nodes, x, y, e);
    LinkEdges(h.nodes, x, y, e);
    SameOrdsSamePool(h, Graph(Link(h.nodes, x, y, e), h.unusedOrder));
  }

  /** The pool and the uniqueness of orders depend on the orders alone. */
  lemma SameOrdsSamePool<V(!new), E(!new)>(g: Graph<V, E>, h: Graph<V, E>)
    requires h.nodes.Keys == g.nodes.Keys && Ords(h.nodes) == Ords(g.nodes)
    requires h.unusedOrder == g.unusedOrder
    ensures h.Span() == g.Span()
    ensures PoolFresh(g) ==> PoolFresh(h)
    ensures OrdInjective(g.nodes) ==> OrdInjective(h.nodes)
  {
    assert |h.nodes.Keys| == |g.nodes.Keys|;
    assert forall v :: v in g.nodes ==> Ords(g.nodes)[v] == g.nodes[v].ord;
    assert forall v :: v in g.nodes ==> h.nodes[v].ord == Ords(h.nodes)[v];
  }

  // ----- what the accepted edge leaves behind -----

  lemma OrdInjectiveMap<V(!new), E(!new)>(nodes: Nodes<V, E>)
    ensures OrdInjective(nodes) <==> Injective(Ords(nodes))
  {
    var ord := Ords(nodes);
    assert forall v :: v in nodes <==> v in ord;
  }

  lemma ReorderedSameEdges<V(!new), E(!new)>(pre: Nodes<V, E>, b: set<V>, f: set<V>, post: Nodes<V, E>)
    requires Reordered(pre, b, f, post)
    ensures Edges(post) == Edges(pre) && EdgeMap(post) == EdgeMap(pre)
    ensures Mirrored(pre) ==> Mirrored(post)
  {
  }

  /** Dealing orders out again hands out no number that was not live before. */
  lemma ReorderedPool<V(!new), E(!new)>(
    pre: Graph<V, E>, b: set<V>, f: set<V>, post: Graph<V, E>)
    requires Reordered(pre.nodes, b, f, post.nodes) && post.unusedOrder == pre.unusedOrder
    requires PoolFresh(pre)
    ensures PoolFresh(post) && post.Span() == pre.Span()
  {
    assert |post.nodes.Keys| == |pre.nodes.Keys|;
    var ord, ord' := Ords(pre.nodes), Ords(post.nodes);
    forall v | v in post.nodes
      ensures post.nodes[v].ord < post.Span() && post.nodes[v].ord !in post.unusedOrder
    {
      assert post.nodes[v].ord == ord'[v];
      if v in b + f {
        var w := OldHolder(ord, b, f, ord', v);
        assert pre.nodes[w].ord == ord[w];
      } else {
        assert ord'[v] == ord[v] == pre.nodes[v].ord;
      }
    }
  }

  /** An accepted edge keeps the representation invariant, the topological order included, and adds
      exactly one labelled edge; an edge that was there keeps its first label. */
  lemma EdgeAddedKeeps<V(!new), E(!new)>(pre: Graph<V, E>, x: V, y: V, e: E, post: Graph<V, E>)
    requires Valid(pre) && !Reaches(Edges(pre.nodes), y, x)
    requires EdgeAdded(pre, x, y, e, post)
    ensures Valid(post)
    ensures post.nodes.Keys == pre.nodes.Keys + {x, y}
    ensures EdgeMap(post.nodes) ==
            if (x, y) in EdgeMap(pre.nodes) then EdgeMap(pre.nodes) else EdgeMap(pre.nodes)[(x, y) := e]
    ensures Edges(post.nodes) == Edges(pre.nodes) + {(x, y)}
    ensures post.Span() == WithEnds(pre, x, y).Span()
  {
    Reflexive(Edges(pre.nodes), x);
    if (x, y) in Edges(pre.nodes) {
      PresentKeeps(pre, x, y);
    } else {
      LinkedKeeps(pre, x, y, e);
      var mid := Linked(pre, x, y, e);
      if Ords(mid.nodes)[x] < Ords(mid.nodes)[y] {
        ClimbingKeeps(pre, x, y, mid);
        assert post == mid;
      } else {
        RepairedKeeps(pre, x, y, mid, post);
      }
    }
  }

  lemma PresentKeeps<V(!new), E(!new)>(pre: Graph<V, E>, x: V, y: V)
    requires Valid(pre) && (x, y) in Edges(pre.nodes)
    ensures pre.nodes.Keys == pre.nodes.Keys + {x, y}
    ensures Edges(pre.nodes) == Edges(pre.nodes) + {(x, y)}
    ensures WithEnds(pre, x, y) == pre
  {
  }

  /** The linked graph is valid as it stands when the new edge climbs. */
  lemma ClimbingKeeps<V(!new), E(!new)>(pre: Graph<V, E>, x: V, y: V, mid: Graph<V, E>)
    requires Consistent(mid) && x in mid.nodes && y in mid.nodes
    requires Edges(mid.nodes) == Edges(pre.nodes) + {(x, y)}
    requires Ordered(Edges(pre.nodes), Ords(mid.nodes)) && Ords(mid.nodes)[x] < Ords(mid.nodes)[y]
    ensures Valid(mid)
  {
  }

  /** The repaired graph is valid when the new edge does not climb. */
  lemma RepairedKeeps<V(!new), E(!new)>(
    pre: Graph<V, E>, x: V, y: V, mid: Graph<V, E>, post: Graph<V, E>)
    requires Consistent(mid) && x in mid.nodes && y in mid.nodes && x != y
    requires Edges(mid.nodes) == Edges(pre.nodes) + {(x, y)}
    requires Ordered(Edges(pre.nodes), Ords(mid.nodes)) && Ords(mid.nodes)[y] <= Ords(mid.nodes)[x]
    requires !Reaches(Edges(pre.nodes), y, x)
    requires var es, ord := Edges(pre.nodes), Ords(mid.nodes);
             Reordered(mid.nodes, Before(es, ord, x, ord[y]), After(es, ord, y, ord[x]), post.nodes)
    requires post.unusedOrder == mid.unusedOrder
    ensures Valid(post) && post.nodes.Keys == mid.nodes.Keys && post.Span() == mid.Span()
    ensures Edges(post.nodes) == Edges(mid.nodes) && EdgeMap(post.nodes) == EdgeMap(mid.nodes)
  {
    var es, ord := Edges(pre.nodes), Ords(mid.nodes);
    var b, f := Before(es, ord, x, ord[y]), After(es, ord, y, ord[x]);
    OrdInjectiveMap(mid.nodes);
    DifferentOrders(ord, x, y);
    ReorderedSameEdges(mid.nodes, b, f, post.nodes);
    ReorderedPool(mid, b, f, post);
    RepairIsTopological(es, ord, x, y, Ords(post.nodes));
    RepairedIsInjective(ord, b, f, Ords(post.nodes));
    OrdInjectiveMap(post.nodes);
  }

  lemma DifferentOrders<V(!new)>(ord: map<V, nat>, x: V, y: V)
    requires Injective(ord) && x in ord && y in ord && x != y
    ensures ord[x] != ord[y]
  {
  }

  /** Every step of `add_edge`, accepted or not, keeps the invariant. */
  lemma AddEdgeStepKeeps<V(!new), E(!new)>(
    pre: Graph<V, E>, x: V, y: V, e: E, accepted: bool, post: Graph<V, E>)
    requires Valid(pre) && AddEdgeStep(pre, x, y, e, accepted, post)
    ensures Valid(post)
  {
    if accepted {
      EdgeAddedKeeps(pre, x, y, e, post);
    }
  }

  /** A vertex gets another order only if the new edge points down the order and the vertex lies between
      its ends, on a walk to the tail or from the head; the former move down and the latter up. */
  lemma OnlyAffectedMove<V(!new), E(!new)>(
    pre: Graph<V, E>, x: V, y: V, e: E, accepted: bool, post: Graph<V, E>, v: V)
    requires Valid(pre) && AddEdgeStep(pre, x, y, e, accepted, post)
    requires v in pre.nodes && v in post.nodes && post.nodes[v].ord != pre.nodes[v].ord
    ensures accepted
    ensures var es, ord := Edges(pre.nodes), Ords(WithEnds(pre, x, y).nodes);
            && x in ord && y in ord && ord[y] <= pre.nodes[v].ord <= ord[x]
            && ord[y] <= post.nodes[v].ord <= ord[x]
            && if post.nodes[v].ord < pre.nodes[v].ord then Reaches(es, v, x) else Reaches(es, y, v)
  {
    hide Valid, Linked, WithEnds, Before, After, Repaired, Mirrored, PoolFresh, OrdInjective, Edges, EdgeMap;
    Reflexive(Edges(pre.nodes), x);
    LinkedKeeps(pre, x, y, e);
    LinkedOrders(pre, x, y, e);
    var mid := Linked(pre, x, y, e);
    OrdInjectiveMap(mid.nodes);
    assert Ords(mid.nodes)[x] != Ords(mid.nodes)[y];
    AffectedMoves(Edges(pre.nodes), Ords(mid.nodes), x, y, Ords(post.nodes), v);
  }

  lemma LinkedOrders<V(!new), E(!new)>(g: Graph<V, E>, x: V, y: V, e: E)
    requires x != y
    ensures Ords(Linked(g, x, y, e).nodes) == Ords(WithEnds(g, x, y).nodes)
    ensures forall v :: v in g.nodes ==> v in Ords(Linked(g, x, y, e).nodes)
    ensures forall v :: v in g.nodes ==> Ords(Linked(g, x, y, e).nodes)[v] == g.nodes[v].ord
  {
    var h := WithEnds(g, x, y);
    EndsOrders(g, x, y);
    hide WithEnds;
    LinkPoints(h.nodes, x, y, e);
    hide Link;
    var l := Linked(g, x, y, e).nodes;
    assert l.Keys == h.nodes.Keys;
  }

  lemma EndsOrders<V(!new), E(!new)>(g: Graph<V, E>, x: V, y: V)
    ensures var h := WithEnds(g, x, y).nodes;
            && h.Keys == g.nodes.Keys + {x, y}
            && forall v :: v in g.nodes ==> h[v] == g.nodes[v]
  {
  }

  lemma AffectedMoves<V(!new)>(
    es: set<(V, V)>, ord: map<V, nat>, x: V, y: V, ord': map<V, nat>, v: V)
    requires Ordered(es, ord) && Injective(ord)
    requires x in ord && y in ord && ord[y] < ord[x] && !Reaches(es, y, x)
    requires Repaired(ord, Before(es, ord, x, ord[y]), After(es, ord, y, ord[x]), ord')
    requires v in ord && ord'[v] != ord[v]
    ensures ord[y] <= ord[v] <= ord[x] && ord[y] <= ord'[v] <= ord[x]
    ensures if ord'[v] < ord[v] then Reaches(es, v, x) else Reaches(es, y, v)
  {
    var b, f := Before(es, ord, x, ord[y]), After(es, ord, y, ord[x]);
    RegionsAreApart(es, ord, x, y);
    RepairStaysInside(es, ord, x, y, ord', v);
    if v in b {
      FirstGroupSinks(ord, b, f, ord', v);
    } else {
      SecondGroupRises(ord, b, f, ord', v, ord[x]);
    }
  }

  lemma ReorderedIsDeterministic<V(!new), E(!new)>(
    pre: Nodes<V, E>, b: set<V>, f: set<V>, post1: Nodes<V, E>, post2: Nodes<V, E>)
    requires Reordered(pre, b, f, post1) && Reordered(pre, b, f, post2)
    requires Injective(Ords(pre)) && b !! f
    ensures post1 == post2
  {
    forall v | v in pre ensures post1[v] == post2[v] {
      RepairIsUnique(Ords(pre), b, f, Ords(post1), Ords(post2), v);
      assert post1[v].ord == Ords(post1)[v] && post2[v].ord == Ords(post2)[v];
    }
  }

  /** The graph after a call does not depend on the order in which hash tables were traversed. */
  lemma AddEdgeIsDeterministic<V(!new), E(!new)>(
    pre: Graph<V, E>, x: V, y: V, e: E, a1: bool, post1: Graph<V, E>, a2: bool, post2: Graph<V, E>)
    requires Valid(pre)
    requires AddEdgeStep(pre, x, y, e, a1, post1) && AddEdgeStep(pre, x, y, e, a2, post2)
    ensures a1 == a2 && post1 == post2
  {
    if a1 && (x, y) !in Edges(pre.nodes) {
      Reflexive(Edges(pre.nodes), x);
      LinkedKeeps(pre, x, y, e);
      var mid := Linked(pre, x, y, e);
      var es, ord := Edges(pre.nodes), Ords(mid.nodes);
      OrdInjectiveMap(mid.nodes);
      if ord[x] >= ord[y] {
        assert ord[x] != ord[y];
        RegionsAreApart(es, ord, x, y);
        ReorderedIsDeterministic(
          mid.nodes, Before(es, ord, x, ord[y]), After(es, ord, y, ord[x]), post1.nodes, post2.nodes);
      }
    }
  }
}
