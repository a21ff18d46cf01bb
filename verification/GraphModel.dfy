/** The dependency graph as a value: its representation, the invariant its operations keep, and the
    value each operation leaves behind (src/graph.rs). */
module GraphModel {
  import opened Reachability

  datatype Node<V, E> = Node(inEdges: set<V>, outEdges: map<V, E>, ord: nat)

  type Nodes<V, E> = map<V, Node<V, E>>

  datatype Graph<V, E> = Graph(nodes: Nodes<V, E>, unusedOrder: seq<nat>) {
    /** How many order numbers have been handed out so far. */
    function Span(): nat {
      |nodes| + |unusedOrder|
    }
  }

  function Empty<V, E>(): Graph<V, E> {
    Graph(map[], [])
  }

  // ----- views -----

  ghost function Edges<V(!new), E(!new)>(nodes: Nodes<V, E>): (es: set<(V, V)>)
    ensures forall u, v :: (u, v) in es <==> u in nodes && v in nodes[u].outEdges
  {
    set u, v | u in nodes && v in nodes[u].outEdges :: (u, v)
  }

  ghost function EdgeMap<V(!new), E(!new)>(nodes: Nodes<V, E>): (m: map<(V, V), E>)
    ensures m.Keys == Edges(nodes)
  {
    map p: (V, V) | p in Edges(nodes) :: nodes[p.0].outEdges[p.1]
  }

  lemma EdgesAre<V(!new), E(!new)>(nodes: Nodes<V, E>, es: set<(V, V)>)
    requires forall u, v :: (u, v) in es <==> u in nodes && v in nodes[u].outEdges
    ensures Edges(nodes) == es
  {
    forall p: (V, V) ensures p in Edges(nodes) <==> p in es {
      assert p == (p.0, p.1);
    }
  }

  lemma EdgeMapIs<V(!new), E(!new)>(nodes: Nodes<V, E>, m: map<(V, V), E>)
    requires forall u, v :: (u, v) in m <==> u in nodes && v in nodes[u].outEdges
    requires forall u, v :: (u, v) in m ==> m[(u, v)] == nodes[u].outEdges[v]
    ensures Edges(nodes) == m.Keys && EdgeMap(nodes) == m
  {
    EdgesAre(nodes, m.Keys);
    forall p | p in m ensures EdgeMap(nodes)[p] == m[p] {
      assert p == (p.0, p.1);
    }
  }

  /** The two node tables hold the same edges under the same labels. */
  ghost predicate SameEdges<V(!new), E(!new)>(a: Nodes<V, E>, b: Nodes<V, E>) {
    && (forall u, v :: u in a && v in a[u].outEdges ==>
          u in b && v in b[u].outEdges && b[u].outEdges[v] == a[u].outEdges[v])
    && (forall u, v :: u in b && v in b[u].outEdges ==> u in a && v in a[u].outEdges)
  }

  lemma SameEdgesSameMap<V(!new), E(!new)>(a: Nodes<V, E>, b: Nodes<V, E>)
    requires SameEdges(a, b)
    ensures Edges(a) == Edges(b) && EdgeMap(a) == EdgeMap(b)
  {
  }

  function Ords<V, E>(nodes: Nodes<V, E>): (ord: map<V, nat>) {
    map v | v in nodes :: nodes[v].ord
  }

  ghost function OrdsOn<V(!new), E(!new)>(nodes: Nodes<V, E>, s: set<V>): (ids: set<nat>)
    requires s <= nodes.Keys
  {
    set v | v in s :: nodes[v].ord
  }

  // ----- representation invariant -----

  /** In-edges and out-edges say the same thing, so both ends of every edge are live. */
  ghost predicate Mirrored<V(!new), E(!new)>(nodes: Nodes<V, E>) {
    forall u, v {:trigger v in nodes[u].outEdges} {:trigger u in nodes[v].inEdges} ::
      (u in nodes && v in nodes[u].outEdges) <==> (v in nodes && u in nodes[v].inEdges)
  }

  ghost predicate OrdInjective<V(!new), E(!new)>(nodes: Nodes<V, E>) {
    forall u, v {:trigger nodes[u].ord, nodes[v].ord} ::
      u in nodes && v in nodes && nodes[u].ord == nodes[v].ord ==> u == v
  }

  /** Live orders and pooled orders are numbers below the span, and never coincide. */
  ghost predicate PoolFresh<V(!new), E(!new)>(g: Graph<V, E>) {
    && Distinct(g.unusedOrder)
    && (forall v :: v in g.nodes ==> g.nodes[v].ord < g.Span() && g.nodes[v].ord !in g.unusedOrder)
    && (forall id :: id in g.unusedOrder ==> id < g.Span())
  }

  /** The part of the invariant that also holds while an edge is being inserted. */
  ghost predicate Consistent<V(!new), E(!new)>(g: Graph<V, E>) {
    Mirrored(g.nodes) && OrdInjective(g.nodes) && PoolFresh(g)
  }

  ghost predicate Topological<V(!new), E(!new)>(nodes: Nodes<V, E>) {
    Ordered(Edges(nodes), Ords(nodes))
  }

  ghost predicate Valid<V(!new), E(!new)>(g: Graph<V, E>) {
    Consistent(g) && Topological(g.nodes)
  }

  lemma EmptyIsValid<V(!new), E(!new)>()
    ensures Valid(Empty<V, E>()) && EdgeMap(Empty<V, E>().nodes) == map[]
  {
  }

  /** A valid graph is acyclic, and reaching another vertex means climbing in the order. */
  lemma ValidIsAcyclic<V(!new), E(!new)>(g: Graph<V, E>)
    requires Valid(g)
    ensures Acyclic(Edges(g.nodes))
  {
    OrderedIsAcyclic(Edges(g.nodes), Ords(g.nodes));
  }

  /** Counting: distinct numbers below a bound, as many as the bound, are all of them. */
  lemma {:induction false} BelowBound(s: set<nat>, n: nat)
    requires forall i :: i in s ==> i < n
    ensures |s| <= n
    ensures |s| == n ==> forall i: nat :: i < n ==> i in s
    decreases n
  {
    if n > 0 {
      var t := s - {n - 1};
      BelowBound(t, n - 1);
      if n - 1 in s {
        assert |t| == |s| - 1;
        assert forall i: nat :: i < n - 1 && i in t ==> i in s;
      } else {
        assert t == s;
      }
    } else {
      assert s == {};
    }
  }

  lemma {:induction false} DistinctSize<T(!new)>(s: seq<T>)
    requires Distinct(s)
    ensures |(set v | v in s)| == |s|
  {
    if s != [] {
      var t := s[..|s| - 1];
      DistinctSize(t);
      assert s == t + [s[|s| - 1]];
      assert (set v | v in s) == (set v | v in t) + {s[|s| - 1]};
    }
  }

  lemma {:induction false} InjectiveImageSize<V(!new), E(!new)>(nodes: Nodes<V, E>, s: set<V>)
    requires s <= nodes.Keys && OrdInjective(nodes)
    ensures |OrdsOn(nodes, s)| == |s|
  {
    if s != {} {
      var v :| v in s;
      InjectiveImageSize(nodes, s - {v});
      assert OrdsOn(nodes, s) == OrdsOn(nodes, s - {v}) + {nodes[v].ord};
    }
  }

  /** The live orders and the pool partition the numbers below the span exactly. */
  lemma OrdersPartition<V(!new), E(!new)>(g: Graph<V, E>)
    requires Consistent(g)
    ensures forall i: nat :: i < g.Span() <==> (i in OrdsOn(g.nodes, g.nodes.Keys) || i in g.unusedOrder)
    ensures forall i: nat :: !(i in OrdsOn(g.nodes, g.nodes.Keys) && i in g.unusedOrder)
  {
    var live, pool := OrdsOn(g.nodes, g.nodes.Keys), set i | i in g.unusedOrder;
    InjectiveImageSize(g.nodes, g.nodes.Keys);
    DistinctSize(g.unusedOrder);
    assert live !! pool;
    assert |live + pool| == g.Span();
    BelowBound(live + pool, g.Span());
  }

  // ----- add_node -----

  /** Look up `n`, creating it with a pooled order, or else with the next unused number. */
  function WithNode<V, E>(g: Graph<V, E>, n: V): Graph<V, E> {
    if n in g.nodes then g
    else if |g.unusedOrder| > 0 then
      var last := |g.unusedOrder| - 1;
      Graph(g.nodes[n := Node({}, map[], g.unusedOrder[last])], g.unusedOrder[..last])
    else
      Graph(g.nodes[n := Node({}, map[], |g.nodes|)], g.unusedOrder)
  }

  /** Creating a node keeps the invariant and adds no edge. */
  lemma WithNodeKeeps<V(!new), E(!new)>(g: Graph<V, E>, n: V)
    requires Consistent(g)
    ensures Consistent(WithNode(g, n))
    ensures WithNode(g, n).nodes.Keys == g.nodes.Keys + {n}
    ensures Edges(WithNode(g, n).nodes) == Edges(g.nodes)
    ensures EdgeMap(WithNode(g, n).nodes) == EdgeMap(g.nodes)
    ensures Topological(g.nodes) ==> Topological(WithNode(g, n).nodes)
  {
    WithNodeMirrored(g, n);
    WithNodePool(g, n);
    WithNodeInjective(g, n);
    WithNodeEdges(g, n);
    SameEdgesSameMap(WithNode(g, n).nodes, g.nodes);
    if Topological(g.nodes) {
      WithNodeTopological(g, n);
    }
  }

  lemma WithNodeTopological<V(!new), E(!new)>(g: Graph<V, E>, n: V)
    requires Topological(g.nodes)
    requires Edges(WithNode(g, n).nodes) == Edges(g.nodes)
    ensures Topological(WithNode(g, n).nodes)
  {
  }

  lemma WithNodeMirrored<V(!new), E(!new)>(g: Graph<V, E>, n: V)
    requires Mirrored(g.nodes)
    ensures Mirrored(WithNode(g, n).nodes)
  {
  }

  lemma WithNodePool<V(!new), E(!new)>(g: Graph<V, E>, n: V)
    requires PoolFresh(g)
    ensures WithNode(g, n).nodes.Keys == g.nodes.Keys + {n}
    ensures PoolFresh(WithNode(g, n))
  {
    var h := WithNode(g, n);
    assert h.nodes.Keys == g.nodes.Keys + {n};
    if n !in g.nodes {
      assert |h.nodes.Keys| == |g.nodes.Keys| + 1;
      if g.unusedOrder != [] {
        LastOfPool(g.unusedOrder);
      }
      hide Distinct;
      forall v | v in h.nodes ensures h.nodes[v].ord < h.Span() && h.nodes[v].ord !in h.unusedOrder {
        if v != n {
          assert h.nodes[v] == g.nodes[v];
        }
      }
    }
  }

  lemma LastOfPool(pool: seq<nat>)
    requires Distinct(pool) && pool != []
    ensures var n := |pool| - 1;
            && Distinct(pool[..n]) && pool[n] !in pool[..n]
            && forall id :: id in pool <==> id in pool[..n] || id == pool[n]
  {
  }

  /** A created node gets an order nobody uses, and extends the span only when the pool is empty. */
  lemma WithNodeFresh<V(!new), E(!new)>(g: Graph<V, E>, n: V)
    requires PoolFresh(g) && n !in g.nodes
    ensures WithNode(g, n).nodes[n].ord !in OrdsOn(g.nodes, g.nodes.Keys)
    ensures WithNode(g, n).Span() == if g.unusedOrder == [] then g.Span() + 1 else g.Span()
  {
  }

  lemma WithNodeInjective<V(!new), E(!new)>(g: Graph<V, E>, n: V)
    requires PoolFresh(g) && OrdInjective(g.nodes)
    ensures OrdInjective(WithNode(g, n).nodes)
  {
  }

  lemma WithNodeEdges<V(!new), E(!new)>(g: Graph<V, E>, n: V)
    ensures SameEdges(WithNode(g, n).nodes, g.nodes)
  {
  }

  /** A created node goes to the end of the order exactly when no live order exceeds the number it
      is given: always with an empty pool, and otherwise only when every number above the recycled
      one is pooled too. */
  lemma FreshNodeIsLast<V(!new), E(!new)>(g: Graph<V, E>, n: V)
    requires Consistent(g) && n !in g.nodes
    ensures var id := WithNode(g, n).nodes[n].ord;
            (forall v :: v in g.nodes ==> g.nodes[v].ord < id) <==>
            (g.unusedOrder == [] || forall i: nat :: id < i < g.Span() ==> i in g.unusedOrder)
  {
    OrdersPartition(g);
    var id := WithNode(g, n).nodes[n].ord;
    if g.unusedOrder != [] {
      assert id == g.unusedOrder[|g.unusedOrder| - 1] && id in g.unusedOrder;
      if forall i: nat :: id < i < g.Span() ==> i in g.unusedOrder {
        forall v | v in g.nodes ensures g.nodes[v].ord < id {
          assert g.nodes[v].ord < g.Span() && g.nodes[v].ord !in g.unusedOrder;
        }
      }
      if forall v :: v in g.nodes ==> g.nodes[v].ord < id {
        forall i: nat | id < i < g.Span() ensures i in g.unusedOrder {
          assert i !in OrdsOn(g.nodes, g.nodes.Keys);
        }
      }
    }
  }

  // ----- remove_node -----

  /** Every trace of `n` erased, and its order returned to the pool. */
  function WithoutNode<V(==), E>(g: Graph<V, E>, n: V): Graph<V, E> {
    if n !in g.nodes then g
    else Graph(
      map m | m in g.nodes && m != n ::
        Node(g.nodes[m].inEdges - {n}, g.nodes[m].outEdges - {n}, g.nodes[m].ord),
      g.unusedOrder + [g.nodes[n].ord])
  }

  ghost function Avoiding<V(!new)>(es: set<(V, V)>, n: V): (fs: set<(V, V)>)
    ensures fs <= es
    ensures forall u, v :: (u, v) in fs <==> (u, v) in es && u != n && v != n
  {
    set e | e in es && e.0 != n && e.1 != n
  }

  /** Removal keeps the invariant and the span, and loses exactly the node and its edges. */
  lemma WithoutNodeKeeps<V(!new), E(!new)>(g: Graph<V, E>, n: V)
    requires Valid(g)
    ensures Valid(WithoutNode(g, n))
    ensures WithoutNode(g, n).nodes.Keys == g.nodes.Keys - {n}
    ensures Edges(WithoutNode(g, n).nodes) == Avoiding(Edges(g.nodes), n)
    ensures WithoutNode(g, n).Span() == g.Span()
  {
    WithoutNodePool(g, n);
    WithoutNodeEdges(g, n);
    var h := WithoutNode(g, n);
    assert Ordered(Edges(h.nodes), Ords(h.nodes));
  }

  lemma WithoutNodePool<V(!new), E(!new)>(g: Graph<V, E>, n: V)
    requires Consistent(g)
    ensures WithoutNode(g, n).nodes.Keys == g.nodes.Keys - {n}
    ensures Consistent(WithoutNode(g, n)) && WithoutNode(g, n).Span() == g.Span()
  {
    if n in g.nodes {
      var h := WithoutNode(g, n);
      assert h.nodes.Keys == g.nodes.Keys - {n};
      assert Mirrored(h.nodes);
      assert |h.nodes.Keys| == |g.nodes.Keys| - 1;
    }
  }

  /** The surviving edges are those that avoid the node, under their old labels. */
  lemma WithoutNodeEdges<V(!new), E(!new)>(g: Graph<V, E>, n: V)
    requires Mirrored(g.nodes)
    ensures Edges(WithoutNode(g, n).nodes) == Avoiding(Edges(g.nodes), n)
    ensures EdgeMap(WithoutNode(g, n).nodes) ==
            map p | p in EdgeMap(g.nodes) && p.0 != n && p.1 != n :: EdgeMap(g.nodes)[p]
  {
  }

  // ----- recycling -----

  /** A number given back is the first to be given out again, and then the pool is what it was. */
  lemma RemovedOrderIsReused<V(!new), E(!new)>(g: Graph<V, E>, n: V, m: V)
    requires n in g.nodes && m !in WithoutNode(g, n).nodes
    ensures WithNode(WithoutNode(g, n), m).nodes[m].ord == g.nodes[n].ord
    ensures WithNode(WithoutNode(g, n), m).unusedOrder == g.unusedOrder
  {
  }

  function WithoutNodes<V(==), E>(g: Graph<V, E>, ns: seq<V>): Graph<V, E>
    decreases |ns|
  {
    if ns == [] then g else WithoutNode(WithoutNodes(g, ns[..|ns| - 1]), ns[|ns| - 1])
  }

  function WithNodes<V(==), E>(g: Graph<V, E>, ms: seq<V>): Graph<V, E>
    decreases |ms|
  {
    if ms == [] then g else WithNode(WithNodes(g, ms[..|ms| - 1]), ms[|ms| - 1])
  }

  lemma {:induction false} NodesRemoved<V(!new), E(!new)>(g: Graph<V, E>, ns: seq<V>)
    requires Distinct(ns) && forall n :: n in ns ==> n in g.nodes
    ensures var h := WithoutNodes(g, ns);
            && |h.unusedOrder| == |g.unusedOrder| + |ns|
            && h.unusedOrder[..|g.unusedOrder|] == g.unusedOrder
            && (forall k :: 0 <= k < |ns| ==> h.unusedOrder[|g.unusedOrder| + k] == g.nodes[ns[k]].ord)
            && (forall v :: v in h.nodes <==> v in g.nodes && v !in ns)
            && (forall v :: v in h.nodes ==> h.nodes[v].ord == g.nodes[v].ord)
    decreases |ns|
  {
    if ns != [] {
      var k := |ns| - 1;
      assert ns == ns[..k] + [ns[k]] && ns[k] !in ns[..k];
      NodesRemoved(g, ns[..k]);
    }
  }

  lemma {:induction false} NodesCreated<V(!new), E(!new)>(h: Graph<V, E>, ms: seq<V>)
    requires Distinct(ms) && |ms| <= |h.unusedOrder| && forall m :: m in ms ==> m !in h.nodes
    ensures var g, top := WithNodes(h, ms), |h.unusedOrder| - 1;
            && g.unusedOrder == h.unusedOrder[..|h.unusedOrder| - |ms|]
            && (forall v :: v in g.nodes <==> v in h.nodes || v in ms)
            && (forall k :: 0 <= k < |ms| ==> g.nodes[ms[k]].ord == h.unusedOrder[top - k])
    decreases |ms|
  {
    if ms != [] {
      var k := |ms| - 1;
      assert ms == ms[..k] + [ms[k]] && ms[k] !in ms[..k];
      NodesCreated(h, ms[..k]);
    }
  }

  /** As many new nodes as were just removed get the numbers of those, last removed first. */
  lemma ReusedInReverse<V(!new), E(!new)>(g: Graph<V, E>, ns: seq<V>, ms: seq<V>)
    requires |ns| == |ms| && Distinct(ns) && Distinct(ms)
    requires forall n :: n in ns ==> n in g.nodes
    requires forall m :: m in ms ==> m !in g.nodes || m in ns
    ensures var h := WithNodes(WithoutNodes(g, ns), ms);
            && h.unusedOrder == g.unusedOrder
            && (forall v :: v in h.nodes <==> (v in g.nodes && v !in ns) || v in ms)
            && (forall k :: 0 <= k < |ms| ==> h.nodes[ms[k]].ord == g.nodes[ns[|ns| - 1 - k]].ord)
  {
    hide WithoutNodes, WithNodes, Distinct;
    NodesRemoved(g, ns);
    var mid := WithoutNodes(g, ns);
    var base := |g.unusedOrder|;
    NodesCreated(mid, ms);
    var h := WithNodes(mid, ms);
    forall k | 0 <= k < |ms| ensures h.nodes[ms[k]].ord == g.nodes[ns[|ns| - 1 - k]].ord {
      var i := |ns| - 1 - k;
      assert mid.unusedOrder[base + i] == g.nodes[ns[i]].ord;
      assert |mid.unusedOrder| - 1 - k == base + i;
    }
  }
}
