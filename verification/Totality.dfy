/** Every `add_edge` call has an outcome: the relation between graphs that the calls are specified by
    is total, and so (by `AddEdgeIsDeterministic`) a function. */
module Totality {
  import opened Reachability
  import opened GraphModel
  import opened OrderRepair
  import opened Insertion
  import opened Sorting

  lemma {:induction false} Listing<T(!new)>(s: set<T>) returns (l: seq<T>)
    ensures Distinct(l) && Elements(l) == s
  {
    if s == {} {
      l := [];
    } else {
      var v :| v in s;
      var rest := Listing(s - {v});
      l := [v] + rest;
      assert forall w :: w in rest ==> w in Elements(rest);
      assert Elements(l) == {v} + Elements(rest);
    }
  }

  ghost function Position<T(!new)>(l: seq<T>, v: T): (i: nat)
    requires v in l
    ensures i < |l| && l[i] == v
  {
    var i :| 0 <= i < |l| && l[i] == v;
    i
  }

  /** The orders after dealing `orders` out along `l`. */
  ghost function DealtOut<V(!new)>(ord: map<V, nat>, l: seq<V>, orders: seq<nat>): map<V, nat>
    requires |orders| == |l|
  {
    map v | v in ord :: if v in l then orders[Position(l, v)] else ord[v]
  }

  lemma DealtOutIsDealt<V(!new)>(ord: map<V, nat>, l: seq<V>, orders: seq<nat>)
    requires |orders| == |l| && Distinct(l) && forall v :: v in l ==> v in ord
    ensures Dealt(ord, l, orders, |l|, DealtOut(ord, l, orders))
  {
  }

  /** Any two disjoint groups can be repaired. */
  lemma RepairExists<V(!new)>(ord: map<V, nat>, b: set<V>, f: set<V>) returns (ord': map<V, nat>)
    requires Injective(ord) && b <= ord.Keys && f <= ord.Keys && b !! f
    ensures Repaired(ord, b, f, ord')
  {
    var sb := SortedListing(ord, b);
    var sf := SortedListing(ord, f);
    var l := sb + sf;
    ChainIsDistinct(sb, sf);
    ChainMembers(sb, sf);
    var raw := OrdersAlong(ord, l);
    var orders := SortNumbers(raw);
    Rearranged(raw, orders);
    ord' := DealtOut(ord, l, orders);
    DealtOutIsDealt(ord, l, orders);
    DealIsRepair(ord, sb, sf, raw, orders, ord');
  }

  lemma ChainMembers<T(!new)>(s: seq<T>, t: seq<T>)
    ensures forall v :: v in s + t ==> v in Elements(s) + Elements(t)
  {
  }

  function OrdersAlong<V(!new)>(ord: map<V, nat>, l: seq<V>): (raw: seq<nat>)
    requires forall v :: v in l ==> v in ord
    ensures |raw| == |l| && forall i :: 0 <= i < |l| ==> raw[i] == ord[l[i]]
  {
    seq(|l|, i requires 0 <= i < |l| => ord[l[i]])
  }

  lemma SortedListing<V(!new)>(ord: map<V, nat>, s: set<V>) returns (l: seq<V>)
    requires s <= ord.Keys
    ensures Distinct(l) && Elements(l) == s && Ascending(l, ord)
  {
    var any := Listing(s);
    assert forall v :: v in any ==> v in Elements(any);
    l := SortByKey(any, ord);
    Rearranged(any, l);
  }

  ghost function WithOrders<V(!new), E(!new)>(nodes: Nodes<V, E>, ord: map<V, nat>): Nodes<V, E>
    requires ord.Keys == nodes.Keys
  {
    map v | v in nodes :: nodes[v].(ord := ord[v])
  }

  /** Whatever the valid graph and the edge, `add_edge` has an answer and leaves a graph behind. */
  lemma AddEdgeHasOutcome<V(!new), E(!new)>(pre: Graph<V, E>, x: V, y: V, e: E)
    returns (accepted: bool, post: Graph<V, E>)
    requires Valid(pre)
    ensures AddEdgeStep(pre, x, y, e, accepted, post)
  {
    accepted, post := !Reaches(Edges(pre.nodes), y, x), pre;
    if accepted && (x, y) !in Edges(pre.nodes) {
      Reflexive(Edges(pre.nodes), x);
      LinkedKeeps(pre, x, y, e);
      post := RepairedOutcome(pre, x, y, Linked(pre, x, y, e));
    }
  }

  lemma RepairedOutcome<V(!new), E(!new)>(pre: Graph<V, E>, x: V, y: V, mid: Graph<V, E>)
    returns (post: Graph<V, E>)
    requires OrdInjective(mid.nodes) && x in mid.nodes && y in mid.nodes && x != y
    requires Ordered(Edges(pre.nodes), Ords(mid.nodes)) && !Reaches(Edges(pre.nodes), y, x)
    ensures var es, ord := Edges(pre.nodes), Ords(mid.nodes);
            && post.unusedOrder == mid.unusedOrder
            && if ord[x] < ord[y] then post.nodes == mid.nodes
               else Reordered(mid.nodes, Before(es, ord, x, ord[y]), After(es, ord, y, ord[x]), post.nodes)
  {
    var es, ord := Edges(pre.nodes), Ords(mid.nodes);
    post := mid;
    if ord[y] <= ord[x] {
      OrdInjectiveMap(mid.nodes);
      DifferentOrders(ord, x, y);
      RegionsAreApart(es, ord, x, y);
      var b, f := Before(es, ord, x, ord[y]), After(es, ord, y, ord[x]);
      assert b <= ord.Keys && f <= ord.Keys;
      var ord' := RepairExists(ord, b, f);
      RepairedKeys(ord, b, f, ord');
      WithOrdersIsReordered(mid.nodes, b, f, ord');
      post := Graph(WithOrders(mid.nodes, ord'), mid.unusedOrder);
    }
  }

  lemma RepairedKeys<V(!new)>(ord: map<V, nat>, b: set<V>, f: set<V>, ord': map<V, nat>)
    requires Repaired(ord, b, f, ord')
    ensures ord'.Keys == ord.Keys
  {
  }

  lemma WithOrdersIsReordered<V(!new), E(!new)>(
    nodes: Nodes<V, E>, b: set<V>, f: set<V>, ord': map<V, nat>)
    requires ord'.Keys == nodes.Keys && Repaired(Ords(nodes), b, f, ord')
    ensures Reordered(nodes, b, f, WithOrders(nodes, ord'))
  {
  }
}
