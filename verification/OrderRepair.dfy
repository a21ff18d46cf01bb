/** The order repair at the heart of the Pearce-Kelly algorithm, over plain order maps: which
    vertices a backward edge affects, how their orders may be dealt out again, and why the result is
    a topological order once more (src/graph.rs, `add_edge` and `reorder`). */
module OrderRepair {
  import opened Reachability

  ghost predicate Injective<V(!new)>(ord: map<V, nat>) {
    forall u, v {:trigger ord[u], ord[v]} :: u in ord && v in ord && ord[u] == ord[v] ==> u == v
  }

  /** What `y` reaches strictly below `ub`. */
  ghost function After<V(!new)>(es: set<(V, V)>, ord: map<V, nat>, y: V, ub: nat): set<V> {
    set v | v in ord && Reaches(es, y, v) && ord[v] < ub
  }

  /** What reaches `x` strictly above `lb`. */
  ghost function Before<V(!new)>(es: set<(V, V)>, ord: map<V, nat>, x: V, lb: nat): set<V> {
    set v | v in ord && Reaches(es, v, x) && lb < ord[v]
  }

  ghost function Image<V(!new)>(ord: map<V, nat>, s: set<V>): set<nat>
    requires s <= ord.Keys
  {
    set v | v in s :: ord[v]
  }

  ghost predicate KeepsOrderOn<V(!new)>(ord: map<V, nat>, s: set<V>, ord': map<V, nat>)
    requires s <= ord.Keys && s <= ord'.Keys
  {
    forall u, v :: u in s && v in s && ord[u] < ord[v] ==> ord'[u] < ord'[v]
  }

  /** `ord'` deals the orders of `b + f` out again: `b` first and `f` last, each in its old order. */
  ghost predicate Repaired<V(!new)>(ord: map<V, nat>, b: set<V>, f: set<V>, ord': map<V, nat>) {
    && ord'.Keys == ord.Keys
    && b <= ord.Keys && f <= ord.Keys
    && (forall v :: v in ord && v !in b && v !in f ==> ord'[v] == ord[v])
    && Image(ord', b + f) == Image(ord, b + f)
    && KeepsOrderOn(ord, b, ord') && KeepsOrderOn(ord, f, ord')
    && (forall u, v :: u in b && v in f ==> ord'[u] < ord'[v])
  }

  /** Every vertex of the first group moves down or stays. */
  lemma {:induction false} FirstGroupSinks<V(!new)>(
    ord: map<V, nat>, b: set<V>, f: set<V>, ord': map<V, nat>, u: V)
    requires Repaired(ord, b, f, ord') && Injective(ord) && u in b
    ensures ord'[u] <= ord[u]
    decreases ord[u]
  {
    if ord'[u] > ord[u] {
      assert ord[u] in Image(ord', b + f);
      var w :| w in b + f && ord'[w] == ord[u];
      assert w in b && w != u;
      assert ord[w] < ord[u];
      FirstGroupSinks(ord, b, f, ord', w);
      assert false;
    }
  }

  /** Every vertex of the second group moves up or stays. */
  lemma {:induction false} SecondGroupRises<V(!new)>(
    ord: map<V, nat>, b: set<V>, f: set<V>, ord': map<V, nat>, v: V, top: nat)
    requires Repaired(ord, b, f, ord') && Injective(ord) && v in f
    requires forall w :: w in f ==> ord[w] <= top
    ensures ord[v] <= ord'[v]
    decreases top - ord[v]
  {
    if ord'[v] < ord[v] {
      assert ord[v] in Image(ord', b + f);
      var w :| w in b + f && ord'[w] == ord[v];
      assert w in f && w != v;
      assert ord[v] < ord[w];
      SecondGroupRises(ord, b, f, ord', w, top);
      assert false;
    }
  }

  /** A repaired vertex holds an order that an affected vertex had before. */
  lemma OldHolder<V(!new)>(ord: map<V, nat>, b: set<V>, f: set<V>, ord': map<V, nat>, v: V)
    returns (w: V)
    requires Repaired(ord, b, f, ord') && v in b + f
    ensures w in b + f && ord[w] == ord'[v]
  {
    assert ord'[v] in Image(ord', b + f);
    w :| w in b + f && ord[w] == ord'[v];
  }

  lemma RepairedIsInjective<V(!new)>(ord: map<V, nat>, b: set<V>, f: set<V>, ord': map<V, nat>)
    requires Repaired(ord, b, f, ord') && Injective(ord)
    ensures Injective(ord')
  {
    forall u, v | u in ord' && v in ord' && u != v ensures ord'[u] != ord'[v] {
      if u in b + f && v !in b + f {
        var w := OldHolder(ord, b, f, ord', u);
      } else if v in b + f && u !in b + f {
        var w := OldHolder(ord, b, f, ord', v);
      }
    }
  }

  /** The repair is determined by the two groups: no other choice of orders fits. */
  lemma {:induction false} RepairIsUnique<V(!new)>(
    ord: map<V, nat>, b: set<V>, f: set<V>, ord1: map<V, nat>, ord2: map<V, nat>, v: V)
    requires Repaired(ord, b, f, ord1) && Repaired(ord, b, f, ord2) && Injective(ord)
    requires b !! f && v in ord
    ensures ord1[v] == ord2[v]
    decreases ord1[v]
  {
    if v in b + f && ord1[v] != ord2[v] {
      RepairedIsInjective(ord, b, f, ord1);
      RepairedIsInjective(ord, b, f, ord2);
      assert ord1[v] in Image(ord2, b + f) && ord2[v] in Image(ord1, b + f);
      var w :| w in b + f && ord2[w] == ord1[v];
      if ord1[w] < ord1[v] {
        RepairIsUnique(ord, b, f, ord1, ord2, w);
        assert false;
      }
      assert ord1[v] < ord1[w];
      SameRanking(ord, b, f, ord1, ord2, v, w);
      var z :| z in b + f && ord1[z] == ord2[v];
      RepairIsUnique(ord, b, f, ord1, ord2, z);
    }
  }

  /** Two repairs of the same groups rank the affected vertices alike. */
  lemma SameRanking<V(!new)>(
    ord: map<V, nat>, b: set<V>, f: set<V>, ord1: map<V, nat>, ord2: map<V, nat>, v: V, w: V)
    requires Repaired(ord, b, f, ord1) && Repaired(ord, b, f, ord2) && Injective(ord)
    requires v in b + f && w in b + f && ord1[v] < ord1[w]
    ensures ord2[v] < ord2[w]
  {
  }

  /** The groups an acyclic insertion of `x -> y` affects do not meet, and lie between the ends. */
  lemma RegionsAreApart<V(!new)>(es: set<(V, V)>, ord: map<V, nat>, x: V, y: V)
    requires Ordered(es, ord) && x in ord && y in ord && ord[y] < ord[x]
    requires !Reaches(es, y, x)
    ensures var b, f := Before(es, ord, x, ord[y]), After(es, ord, y, ord[x]);
            && b !! f && x in b && y in f
            && (forall v :: v in b + f ==> ord[y] <= ord[v] <= ord[x])
  {
    Reflexive(es, x);
    Reflexive(es, y);
    var b, f := Before(es, ord, x, ord[y]), After(es, ord, y, ord[x]);
    forall v | v in b && v in f ensures false {
      Transitive(es, y, v, x);
    }
    forall v | v in b + f ensures ord[y] <= ord[v] <= ord[x] {
      Ascends(es, ord, y, v);
      Ascends(es, ord, v, x);
    }
  }

  /** The repaired orders stay between the ends of the inserted edge. */
  lemma RepairStaysInside<V(!new)>(
    es: set<(V, V)>, ord: map<V, nat>, x: V, y: V, ord': map<V, nat>, v: V)
    requires Ordered(es, ord) && x in ord && y in ord && ord[y] < ord[x]
    requires !Reaches(es, y, x)
    requires Repaired(ord, Before(es, ord, x, ord[y]), After(es, ord, y, ord[x]), ord')
    requires v in Before(es, ord, x, ord[y]) + After(es, ord, y, ord[x])
    ensures ord[y] <= ord'[v] <= ord[x]
  {
    var w := OldHolder(ord, Before(es, ord, x, ord[y]), After(es, ord, y, ord[x]), ord', v);
    RegionsAreApart(es, ord, x, y);
  }

  /** The repair restores the topological order, the inserted edge included. */
  lemma RepairIsTopological<V(!new)>(es: set<(V, V)>, ord: map<V, nat>, x: V, y: V, ord': map<V, nat>)
    requires Ordered(es, ord) && Injective(ord)
    requires x in ord && y in ord && ord[y] < ord[x] && !Reaches(es, y, x)
    requires Repaired(ord, Before(es, ord, x, ord[y]), After(es, ord, y, ord[x]), ord')
    ensures Ordered(es + {(x, y)}, ord')
  {
    RegionsAreApart(es, ord, x, y);
    forall u, v | (u, v) in es + {(x, y)}
      ensures u in ord' && v in ord' && ord'[u] < ord'[v]
    {
      if (u, v) in es {
        RepairedEdge(es, ord, x, y, ord', u, v);
      }
    }
  }

  lemma RepairedEdge<V(!new)>(
    es: set<(V, V)>, ord: map<V, nat>, x: V, y: V, ord': map<V, nat>, u: V, v: V)
    requires Ordered(es, ord) && Injective(ord)
    requires x in ord && y in ord && ord[y] < ord[x] && !Reaches(es, y, x)
    requires Repaired(ord, Before(es, ord, x, ord[y]), After(es, ord, y, ord[x]), ord')
    requires (u, v) in es
    ensures ord'[u] < ord'[v]
  {
    var b, f := Before(es, ord, x, ord[y]), After(es, ord, y, ord[x]);
    RegionsAreApart(es, ord, x, y);
    EdgeReaches(es, u, v);
    if u in f {
      Transitive(es, y, u, v);
      if v !in f {
        // `v` lies above `ub`: it is neither the tail of the new edge nor affected at all.
        assert v !in b && ord[v] > ord[x];
        RepairStaysInside(es, ord, x, y, ord', u);
      }
    } else if v in b {
      Transitive(es, u, v, x);
      if u !in b {
        assert u != y && ord[u] < ord[y];
        RepairStaysInside(es, ord, x, y, ord', v);
      }
    } else if u in b {
      FirstGroupSinks(ord, b, f, ord', u);
    } else if v in f {
      SecondGroupRises(ord, b, f, ord', v, ord[x]);
    }
  }

  /** The affected vertices are at most as many as there are orders between the two ends. */
  lemma AffectedRegionBound<V(!new)>(es: set<(V, V)>, ord: map<V, nat>, x: V, y: V)
    requires Ordered(es, ord) && Injective(ord)
    requires x in ord && y in ord && ord[y] < ord[x] && !Reaches(es, y, x)
    ensures |Before(es, ord, x, ord[y])| + |After(es, ord, y, ord[x])| <= ord[x] - ord[y] + 1
  {
    var b, f := Before(es, ord, x, ord[y]), After(es, ord, y, ord[x]);
    RegionsAreApart(es, ord, x, y);
    assert |b + f| == |b| + |f|;
    WithinInterval(ord, b + f, ord[y], ord[x]);
  }

  lemma {:induction false} WithinInterval<V(!new)>(ord: map<V, nat>, s: set<V>, lo: nat, hi: nat)
    requires Injective(ord) && s <= ord.Keys && lo <= hi + 1
    requires forall v :: v in s ==> lo <= ord[v] <= hi
    ensures |s| <= hi + 1 - lo
    decreases hi + 1 - lo
  {
    if lo <= hi {
      if v :| v in s && ord[v] == lo {
        WithinInterval(ord, s - {v}, lo + 1, hi);
      } else {
        WithinInterval(ord, s, lo + 1, hi);
      }
    } else {
      assert s == {};
    }
  }
}
