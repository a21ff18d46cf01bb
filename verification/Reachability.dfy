/** Walks, reachability and topological orders over a finite set of directed edges. */
module Reachability {

  /** A walk along `es`: at least one vertex, and an edge between every two neighbours. */
  ghost predicate IsPath<V(!new)>(es: set<(V, V)>, p: seq<V>) {
    && |p| > 0
    && forall i :: 0 <= i < |p| - 1 ==> (p[i], p[i + 1]) in es
  }

  ghost predicate Connects<V(!new)>(es: set<(V, V)>, p: seq<V>, a: V, b: V) {
    IsPath(es, p) && p[0] == a && p[|p| - 1] == b
  }

  /** Reflexive reachability: every vertex reaches itself along the one-vertex walk. */
  ghost predicate Reaches<V(!new)>(es: set<(V, V)>, a: V, b: V) {
    exists p :: Connects(es, p, a, b)
  }

  /** Reachability along at least one edge. */
  ghost predicate Precedes<V(!new)>(es: set<(V, V)>, a: V, b: V) {
    exists c :: (a, c) in es && Reaches(es, c, b)
  }

  ghost predicate Acyclic<V(!new)>(es: set<(V, V)>) {
    forall u, v :: (u, v) in es ==> !Reaches(es, v, u)
  }

  /** `ord` is a topological order of `es`. */
  ghost predicate Ordered<V(!new)>(es: set<(V, V)>, ord: map<V, nat>) {
    forall u, v :: (u, v) in es ==> u in ord && v in ord && ord[u] < ord[v]
  }

  predicate Distinct<T(==)>(s: seq<T>) {
    forall i, j :: 0 <= i < j < |s| ==> s[i] != s[j]
  }

  lemma Reflexive<V(!new)>(es: set<(V, V)>, a: V)
    ensures Reaches(es, a, a)
  {
    assert Connects(es, [a], a, a);
  }

  lemma Transitive<V(!new)>(es: set<(V, V)>, a: V, b: V, c: V)
    requires Reaches(es, a, b) && Reaches(es, b, c)
    ensures Reaches(es, a, c)
  {
    var p :| Connects(es, p, a, b);
    var q :| Connects(es, q, b, c);
    assert Connects(es, p + q[1..], a, c);
  }

  lemma EdgeReaches<V(!new)>(es: set<(V, V)>, a: V, b: V)
    requires (a, b) in es
    ensures Reaches(es, a, b) && Precedes(es, a, b)
  {
    assert Connects(es, [a, b], a, b);
    Reflexive(es, b);
  }

  lemma Monotone<V(!new)>(es: set<(V, V)>, fs: set<(V, V)>, a: V, b: V)
    requires es <= fs
    ensures Reaches(es, a, b) ==> Reaches(fs, a, b)
    ensures Precedes(es, a, b) ==> Precedes(fs, a, b)
  {
    forall c, d | Reaches(es, c, d) ensures Reaches(fs, c, d) {
      var p :| Connects(es, p, c, d);
      assert Connects(fs, p, c, d);
    }
  }

  lemma PrecedesReaches<V(!new)>(es: set<(V, V)>, a: V, b: V)
    requires Precedes(es, a, b)
    ensures Reaches(es, a, b)
  {
    var c :| (a, c) in es && Reaches(es, c, b);
    EdgeReaches(es, a, c);
    Transitive(es, a, c, b);
  }

  lemma PrecedesThen<V(!new)>(es: set<(V, V)>, a: V, b: V, c: V)
    requires Precedes(es, a, b) && Reaches(es, b, c)
    ensures Precedes(es, a, c)
  {
    var d :| (a, d) in es && Reaches(es, d, b);
    Transitive(es, d, b, c);
  }

  /** A walk between two different vertices leaves the first and enters the last. */
  lemma EndsAreEdges<V(!new)>(es: set<(V, V)>, a: V, b: V)
    requires Reaches(es, a, b) && a != b
    ensures Precedes(es, a, b)
    ensures exists c :: (c, b) in es && Reaches(es, a, c)
  {
    var p :| Connects(es, p, a, b);
    var n := |p|;
    assert (p[0], p[1]) in es && Connects(es, p[1..], p[1], b);
    assert (p[n - 2], p[n - 1]) in es && Connects(es, p[..n - 1], a, p[n - 2]);
  }

  /** What one more edge makes reachable. */
  lemma AfterInsert<V(!new)>(es: set<(V, V)>, x: V, y: V, a: V, b: V)
    ensures Reaches(es + {(x, y)}, a, b) <==>
            Reaches(es, a, b) || (Reaches(es, a, x) && Reaches(es, y, b))
  {
    var fs := es + {(x, y)};
    if Reaches(es, a, x) && Reaches(es, y, b) {
      Monotone(es, fs, a, x);
      Monotone(es, fs, y, b);
      EdgeReaches(fs, x, y);
      Transitive(fs, a, x, y);
      Transitive(fs, a, y, b);
    }
    Monotone(es, fs, a, b);
    if Reaches(fs, a, b) {
      var p :| Connects(fs, p, a, b);
      SplitAtInsert(es, x, y, p);
    }
  }

  lemma {:induction false} SplitAtInsert<V(!new)>(es: set<(V, V)>, x: V, y: V, p: seq<V>)
    requires IsPath(es + {(x, y)}, p)
    ensures Reaches(es, p[0], p[|p| - 1]) ||
            (Reaches(es, p[0], x) && Reaches(es, y, p[|p| - 1]))
    decreases |p|
  {
    var n := |p|;
    if n == 1 {
      Reflexive(es, p[0]);
    } else {
      var q := p[..n - 1];
      SplitAtInsert(es, x, y, q);
      assert (p[n - 2], p[n - 1]) in es + {(x, y)};
      if (p[n - 2], p[n - 1]) in es {
        EdgeReaches(es, p[n - 2], p[n - 1]);
        if Reaches(es, p[0], p[n - 2]) {
          Transitive(es, p[0], p[n - 2], p[n - 1]);
        } else {
          Transitive(es, y, p[n - 2], p[n - 1]);
        }
      } else {
        Reflexive(es, y);
      }
    }
  }

  /** Adding an edge keeps the graph acyclic exactly when its head does not reach its tail. */
  lemma InsertKeepsAcyclic<V(!new)>(es: set<(V, V)>, x: V, y: V)
    requires Acyclic(es)
    ensures Acyclic(es + {(x, y)}) <==> !Reaches(es, y, x)
  {
    var fs := es + {(x, y)};
    if Reaches(es, y, x) {
      Monotone(es, fs, y, x);
      assert (x, y) in fs;
    } else {
      forall u, v | (u, v) in fs ensures !Reaches(fs, v, u) {
        AfterInsert(es, x, y, v, u);
        if (u, v) in es && Reaches(es, v, x) && Reaches(es, y, u) {
          EdgeReaches(es, u, v);
          Transitive(es, y, u, v);
          Transitive(es, y, v, x);
        }
      }
    }
  }

  lemma SubsetAcyclic<V(!new)>(es: set<(V, V)>, fs: set<(V, V)>)
    requires es <= fs && Acyclic(fs)
    ensures Acyclic(es)
  {
    forall u, v | (u, v) in es ensures !Reaches(es, v, u) {
      Monotone(es, fs, v, u);
    }
  }

  /** Along a topological order every walk climbs strictly. */
  lemma {:induction false} PathAscends<V(!new)>(es: set<(V, V)>, ord: map<V, nat>, p: seq<V>, i: nat, j: nat)
    requires Ordered(es, ord) && IsPath(es, p) && i < j < |p|
    ensures p[i] in ord && p[j] in ord && ord[p[i]] + (j - i) <= ord[p[j]]
    decreases j
  {
    assert (p[j - 1], p[j]) in es;
    if i < j - 1 {
      PathAscends(es, ord, p, i, j - 1);
    }
  }

  lemma Ascends<V(!new)>(es: set<(V, V)>, ord: map<V, nat>, a: V, b: V)
    requires Ordered(es, ord)
    ensures Precedes(es, a, b) ==> a in ord && b in ord && ord[a] < ord[b]
    ensures Reaches(es, a, b) && a != b ==> a in ord && b in ord && ord[a] < ord[b]
  {
    if Reaches(es, a, b) && a != b {
      EndsAreEdges(es, a, b);
    }
    if Precedes(es, a, b) {
      var c :| (a, c) in es && Reaches(es, c, b);
      var p :| Connects(es, p, c, b);
      if |p| > 1 {
        PathAscends(es, ord, p, 0, |p| - 1);
      }
    }
  }

  lemma OrderedIsAcyclic<V(!new)>(es: set<(V, V)>, ord: map<V, nat>)
    requires Ordered(es, ord)
    ensures Acyclic(es)
  {
    forall u, v | (u, v) in es ensures !Reaches(es, v, u) {
      Ascends(es, ord, v, u);
    }
  }

  /** A walk along an ordered graph visits no vertex twice. */
  lemma PathIsSimple<V(!new)>(es: set<(V, V)>, ord: map<V, nat>, p: seq<V>)
    requires Ordered(es, ord) && IsPath(es, p)
    ensures Distinct(p)
  {
    forall i, j | 0 <= i < j < |p| ensures p[i] != p[j] {
      PathAscends(es, ord, p, i, j);
    }
  }

  /** A set that holds `y` and every smaller-than-`ub` successor of its members holds all that
      `y` reaches below `ub`; if no member has a successor at `ub`, nothing at `ub` is reached. */
  lemma {:induction false} ForwardClosed<V(!new)>(
    es: set<(V, V)>, ord: map<V, nat>, s: set<V>, ub: nat, p: seq<V>)
    requires Ordered(es, ord) && IsPath(es, p) && p[0] in s
    requires forall u, v :: u in s && (u, v) in es ==> ord[v] != ub && (ord[v] < ub ==> v in s)
    requires p[|p| - 1] in ord && ord[p[|p| - 1]] <= ub
    ensures p[|p| - 1] in s
    decreases |p|
  {
    var n := |p|;
    if n > 1 {
      assert (p[n - 2], p[n - 1]) in es;
      ForwardClosed(es, ord, s, ub, p[..n - 1]);
    }
  }

  /** The mirror image of `ForwardClosed` along incoming edges. */
  lemma {:induction false} BackwardClosed<V(!new)>(
    es: set<(V, V)>, ord: map<V, nat>, s: set<V>, lb: nat, p: seq<V>)
    requires Ordered(es, ord) && IsPath(es, p) && p[|p| - 1] in s
    requires forall u, v :: v in s && (u, v) in es && lb < ord[u] ==> u in s
    requires p[0] in ord && lb < ord[p[0]]
    ensures p[0] in s
    decreases |p|
  {
    if |p| > 1 {
      assert (p[0], p[1]) in es;
      BackwardClosed(es, ord, s, lb, p[1..]);
    }
  }
}
