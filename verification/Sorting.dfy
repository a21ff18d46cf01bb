/** Sorting by a numeric key: what the standard library's `sort_unstable` and `sort_unstable_by_key`
    do for `reorder` (src/graph.rs), and dealing a sorted list of orders out to the affected vertices. */
module Sorting {
  import opened Reachability
  import opened OrderRepair

  ghost predicate Ascending<T(!new)>(s: seq<T>, key: map<T, nat>) {
    && (forall v :: v in s ==> v in key)
    && forall i, j :: 0 <= i < j < |s| ==> key[s[i]] <= key[s[j]]
  }

  lemma PrependAscends<T(!new)>(v: T, s: seq<T>, key: map<T, nat>)
    requires v in key && Ascending(s, key) && forall w :: w in s ==> key[v] <= key[w]
    ensures Ascending([v] + s, key)
  {
  }

  function InsertByKey<T(!new)>(v: T, s: seq<T>, key: map<T, nat>): (r: seq<T>)
    requires v in key && forall w :: w in s ==> w in key
    ensures multiset(r) == multiset(s) + multiset{v}
  {
    if s == [] then [v]
    else if key[v] <= key[s[0]] then [v] + s
    else
      assert s == [s[0]] + s[1..];
      [s[0]] + InsertByKey(v, s[1..], key)
  }

  lemma {:induction false} InsertAscends<T(!new)>(v: T, s: seq<T>, key: map<T, nat>)
    requires v in key && Ascending(s, key)
    ensures Ascending(InsertByKey(v, s, key), key)
    decreases |s|
  {
    if s != [] && key[v] <= key[s[0]] {
      PrependAscends(v, s, key);
    } else if s != [] {
      var t := InsertByKey(v, s[1..], key);
      InsertAscends(v, s[1..], key);
      forall w | w in t ensures key[s[0]] <= key[w] {
        assert w in multiset(t);
        assert w == v || w in s[1..];
      }
      PrependAscends(s[0], t, key);
    }
  }

  function SortByKey<T(!new)>(s: seq<T>, key: map<T, nat>): (r: seq<T>)
    requires forall v :: v in s ==> v in key
    ensures multiset(r) == multiset(s)
    ensures Ascending(r, key)
  {
    if s == [] then []
    else
      assert s == [s[0]] + s[1..];
      var t := SortByKey(s[1..], key);
      InsertAscends(s[0], t, key);
      InsertByKey(s[0], t, key)
  }

  function SortNumbers(s: seq<nat>): (r: seq<nat>)
    ensures multiset(r) == multiset(s)
    ensures forall i, j :: 0 <= i < j < |r| ==> r[i] <= r[j]
  {
    var key := map n | n in s :: n;
    var r := SortByKey(s, key);
    assert forall i :: 0 <= i < |r| ==> key[r[i]] == r[i];
    r
  }

  lemma {:induction false} DistinctCounts<T(!new)>(s: seq<T>)
    ensures Distinct(s) <==> forall v :: v in multiset(s) ==> multiset(s)[v] == 1
  {
    if s != [] {
      var n := |s| - 1;
      var t := s[..n];
      DistinctCounts(t);
      assert s == t + [s[n]];
      if Distinct(s) {
        assert s[n] !in t;
      } else if Distinct(t) {
        assert s[n] in t;
        assert multiset(s)[s[n]] >= 2;
      } else {
        var v :| v in multiset(t) && multiset(t)[v] != 1;
        assert multiset(s)[v] != 1;
      }
    }
  }

  /** A rearrangement has the same members, and repeats none if the original repeats none. */
  lemma Rearranged<T(!new)>(s: seq<T>, r: seq<T>)
    requires multiset(r) == multiset(s)
    ensures |r| == |s|
    ensures forall v :: v in r <==> v in s
    ensures Distinct(r) <==> Distinct(s)
  {
    assert |multiset(r)| == |r| && |multiset(s)| == |s|;
    assert forall v :: v in r <==> v in multiset(r);
    assert forall v :: v in s <==> v in multiset(s);
    DistinctCounts(s);
    DistinctCounts(r);
  }

  function Elements<T>(s: seq<T>): set<T> {
    set v | v in s
  }

  /** The first `n` vertices of `l` have received the first `n` orders; nothing else has changed. */
  ghost predicate Dealt<V(!new)>(ord: map<V, nat>, l: seq<V>, orders: seq<nat>, n: nat, ord': map<V, nat>)
    requires n <= |l| == |orders|
  {
    && ord'.Keys == ord.Keys
    && (forall v :: v in l ==> v in ord)
    && (forall k :: 0 <= k < n ==> ord'[l[k]] == orders[k])
    && (forall v :: v in ord && v !in l[..n] ==> ord'[v] == ord[v])
  }

  /** Dealing the sorted orders of `sb + sf` out along `sb + sf` is a repair of the two groups. */
  lemma DealIsRepair<V(!new)>(
    ord: map<V, nat>, sb: seq<V>, sf: seq<V>, raw: seq<nat>, orders: seq<nat>, ord': map<V, nat>)
    requires Injective(ord) && Distinct(sb) && Distinct(sf) && Elements(sb) !! Elements(sf)
    requires Ascending(sb, ord) && Ascending(sf, ord)
    requires |raw| == |sb + sf| && forall i :: 0 <= i < |raw| ==> raw[i] == ord[(sb + sf)[i]]
    requires multiset(orders) == multiset(raw) && |orders| == |raw|
    requires forall i, j :: 0 <= i < j < |orders| ==> orders[i] <= orders[j]
    requires Dealt(ord, sb + sf, orders, |sb + sf|, ord')
    ensures Repaired(ord, Elements(sb), Elements(sf), ord')
  {
    var l := sb + sf;
    ChainIsDistinct(sb, sf);
    assert l[..|l|] == l;
    OrdersClimb(ord, l, raw, orders);
    SameImage(ord, l, raw, orders, ord');
    assert Elements(sb) + Elements(sf) == Elements(l);
    ClimbKeepsGroups(ord, sb, sf, l, ord');
  }

  /** Sorting the orders of different vertices gives a strictly climbing list of the same numbers. */
  lemma OrdersClimb<V(!new)>(ord: map<V, nat>, l: seq<V>, raw: seq<nat>, orders: seq<nat>)
    requires Injective(ord) && Distinct(l) && forall v :: v in l ==> v in ord
    requires |raw| == |l| && forall i :: 0 <= i < |raw| ==> raw[i] == ord[l[i]]
    requires multiset(orders) == multiset(raw)
    requires forall i, j :: 0 <= i < j < |orders| ==> orders[i] <= orders[j]
    ensures forall i, j :: 0 <= i < j < |orders| ==> orders[i] < orders[j]
    ensures forall n :: n in orders <==> n in raw
  {
    assert Distinct(raw) by {
      forall i, j | 0 <= i < j < |raw| ensures raw[i] != raw[j] {
        assert ord[l[i]] != ord[l[j]];
      }
    }
    Rearranged(raw, orders);
  }

  lemma ClimbKeepsGroups<V(!new)>(ord: map<V, nat>, sb: seq<V>, sf: seq<V>, l: seq<V>, ord': map<V, nat>)
    requires Ascending(sb, ord) && Ascending(sf, ord) && l == sb + sf
    requires forall v :: v in l ==> v in ord'
    requires forall i, j :: 0 <= i < j < |l| ==> ord'[l[i]] < ord'[l[j]]
    ensures Elements(sb) <= ord.Keys && KeepsOrderOn(ord, Elements(sb), ord')
    ensures Elements(sf) <= ord.Keys && KeepsOrderOn(ord, Elements(sf), ord')
    ensures forall u, v :: u in Elements(sb) && v in Elements(sf) ==> ord'[u] < ord'[v]
  {
    forall i, j | 0 <= i < j < |sb| ensures sb[i] in ord' && sb[j] in ord' && ord'[sb[i]] < ord'[sb[j]] {
      assert l[i] == sb[i] && l[j] == sb[j];
    }
    forall i, j | 0 <= i < j < |sf| ensures sf[i] in ord' && sf[j] in ord' && ord'[sf[i]] < ord'[sf[j]] {
      assert l[|sb| + i] == sf[i] && l[|sb| + j] == sf[j];
    }
    AscendingKeeps(ord, sb, ord');
    AscendingKeeps(ord, sf, ord');
    FirstBeforeLast(sb, sf, ord');
  }

  lemma ChainIsDistinct<T(!new)>(s: seq<T>, t: seq<T>)
    requires Distinct(s) && Distinct(t) && Elements(s) !! Elements(t)
    ensures Distinct(s + t)
  {
    forall i, j | 0 <= i < j < |s + t| ensures (s + t)[i] != (s + t)[j] {
      if i < |s| <= j {
        assert (s + t)[i] in Elements(s) && (s + t)[j] in Elements(t);
      }
    }
  }

  lemma FirstBeforeLast<V(!new)>(s: seq<V>, t: seq<V>, ord': map<V, nat>)
    requires forall v :: v in s + t ==> v in ord'
    requires forall i, j :: 0 <= i < j < |s + t| ==> ord'[(s + t)[i]] < ord'[(s + t)[j]]
    ensures forall u, v :: u in Elements(s) && v in Elements(t) ==> ord'[u] < ord'[v]
  {
    forall u, v | u in Elements(s) && v in Elements(t) ensures ord'[u] < ord'[v] {
      var i :| 0 <= i < |s| && s[i] == u;
      var j :| 0 <= j < |t| && t[j] == v;
      assert (s + t)[i] == u && (s + t)[|s| + j] == v;
    }
  }

  lemma SameImage<V(!new)>(
    ord: map<V, nat>, l: seq<V>, raw: seq<nat>, orders: seq<nat>, ord': map<V, nat>)
    requires ord'.Keys == ord.Keys && |raw| == |orders| == |l| && Elements(l) <= ord.Keys
    requires forall i :: 0 <= i < |l| ==> raw[i] == ord[l[i]] && orders[i] == ord'[l[i]]
    requires forall n :: n in orders <==> n in raw
    ensures Image(ord', Elements(l)) == Image(ord, Elements(l))
  {
    forall n ensures n in Image(ord, Elements(l)) <==> n in raw {
      if n in raw {
        var i :| 0 <= i < |raw| && raw[i] == n;
        assert l[i] in Elements(l);
      }
    }
    forall n ensures n in Image(ord', Elements(l)) <==> n in orders {
      if n in orders {
        var i :| 0 <= i < |orders| && orders[i] == n;
        assert l[i] in Elements(l);
      }
    }
  }

  lemma AscendingKeeps<V(!new)>(ord: map<V, nat>, s: seq<V>, ord': map<V, nat>)
    requires Ascending(s, ord) && forall v :: v in s ==> v in ord'
    requires forall i, j :: 0 <= i < j < |s| ==> ord'[s[i]] < ord'[s[j]]
    ensures Elements(s) <= ord.Keys && KeepsOrderOn(ord, Elements(s), ord')
  {
  }
}
