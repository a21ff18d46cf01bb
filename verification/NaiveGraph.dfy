/** The reference the graph is measured against: a labelled edge map that searches from scratch, keeps
    no order and recycles no numbers. Whole runs of the real graph answer exactly as it does. */
module NaiveGraph {
  import opened Reachability
  import opened GraphModel
  import opened Insertion
  import opened Totality

  datatype Naive<V, E> = Naive(live: set<V>, edges: map<(V, V), E>)

  datatype Op<V, E> = Add(x: V, y: V, e: E) | Remove(n: V)

  ghost function NaiveStep<V(!new), E(!new)>(m: Naive<V, E>, op: Op<V, E>): (Naive<V, E>, bool) {
    match op
    case Add(x, y, e) =>
      if Reaches(m.edges.Keys, y, x) then (m, false)
      else (Naive(m.live + {x, y}, if (x, y) in m.edges then m.edges else m.edges[(x, y) := e]), true)
    case Remove(n) =>
      (Naive(m.live - {n}, map p | p in m.edges && p.0 != n && p.1 != n :: m.edges[p]), n in m.live)
  }

  ghost function NaiveAfter<V(!new), E(!new)>(ops: seq<Op<V, E>>): Naive<V, E> {
    if ops == [] then Naive({}, map[])
    else NaiveStep(NaiveAfter(ops[..|ops| - 1]), ops[|ops| - 1]).0
  }

  ghost function NaiveAnswers<V(!new), E(!new)>(ops: seq<Op<V, E>>): (answers: seq<bool>)
    ensures |answers| == |ops|
  {
    if ops == [] then []
    else
      var before := ops[..|ops| - 1];
      NaiveAnswers(before) + [NaiveStep(NaiveAfter(before), ops[|ops| - 1]).1]
  }

  // ----- runs of the real graph -----

  /** One call on the real graph, as its contracts describe it. */
  ghost predicate Step<V(!new), E(!new)>(pre: Graph<V, E>, op: Op<V, E>, answer: bool, post: Graph<V, E>) {
    match op
    case Add(x, y, e) => AddEdgeStep(pre, x, y, e, answer, post)
    case Remove(n) => answer == (n in pre.nodes) && post == WithoutNode(pre, n)
  }

  /** The graphs a sequence of calls on a new graph goes through, and the answers it gets. */
  ghost predicate Run<V(!new), E(!new)>(gs: seq<Graph<V, E>>, ops: seq<Op<V, E>>, answers: seq<bool>)
    decreases |ops|
  {
    && |gs| == |ops| + 1 && |answers| == |ops|
    && if ops == [] then gs[0] == Empty()
       else
         var n := |ops| - 1;
         Run(gs[..n + 1], ops[..n], answers[..n]) && Step(gs[n], ops[n], answers[n], gs[n + 1])
  }

  ghost function Abstract<V(!new), E(!new)>(g: Graph<V, E>): Naive<V, E> {
    Naive(g.nodes.Keys, EdgeMap(g.nodes))
  }

  lemma EmptyRefines<V(!new), E(!new)>()
    ensures Valid(Empty<V, E>()) && Abstract(Empty<V, E>()) == Naive({}, map[])
  {
  }

  /** One call keeps the invariant, changes the graph as the reference does, and answers alike. */
  lemma StepRefines<V(!new), E(!new)>(pre: Graph<V, E>, op: Op<V, E>, answer: bool, post: Graph<V, E>)
    requires Valid(pre) && Step(pre, op, answer, post)
    ensures Valid(post)
    ensures NaiveStep(Abstract(pre), op) == (Abstract(post), answer)
  {
    match op
    case Add(x, y, e) =>
      assert EdgeMap(pre.nodes).Keys == Edges(pre.nodes);
      if answer {
        EdgeAddedKeeps(pre, x, y, e, post);
      }
    case Remove(n) =>
      WithoutNodeKeeps(pre, n);
      WithoutNodeEdges(pre, n);
  }

  /** Every run of the real graph gives the answers of the reference, whatever orders it holds and
      however its tables are traversed, and ends in a valid graph with the reference's edges. */
  lemma {:induction false} RunRefines<V(!new), E(!new)>(
    gs: seq<Graph<V, E>>, ops: seq<Op<V, E>>, answers: seq<bool>)
    requires Run(gs, ops, answers)
    ensures Valid(gs[|ops|]) && Abstract(gs[|ops|]) == NaiveAfter(ops)
    ensures answers == NaiveAnswers(ops)
    decreases |ops|
  {
    hide Valid, Step, NaiveStep, Abstract, Empty;
    EmptyRefines<V, E>();
    if ops != [] {
      var n := |ops| - 1;
      RunRefines(gs[..n + 1], ops[..n], answers[..n]);
      StepRefines(gs[n], ops[n], answers[n], gs[n + 1]);
      assert answers == answers[..n] + [answers[n]];
    }
  }

  /** Every sequence of calls has a run. */
  lemma {:induction false} RunExists<V(!new), E(!new)>(ops: seq<Op<V, E>>)
    returns (gs: seq<Graph<V, E>>, answers: seq<bool>)
    ensures Run(gs, ops, answers)
    decreases |ops|
  {
    hide Run, Step, Valid, Abstract, NaiveAfter, NaiveAnswers;
    if ops == [] {
      gs, answers := [Empty()], [];
      EmptyRun<V, E>();
    } else {
      var n := |ops| - 1;
      gs, answers := RunExists(ops[..n]);
      RunRefines(gs, ops[..n], answers);
      RunLength(gs, ops[..n], answers);
      var answer, post := StepHasOutcome(gs[n], ops[n]);
      RunThen(gs, ops[..n], answers, ops[n], answer, post);
      assert ops == ops[..n] + [ops[n]];
      gs, answers := gs + [post], answers + [answer];
    }
  }

  lemma EmptyRun<V(!new), E(!new)>()
    ensures Run([Empty<V, E>()], [], [])
  {
  }

  lemma RunLength<V(!new), E(!new)>(gs: seq<Graph<V, E>>, ops: seq<Op<V, E>>, answers: seq<bool>)
    requires Run(gs, ops, answers)
    ensures |gs| == |ops| + 1 && |answers| == |ops|
  {
  }

  lemma StepHasOutcome<V(!new), E(!new)>(pre: Graph<V, E>, op: Op<V, E>)
    returns (answer: bool, post: Graph<V, E>)
    requires Valid(pre)
    ensures Step(pre, op, answer, post)
  {
    match op
    case Add(x, y, e) => answer, post := AddEdgeHasOutcome(pre, x, y, e);
    case Remove(n) => answer, post := n in pre.nodes, WithoutNode(pre, n);
  }

  /** Two runs of the same calls go through the same graphs, orders and pool included, and answer
      alike, however their tables are traversed. */
  lemma {:induction false} RunsAgree<V(!new), E(!new)>(
    gs1: seq<Graph<V, E>>, gs2: seq<Graph<V, E>>, ops: seq<Op<V, E>>, answers1: seq<bool>, answers2: seq<bool>)
    requires Run(gs1, ops, answers1) && Run(gs2, ops, answers2)
    ensures gs1 == gs2 && answers1 == answers2
    decreases |ops|
  {
    hide Valid, Step, Empty;
    if ops == [] {
      assert gs1 == [gs1[0]] && gs2 == [gs2[0]];
    } else {
      var n := |ops| - 1;
      RunsAgree(gs1[..n + 1], gs2[..n + 1], ops[..n], answers1[..n], answers2[..n]);
      assert gs1[n] == gs1[..n + 1][n] && gs2[n] == gs2[..n + 1][n];
      RunRefines(gs1[..n + 1], ops[..n], answers1[..n]);
      StepIsDeterministic(gs1[n], ops[n], answers1[n], gs1[n + 1], answers2[n], gs2[n + 1]);
      assert gs1 == gs1[..n + 1] + [gs1[n + 1]] && gs2 == gs2[..n + 1] + [gs2[n + 1]];
      assert answers1 == answers1[..n] + [answers1[n]] && answers2 == answers2[..n] + [answers2[n]];
    }
  }

  lemma StepIsDeterministic<V(!new), E(!new)>(
    pre: Graph<V, E>, op: Op<V, E>, a1: bool, post1: Graph<V, E>, a2: bool, post2: Graph<V, E>)
    requires Valid(pre) && Step(pre, op, a1, post1) && Step(pre, op, a2, post2)
    ensures a1 == a2 && post1 == post2
  {
    if op.Add? {
      AddEdgeIsDeterministic(pre, op.x, op.y, op.e, a1, post1, a2, post2);
    }
  }

  // ----- order numbers over a run -----

  ghost function Max(a: nat, b: nat): nat {
    if a < b then b else a
  }

  /** The largest number of nodes that any graph of the run holds at once. */
  ghost function Peak<V(!new), E(!new)>(gs: seq<Graph<V, E>>): nat
  {
    if gs == [] then 0
    else Max(Peak(gs[..|gs| - 1]), |gs[|gs| - 1].nodes|)
  }

  lemma WithNodeSpan<V(!new), E(!new)>(g: Graph<V, E>, n: V)
    ensures WithNode(g, n).Span() == Max(g.Span(), |WithNode(g, n).nodes|)
    ensures |g.nodes| <= |WithNode(g, n).nodes|
  {
  }

  lemma StepSpan<V(!new), E(!new)>(pre: Graph<V, E>, op: Op<V, E>, answer: bool, post: Graph<V, E>)
    requires Valid(pre) && Step(pre, op, answer, post)
    ensures post.Span() == Max(pre.Span(), |post.nodes|)
  {
    match op
    case Add(x, y, e) =>
      if answer {
        EdgeAddedKeeps(pre, x, y, e, post);
        WithNodeSpan(pre, x);
        WithNodeSpan(WithNode(pre, x), y);
        assert WithEnds(pre, x, y).nodes.Keys == post.nodes.Keys by {
          WithEndsKeeps(pre, x, y);
        }
        assert |WithEnds(pre, x, y).nodes.Keys| == |post.nodes.Keys|;
      }
    case Remove(n) =>
      WithoutNodeKeeps(pre, n);
  }

  /** Recycling is perfect: after any run exactly as many numbers have been handed out as there were
      live nodes at the fullest moment. */
  lemma {:induction false} SpanIsPeak<V(!new), E(!new)>(
    gs: seq<Graph<V, E>>, ops: seq<Op<V, E>>, answers: seq<bool>)
    requires Run(gs, ops, answers)
    ensures gs[|ops|].Span() == Peak(gs)
    decreases |ops|
  {
    if ops == [] {
      assert |Empty<V, E>().nodes| == 0 && Peak(gs[..0]) == 0;
    } else {
      var n := |ops| - 1;
      RunRefines(gs[..n + 1], ops[..n], answers[..n]);
      SpanIsPeak(gs[..n + 1], ops[..n], answers[..n]);
      StepSpan(gs[n], ops[n], answers[n], gs[n + 1]);
      assert gs[..|gs| - 1] == gs[..n + 1];
    }
  }

  lemma OrdersBelowPeak<V(!new), E(!new)>(gs: seq<Graph<V, E>>, ops: seq<Op<V, E>>, answers: seq<bool>)
    requires Run(gs, ops, answers)
    ensures forall v :: v in gs[|ops|].nodes ==> gs[|ops|].nodes[v].ord < Peak(gs)
  {
    RunRefines(gs, ops, answers);
    SpanIsPeak(gs, ops, answers);
  }

  /** A created node does not always go to the end of the order: after `a -> b` is added and `a` is
      removed, a new node `c` gets the number of `a` and comes before `b`. */
  lemma RecycledOrderIsNotLast<V(!new), E(!new)>(a: V, b: V, c: V, e: E)
    requires Distinct([a, b, c])
    ensures exists gs: seq<Graph<V, E>>, answers ::
              Run(gs, [Add(a, b, e), Remove(a)], answers) && c !in gs[2].nodes && b in gs[2].nodes &&
              WithNode(gs[2], c).nodes[c].ord < gs[2].nodes[b].ord
  {
    assert [a, b, c][0] == a && [a, b, c][1] == b && [a, b, c][2] == c;
    var g1 := Graph(map[a := Node({}, map[b := e], 0), b := Node({a}, map[], 1)], []);
    var g2 := Graph(map[b := Node({}, map[], 1)], [0]);
    FirstEdge(a, b, e);
    RemoveFirst(a, b, e);
    hide Step;
    assert Run([Empty<V, E>()], [], []);
    RunThen([Empty()], [], [], Add(a, b, e), true, g1);
    RunThen([Empty()] + [g1], [] + [Add(a, b, e)], [] + [true], Remove(a), true, g2);
    assert Run([Empty()] + [g1] + [g2], [Add(a, b, e), Remove(a)], [true, true]);
    hide Run;
    assert WithNode(g2, c).nodes[c].ord == 0;
  }

  lemma RunThen<V(!new), E(!new)>(
    gs: seq<Graph<V, E>>, ops: seq<Op<V, E>>, answers: seq<bool>, op: Op<V, E>, answer: bool, post: Graph<V, E>)
    requires Run(gs, ops, answers) && Step(gs[|ops|], op, answer, post)
    ensures Run(gs + [post], ops + [op], answers + [answer])
  {
    var n := |ops|;
    assert (gs + [post])[..n + 1] == gs && (ops + [op])[..n] == ops && (answers + [answer])[..n] == answers;
  }

  lemma FirstEdge<V(!new), E(!new)>(a: V, b: V, e: E)
    requires a != b
    ensures Step(Empty(), Add(a, b, e), true,
                 Graph(map[a := Node({}, map[b := e], 0), b := Node({a}, map[], 1)], []))
  {
    var none := Edges(Empty<V, E>().nodes);
    assert !Reaches(none, b, a) by {
      if Reaches(none, b, a) {
        EndsAreEdges(none, b, a);
      }
    }
    var mid := Linked(Empty<V, E>(), a, b, e);
    assert WithNode(Empty<V, E>(), a) == Graph(map[a := Node({}, map[], 0)], []);
    assert WithEnds(Empty<V, E>(), a, b) == Graph(map[a := Node({}, map[], 0), b := Node({}, map[], 1)], []);
    assert mid == Graph(map[a := Node({}, map[b := e], 0), b := Node({a}, map[], 1)], []);
    assert Ords(mid.nodes)[a] < Ords(mid.nodes)[b];
  }

  lemma RemoveFirst<V(!new), E(!new)>(a: V, b: V, e: E)
    requires a != b
    ensures Step(Graph(map[a := Node({}, map[b := e], 0), b := Node({a}, map[], 1)], []), Remove(a), true,
                 Graph(map[b := Node({}, map[], 1)], [0]))
  {
    var g := Graph(map[a := Node({}, map[b := e], 0), b := Node({a}, map[], 1)], []);
    var h := WithoutNode(g, a);
    var none: map<V, E> := map[];
    assert none - {a} == none;
    assert h.nodes.Keys == {b} && h.nodes[b] == Node({}, map[], 1);
    assert h == Graph(map[b := Node({}, map[], 1)], [0]);
  }

  // ----- removal reopens edges -----

  /** After `n` is removed, `c -> a` is accepted exactly when no walk from `a` to `c` avoided `n`. */
  lemma RemovalReopens<V(!new), E(!new)>(
    g: Graph<V, E>, n: V, c: V, a: V, e: E, accepted: bool, post: Graph<V, E>)
    requires Valid(g) && AddEdgeStep(WithoutNode(g, n), c, a, e, accepted, post)
    ensures accepted <==> !Reaches(Avoiding(Edges(g.nodes), n), a, c)
  {
    WithoutNodeKeeps(g, n);
  }

  // ----- batches of edges -----

  datatype NewEdge<V, E> = NewEdge(x: V, y: V, e: E)

  ghost function AddAll<V(!new), E(!new)>(list: seq<NewEdge<V, E>>): (ops: seq<Op<V, E>>)
    ensures |ops| == |list|
    ensures forall i :: 0 <= i < |list| ==> ops[i] == Add(list[i].x, list[i].y, list[i].e)
  {
    seq(|list|, i requires 0 <= i < |list| => Add(list[i].x, list[i].y, list[i].e))
  }

  ghost function Pairs<V(!new), E(!new)>(list: seq<NewEdge<V, E>>): set<(V, V)> {
    set n | n in list :: (n.x, n.y)
  }

  ghost predicate AllTrue(answers: seq<bool>) {
    forall i :: 0 <= i < |answers| ==> answers[i]
  }

  /** The reference accepts a whole list exactly when its edges form no cycle. */
  lemma {:induction false} NaiveBatch<V(!new), E(!new)>(list: seq<NewEdge<V, E>>)
    ensures AllTrue(NaiveAnswers(AddAll(list))) <==> Acyclic(Pairs(list))
    ensures Acyclic(Pairs(list)) ==> NaiveAfter(AddAll(list)).edges.Keys == Pairs(list)
    decreases |list|
  {
    if list != [] {
      var n := |list| - 1;
      var before, last := list[..n], list[n];
      NaiveBatch(before);
      NaiveLast(list);
      if Acyclic(Pairs(before)) {
        InsertKeepsAcyclic(Pairs(before), last.x, last.y);
      } else if Acyclic(Pairs(list)) {
        SubsetAcyclic(Pairs(before), Pairs(list));
      }
    }
  }

  /** What the last edge of a list adds to the answers, the graph and the edge set. */
  lemma NaiveLast<V(!new), E(!new)>(list: seq<NewEdge<V, E>>)
    requires list != []
    ensures var n := |list| - 1;
            var m, last := NaiveAfter(AddAll(list[..n])), list[n];
            var ok := !Reaches(m.edges.Keys, last.y, last.x);
            && (AllTrue(NaiveAnswers(AddAll(list))) <==> AllTrue(NaiveAnswers(AddAll(list[..n]))) && ok)
            && NaiveAfter(AddAll(list)).edges.Keys ==
               (if ok then m.edges.Keys + {(last.x, last.y)} else m.edges.Keys)
            && Pairs(list) == Pairs(list[..n]) + {(last.x, last.y)}
  {
    var n, ops := |list| - 1, AddAll(list);
    assert ops[..n] == AddAll(list[..n]);
    AllTrueLast(NaiveAnswers(ops[..n]), NaiveStep(NaiveAfter(ops[..n]), ops[n]).1);
    assert list == list[..n] + [list[n]];
  }

  lemma AllTrueLast(answers: seq<bool>, last: bool)
    ensures AllTrue(answers + [last]) <==> AllTrue(answers) && last
  {
    assert forall i :: 0 <= i < |answers| ==> (answers + [last])[i] == answers[i];
    assert (answers + [last])[|answers|] == last;
  }

  /** Adding a list of edges to the empty graph succeeds throughout exactly when they are acyclic. */
  lemma BatchAccepted<V(!new), E(!new)>(
    gs: seq<Graph<V, E>>, list: seq<NewEdge<V, E>>, answers: seq<bool>)
    requires Run(gs, AddAll(list), answers)
    ensures AllTrue(answers) <==> Acyclic(Pairs(list))
  {
    RunRefines(gs, AddAll(list), answers);
    NaiveBatch(list);
  }

  /** So the order in which the edges arrive does not matter. */
  lemma BatchOrderIsIrrelevant<V(!new), E(!new)>(
    gs1: seq<Graph<V, E>>, list1: seq<NewEdge<V, E>>, answers1: seq<bool>,
    gs2: seq<Graph<V, E>>, list2: seq<NewEdge<V, E>>, answers2: seq<bool>)
    requires multiset(list1) == multiset(list2)
    requires Run(gs1, AddAll(list1), answers1) && Run(gs2, AddAll(list2), answers2)
    ensures AllTrue(answers1) <==> AllTrue(answers2)
  {
    BatchAccepted(gs1, list1, answers1);
    BatchAccepted(gs2, list2, answers2);
    assert forall n :: n in list1 <==> n in multiset(list1);
    assert forall n :: n in list2 <==> n in multiset(list2);
    assert Pairs(list1) == Pairs(list2);
  }
}
