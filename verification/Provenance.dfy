/** Where the dependencies in the graph and their data come from: at any time the graph holds exactly
    what the accepted requests put there and no destruction took away since (src/lib.rs). */
module Provenance {
  import opened Reachability
  import opened GraphModel
  import opened LockTracking
  import opened LockWrapper
  import opened LockStacks
  import opened Protocol
  import opened ProtocolInvariant
  import opened Enabled

  ghost predicate HasData(s: System, u: Id, v: Id, dep: Dep) {
    (u, v) in EdgeMap(s.graph.nodes) && EdgeMap(s.graph.nodes)[(u, v)] == dep
  }

  /** `a` asks for `v` while its thread's newest lock is `u`; the dependency is new and closes no cycle. */
  ghost predicate Introduces(s: System, a: Action, u: Id, v: Id, dep: Dep) {
    && a.Request? && a.id == v && a.dep == dep && IsTop(s.Stack(a.t), u)
    && (u, v) !in Edges(s.graph.nodes) && !Reaches(Edges(s.graph.nodes), v, u)
  }

  lemma StepChangesData(s: System, a: Action, s': System, u: Id, v: Id, dep: Dep)
    requires Valid(s.graph) && Step(s, a, s')
    ensures HasData(s', u, v, dep) <==>
            (HasData(s, u, v, dep) && a != Destroy(u) && a != Destroy(v)) || Introduces(s, a, u, v, dep)
  {
    match a
    case Request(t, id, mode, blocking, d) =>
      RequestIsRejectedExactly(s, t, id, mode, blocking, d, s');
      RequestChangesData(s, t, id, d, s', u, v, dep);
    case Destroy(id) => WithoutNodeEdges(s.graph, id);
    case _ =>
  }

  lemma RequestChangesData(s: System, t: Tid, id: Id, d: Dep, s': System, u: Id, v: Id, dep: Dep)
    requires Valid(s.graph)
    requires var st := s.Stack(t);
             if st != [] && Reaches(Edges(s.graph.nodes), id, st[|st| - 1]) then s' == s
             else MarkHeldStep(s.graph, st, id, d, true, s'.graph, st + [id])
    ensures HasData(s', u, v, dep) <==>
            HasData(s, u, v, dep) ||
            (id == v && d == dep && IsTop(s.Stack(t), u) &&
             (u, v) !in Edges(s.graph.nodes) && !Reaches(Edges(s.graph.nodes), v, u))
  {
    var st := s.Stack(t);
    hide Valid, Reaches, MarkHeldStep;
    if st == [] || !Reaches(Edges(s.graph.nodes), id, st[|st| - 1]) {
      MarkHeldLabels(s.graph, st, id, d, s'.graph, st + [id]);
    }
  }

  /** Action `k` of the run put the dependency there, and neither lock was destroyed since. */
  ghost predicate PutBy(acts: seq<Action>, k: nat, u: Id, v: Id, dep: Dep) {
    && k < |acts|
    && (exists m :: LeadsTo(Free, Initial(), acts[..k], m) && Introduces(m, acts[k], u, v, dep))
    && Destroy(u) !in acts[k + 1..] && Destroy(v) !in acts[k + 1..]
  }

  /** In every run: a dependency is in the graph, with some data, exactly when some request put it there
      with that data, its thread's newest lock being the tail, and neither lock was destroyed since. */
  lemma {:induction false} DependenciesExactly(acts: seq<Action>, s: System, u: Id, v: Id, dep: Dep)
    requires LeadsTo(Free, Initial(), acts, s)
    ensures HasData(s, u, v, dep) <==> exists k :: PutBy(acts, k, u, v, dep)
    decreases |acts|
  {
    hide Step, HasData, Introduces, Tracked;
    if acts == [] {
      NothingAtFirst(u, v, dep);
    } else {
      var n := |acts| - 1;
      var m := LastStep(Free, Initial(), acts, s);
      InitialIsTracked();
      RunsKeepTracked(Initial(), acts[..n], m);
      TrackedIsValid(m);
      DependenciesExactly(acts[..n], m, u, v, dep);
      StepChangesData(m, acts[n], s, u, v, dep);
      hide LeadsTo, PutBy;
      if k :| PutBy(acts, k, u, v, dep) {
        PutBefore(acts, k, m, u, v, dep);
      }
      if k :| PutBy(acts[..n], k, u, v, dep) && acts[n] != Destroy(u) && acts[n] != Destroy(v) {
        PutStays(acts, k, u, v, dep);
      }
      if Introduces(m, acts[n], u, v, dep) {
        PutLast(acts, m, u, v, dep);
      }
    }
  }

  lemma NothingAtFirst(u: Id, v: Id, dep: Dep)
    ensures !HasData(Initial(), u, v, dep)
  {
  }

  lemma PutBefore(acts: seq<Action>, k: nat, m: System, u: Id, v: Id, dep: Dep)
    requires PutBy(acts, k, u, v, dep) && LeadsTo(Free, Initial(), acts[..|acts| - 1], m)
    ensures if k == |acts| - 1 then Introduces(m, acts[k], u, v, dep)
            else PutBy(acts[..|acts| - 1], k, u, v, dep) && acts[|acts| - 1] != Destroy(u) && acts[|acts| - 1] != Destroy(v)
  {
    hide LeadsTo, Introduces, Step, Tracked;
    var n := |acts| - 1;
    var at :| LeadsTo(Free, Initial(), acts[..k], at) && Introduces(at, acts[k], u, v, dep);
    if k == n {
      InitialIsTracked();
      RunIsDeterministic(Initial(), acts[..n], at, m);
    } else {
      assert acts[..n][..k] == acts[..k];
      assert acts[k + 1..] == acts[..n][k + 1..] + [acts[n]];
    }
  }

  lemma PutStays(acts: seq<Action>, k: nat, u: Id, v: Id, dep: Dep)
    requires acts != [] && PutBy(acts[..|acts| - 1], k, u, v, dep)
    requires acts[|acts| - 1] != Destroy(u) && acts[|acts| - 1] != Destroy(v)
    ensures PutBy(acts, k, u, v, dep)
  {
    hide LeadsTo, Introduces;
    var n := |acts| - 1;
    assert acts[..n][..k] == acts[..k];
    assert acts[k + 1..] == acts[..n][k + 1..] + [acts[n]];
  }

  lemma PutLast(acts: seq<Action>, m: System, u: Id, v: Id, dep: Dep)
    requires acts != [] && LeadsTo(Free, Initial(), acts[..|acts| - 1], m)
    requires Introduces(m, acts[|acts| - 1], u, v, dep)
    ensures PutBy(acts, |acts| - 1, u, v, dep)
  {
    hide LeadsTo, Introduces;
  }
}
