// The dependency graph that RepositoryConfig serialises to obtain a repository's cache key
// (src/buildtool/common/repository_config.cpp): repositories are walked depth-first from a root
// along their bindings, one node per representative, numbered in the order they are first met.
// A number is given out before the bindings are followed, so bindings may be cyclic.
module RepositoryGraph {
  import opened Wrappers
  import opened ByteOrder
  import opened Bisimulation
  import opened DfaMinimizer
  import opened Prefixes
  import opened Descriptions

  // The content-fixed repositories: base description and bindings.
  type Repositories = Automaton

  datatype Description = Description(base: BaseDescription, bindings: map<string, nat>)

  type Graph = map<nat, Description>

  // The graph so far, and the repositories numbered so far in order of their numbers.
  datatype Walk = Walk(graph: Graph, order: seq<string>)

  function IndexOf(order: seq<string>, name: string): (i: nat)
    requires name in order
    ensures i < |order| && order[i] == name
  {
    if order[0] == name then 0 else 1 + IndexOf(order[1..], name)
  }

  ghost function Unvisited(sys: Repositories, w: Walk): set<string> {
    set n | n in sys && n !in w.order
  }

  function AddToGraph(sys: Repositories, bis: Representatives, w: Walk, repo: string): (r: Option<(Walk, nat)>)
    ensures r.Some? ==> w.order <= r.value.0.order
    decreases Unvisited(sys, w), 0
  {
    var unique := Representative(bis, repo);
    if unique in w.order then
      Some((w, IndexOf(w.order, unique)))
    else if unique in sys then
      var w1 := w.(order := w.order + [unique]);
      assert unique in Unvisited(sys, w) && unique !in Unvisited(sys, w1);
      var r := AddBindings(sys, bis, w1, sys[unique].next, Sorted(sys[unique].next.Keys));
      if r.None? then None else
        var (w2, bindings) := r.value;
        Some((w2.(graph := w2.graph[|w.order| := Description(sys[unique].content, bindings)]), |w.order|))
    else
      None
  }

  function AddBindings(sys: Repositories, bis: Representatives, w: Walk, next: map<string, string>, labels: seq<string>)
    : (r: Option<(Walk, map<string, nat>)>)
    requires forall l | l in labels :: l in next
    ensures r.Some? ==> w.order <= r.value.0.order
    decreases Unvisited(sys, w), |labels|
  {
    if labels == [] then
      Some((w, map[]))
    else
      var last := |labels| - 1;
      var r := AddBindings(sys, bis, w, next, labels[..last]);
      if r.None? then None else
        var (w1, bindings) := r.value;
        assert Unvisited(sys, w1) <= Unvisited(sys, w);
        var q := AddToGraph(sys, bis, w1, next[labels[last]]);
        if q.None? then None else
          Some((q.value.0, bindings[labels[last] := q.value.1]))
  }

  function BuildGraph(sys: Repositories, bis: Representatives, repo: string): Option<Graph> {
    var r := AddToGraph(sys, bis, Walk(map[], []), repo);
    if r.None? then None else Some(r.value.0.graph)
  }

  // ---- The finished graph unfolds like the repository it was built for. ----

  // Node i describes repository n, with each binding leading to the number of its representative.
  ghost predicate Describes(sys: Repositories, bis: Representatives, w: Walk, i: nat)
    requires i < |w.order|
  {
    var n := w.order[i];
    && n in sys && i in w.graph
    && w.graph[i].base == sys[n].content
    && w.graph[i].bindings.Keys == sys[n].next.Keys
    && forall l | l in sys[n].next ::
         var j := w.graph[i].bindings[l];
         j < |w.order| && w.order[j] == Representative(bis, sys[n].next[l])
  }

  // w' continues w: it keeps w's numbers and nodes, and describes all it has numbered since.
  ghost predicate Continues(sys: Repositories, bis: Representatives, w: Walk, w': Walk) {
    && w.order <= w'.order
    && (forall i | i in w.graph && i < |w.order| :: i in w'.graph && w'.graph[i] == w.graph[i])
    && (forall i: nat | |w.order| <= i < |w'.order| :: Describes(sys, bis, w', i))
  }

  lemma ContinuesTransitive(sys: Repositories, bis: Representatives, w: Walk, w': Walk, w'': Walk)
    requires Continues(sys, bis, w, w') && Continues(sys, bis, w', w'')
    ensures Continues(sys, bis, w, w'')
  {
    forall i: nat | |w.order| <= i < |w''.order| ensures Describes(sys, bis, w'', i) {
      assert i < |w'.order| ==> Describes(sys, bis, w', i);
    }
  }

  // Once the bindings of a freshly numbered repository are known, its node can be added.
  lemma NodeContinues(sys: Repositories, bis: Representatives, w: Walk, unique: string, w2: Walk,
                      bindings: map<string, nat>)
    requires unique in sys && Continues(sys, bis, w.(order := w.order + [unique]), w2)
    requires bindings.Keys == sys[unique].next.Keys
    requires forall l | l in bindings ::
               bindings[l] < |w2.order| && w2.order[bindings[l]] == Representative(bis, sys[unique].next[l])
    ensures Continues(sys, bis, w, w2.(graph := w2.graph[|w.order| := Description(sys[unique].content, bindings)]))
    ensures |w.order| < |w2.order| && w2.order[|w.order|] == unique
  {
    var w1 := w.(order := w.order + [unique]);
    var w3 := w2.(graph := w2.graph[|w.order| := Description(sys[unique].content, bindings)]);
    assert w1.order <= w2.order && w1.order[|w.order|] == unique;
    forall i: nat | |w.order| <= i < |w3.order| ensures Describes(sys, bis, w3, i) {
      if i > |w.order| {
        assert Describes(sys, bis, w2, i);
      }
    }
  }

  // One step of AddToGraph.
  lemma AddToGraphStep(sys: Repositories, bis: Representatives, w: Walk, repo: string)
    ensures
      var unique := Representative(bis, repo);
      AddToGraph(sys, bis, w, repo) ==
        if unique in w.order then Some((w, IndexOf(w.order, unique)))
        else if unique !in sys then None
        else
          var r := AddBindings(sys, bis, w.(order := w.order + [unique]), sys[unique].next,
              Sorted(sys[unique].next.Keys));
          if r.None? then None
          else Some((r.value.0.(graph := r.value.0.graph[|w.order| := Description(sys[unique].content, r.value.1)]),
              |w.order|))
  {
  }

  lemma NumberedIsVisited(sys: Repositories, w: Walk, n: string)
    ensures n in sys && n !in w.order ==> Unvisited(sys, w.(order := w.order + [n])) < Unvisited(sys, w)
  {
    assert n in sys && n !in w.order ==> n in Unvisited(sys, w) && n !in Unvisited(sys, w.(order := w.order + [n]));
  }

  lemma ContinuesItself(sys: Repositories, bis: Representatives, w: Walk)
    ensures Continues(sys, bis, w, w)
  {
  }

  lemma {:induction false} WalkContinues(sys: Repositories, bis: Representatives, w: Walk, repo: string)
    ensures
      var r := AddToGraph(sys, bis, w, repo);
      r.Some? ==> (
        && Continues(sys, bis, w, r.value.0)
        && r.value.1 < |r.value.0.order|
        && r.value.0.order[r.value.1] == Representative(bis, repo))
    decreases Unvisited(sys, w), 0
  {
    hide Continues, AddToGraph, AddBindings, Unvisited;
    var unique := Representative(bis, repo);
    ContinuesItself(sys, bis, w);
    AddToGraphStep(sys, bis, w, repo);
    NumberedIsVisited(sys, w, unique);
    if unique !in w.order && unique in sys {
      var w1 := w.(order := w.order + [unique]);
      var labels := Sorted(sys[unique].next.Keys);
      BindingsContinue(sys, bis, w1, sys[unique].next, labels);
      var r := AddBindings(sys, bis, w1, sys[unique].next, labels);
      if r.Some? {
        NodeContinues(sys, bis, w, unique, r.value.0, r.value.1);
      }
    }
  }

  lemma {:induction false} BindingsContinue(sys: Repositories, bis: Representatives, w: Walk,
                                            next: map<string, string>, labels: seq<string>)
    requires forall l | l in labels :: l in next
    ensures
      var r := AddBindings(sys, bis, w, next, labels);
      r.Some? ==> (
        && Continues(sys, bis, w, r.value.0)
        && (forall l :: l in r.value.1 <==> l in labels)
        && forall l | l in labels ::
             r.value.1[l] < |r.value.0.order| && r.value.0.order[r.value.1[l]] == Representative(bis, next[l]))
    decreases Unvisited(sys, w), |labels|
  {
    if labels != [] {
      var last := |labels| - 1;
      PrefixStep(labels, last);
      PrefixAll(labels);
      BindingsContinue(sys, bis, w, next, labels[..last]);
      var r := AddBindings(sys, bis, w, next, labels[..last]);
      if r.Some? {
        var w1 := r.value.0;
        assert Unvisited(sys, w1) <= Unvisited(sys, w);
        WalkContinues(sys, bis, w1, next[labels[last]]);
        var q := AddToGraph(sys, bis, w1, next[labels[last]]);
        if q.Some? {
          ContinuesTransitive(sys, bis, w, w1, q.value.0);
        }
      }
    }
  }

  // The graph as a system of numbered states.
  function AsSystem(g: Graph): System<BaseDescription, string, nat> {
    map i | i in g :: State(g[i].base, g[i].bindings)
  }

  lemma {:induction false} DescribedSim(k: nat, sys: Repositories, bis: Representatives, w: Walk, n: string, i: nat)
    requires IsQuotient(sys, bis)
    requires forall j: nat | j < |w.order| :: Describes(sys, bis, w, j)
    requires i < |w.order| && w.order[i] == Representative(bis, n)
    ensures Sim(k, sys, n, AsSystem(w.graph), i)
  {
    var g, u := AsSystem(w.graph), w.order[i];
    if k > 0 {
      assert Describes(sys, bis, w, i);
      forall l | l in sys[u].next ensures Sim(k - 1, sys, sys[u].next[l], g, g[i].next[l]) {
        DescribedSim(k - 1, sys, bis, w, sys[u].next[l], g[i].next[l]);
      }
      assert Sim(k, sys, u, g, i);
      assert Indistinguishable(sys, n, u);
      SameSim(k, sys, n, u, g, i);
    }
  }

  lemma GraphIsBisimilar(sys: Repositories, bis: Representatives, repo: string)
    requires IsQuotient(sys, bis) && BuildGraph(sys, bis, repo).Some?
    ensures Bisimilar(sys, repo, AsSystem(BuildGraph(sys, bis, repo).value), 0)
  {
    WalkContinues(sys, bis, Walk(map[], []), repo);
    var (w, i) := AddToGraph(sys, bis, Walk(map[], []), repo).value;
    forall k: nat ensures Sim(k, sys, repo, AsSystem(w.graph), 0) {
      DescribedSim(k, sys, bis, w, repo, 0);
    }
  }

  // ---- Bisimilar repositories are walked in lockstep. ----

  // Both walks have built the same graph, numbering bisimilar representatives alike.
  ghost predicate InStep(A: Repositories, bisA: Representatives, v: Walk, B: Repositories, bisB: Representatives,
                         w: Walk)
  {
    && v.graph == w.graph
    && |v.order| == |w.order|
    && (forall n | n in v.order :: Representative(bisA, n) == n)
    && (forall n | n in w.order :: Representative(bisB, n) == n)
    && (forall i, j | 0 <= i < j < |v.order| :: v.order[i] != v.order[j])
    && (forall i, j | 0 <= i < j < |w.order| :: w.order[i] != w.order[j])
    && (forall i | 0 <= i < |v.order| :: Bisimilar(A, v.order[i], B, w.order[i]))
  }

  lemma RepresentativesBisimilar(A: Repositories, bisA: Representatives, a: string, B: Repositories,
                                 bisB: Representatives, b: string)
    requires IsQuotient(A, bisA) && IsQuotient(B, bisB) && Bisimilar(A, a, B, b)
    ensures Bisimilar(A, Representative(bisA, a), B, Representative(bisB, b))
    ensures Representative(bisA, Representative(bisA, a)) == Representative(bisA, a)
    ensures Representative(bisB, Representative(bisB, b)) == Representative(bisB, b)
  {
    var a', b' := Representative(bisA, a), Representative(bisB, b);
    IndistinguishableEquivalence(A, a, a');
    IndistinguishableEquivalence(B, b, b');
    IndistinguishableBisimilar(A, a', a, B, b);
    BisimilarSymmetric(A, a', B, b);
    IndistinguishableBisimilar(B, b', b, A, a');
    BisimilarSymmetric(B, b', A, a');
  }

  // Of two representatives of one class there is only one.
  lemma SameRepresentative(A: Repositories, bis: Representatives, n: string, n': string, B: Repositories, m: string)
    requires IsQuotient(A, bis) && Representative(bis, n) == n && Representative(bis, n') == n'
    requires Bisimilar(A, n, B, m) && Bisimilar(A, n', B, m)
    ensures n == n'
  {
    BisimilarSame(A, n, n', B, m);
  }

  // The representatives of bisimilar repositories have the same number, if any.
  lemma InStepIndex(A: Repositories, bisA: Representatives, v: Walk, a: string, B: Repositories,
                    bisB: Representatives, w: Walk, b: string)
    requires IsQuotient(A, bisA) && IsQuotient(B, bisB) && InStep(A, bisA, v, B, bisB, w)
    requires Representative(bisA, a) == a && Representative(bisB, b) == b && Bisimilar(A, a, B, b)
    ensures a in v.order <==> b in w.order
    ensures a in v.order ==> IndexOf(v.order, a) == IndexOf(w.order, b)
  {
    BisimilarSymmetric(A, a, B, b);
    if a in v.order {
      var i := IndexOf(v.order, a);
      BisimilarSymmetric(A, a, B, w.order[i]);
      SameRepresentative(B, bisB, b, w.order[i], A, a);
    }
    if b in w.order {
      var i := IndexOf(w.order, b);
      SameRepresentative(A, bisA, a, v.order[i], B, b);
    }
  }

  lemma InStepPush(A: Repositories, bisA: Representatives, v: Walk, a: string, B: Repositories, bisB: Representatives,
                   w: Walk, b: string)
    requires InStep(A, bisA, v, B, bisB, w) && a !in v.order && b !in w.order
    requires Representative(bisA, a) == a && Representative(bisB, b) == b && Bisimilar(A, a, B, b)
    ensures InStep(A, bisA, v.(order := v.order + [a]), B, bisB, w.(order := w.order + [b]))
  {
  }

  lemma SizesInStep(A: Repositories, bisA: Representatives, v: Walk, B: Repositories, bisB: Representatives, w: Walk)
    requires InStep(A, bisA, v, B, bisB, w)
    ensures |v.order| == |w.order|
  {
  }

  lemma InStepNode(A: Repositories, bisA: Representatives, v: Walk, B: Repositories, bisB: Representatives, w: Walk,
                   i: nat, node: Description)
    requires InStep(A, bisA, v, B, bisB, w)
    ensures InStep(A, bisA, v.(graph := v.graph[i := node]), B, bisB, w.(graph := w.graph[i := node]))
  {
  }

  lemma {:induction false} Lockstep(A: Repositories, bisA: Representatives, v: Walk, a: string,
                                    B: Repositories, bisB: Representatives, w: Walk, b: string)
    requires IsQuotient(A, bisA) && IsQuotient(B, bisB) && InStep(A, bisA, v, B, bisB, w)
    requires Bisimilar(A, a, B, b)
    ensures
      var r, q := AddToGraph(A, bisA, v, a), AddToGraph(B, bisB, w, b);
      r.Some? && q.Some? && r.value.1 == q.value.1 && InStep(A, bisA, r.value.0, B, bisB, q.value.0)
    decreases Unvisited(A, v), 0
  {
    hide AddToGraph, AddBindings, InStep, Unvisited, Bisimilar, IsQuotient;
    NumberedIsVisited(A, v, Representative(bisA, a));
    AddToGraphStep(A, bisA, v, a);
    AddToGraphStep(B, bisB, w, b);
    RepresentativesBisimilar(A, bisA, a, B, bisB, b);
    var a', b' := Representative(bisA, a), Representative(bisB, b);
    InStepIndex(A, bisA, v, a', B, bisB, w, b');
    if a' !in v.order {
      BisimilarStep(A, a', B, b');
      var v1, w1 := v.(order := v.order + [a']), w.(order := w.order + [b']);
      InStepPush(A, bisA, v, a', B, bisB, w, b');
      var labels := Sorted(A[a'].next.Keys);
      LockstepBindings(A, bisA, v1, A[a'].next, B, bisB, w1, B[b'].next, labels);
      var (v2, bindings) := AddBindings(A, bisA, v1, A[a'].next, labels).value;
      var (w2, _) := AddBindings(B, bisB, w1, B[b'].next, labels).value;
      SizesInStep(A, bisA, v, B, bisB, w);
      InStepNode(A, bisA, v2, B, bisB, w2, |v.order|, Description(A[a'].content, bindings));
    } else {
      SizesInStep(A, bisA, v, B, bisB, w);
    }
  }

  lemma {:induction false} LockstepBindings(A: Repositories, bisA: Representatives, v: Walk,
                                            next: map<string, string>, B: Repositories, bisB: Representatives,
                                            w: Walk, next': map<string, string>, labels: seq<string>)
    requires IsQuotient(A, bisA) && IsQuotient(B, bisB) && InStep(A, bisA, v, B, bisB, w)
    requires forall l | l in labels :: l in next && l in next' && Bisimilar(A, next[l], B, next'[l])
    ensures
      var r, q := AddBindings(A, bisA, v, next, labels), AddBindings(B, bisB, w, next', labels);
      r.Some? && q.Some? && r.value.1 == q.value.1 && InStep(A, bisA, r.value.0, B, bisB, q.value.0)
    decreases Unvisited(A, v), |labels|
  {
    if labels != [] {
      var last := |labels| - 1;
      LockstepBindings(A, bisA, v, next, B, bisB, w, next', labels[..last]);
      var v1 := AddBindings(A, bisA, v, next, labels[..last]).value.0;
      var w1 := AddBindings(B, bisB, w, next', labels[..last]).value.0;
      assert Unvisited(A, v1) <= Unvisited(A, v);
      Lockstep(A, bisA, v1, next[labels[last]], B, bisB, w1, next'[labels[last]]);
    }
  }

  // The graph is canonical: two repositories, of any two configurations, have equal graphs exactly
  // if they are bisimilar, whichever representatives were picked on either side.
  lemma GraphIsCanonical(A: Repositories, bisA: Representatives, a: string, B: Repositories, bisB: Representatives,
                         b: string)
    requires IsQuotient(A, bisA) && IsQuotient(B, bisB)
    ensures BuildGraph(A, bisA, a).Some? && BuildGraph(A, bisA, a) == BuildGraph(B, bisB, b) <==> Bisimilar(A, a, B, b)
  {
    if Bisimilar(A, a, B, b) {
      Lockstep(A, bisA, Walk(map[], []), a, B, bisB, Walk(map[], []), b);
    }
    if BuildGraph(A, bisA, a).Some? && BuildGraph(A, bisA, a) == BuildGraph(B, bisB, b) {
      var g := AsSystem(BuildGraph(A, bisA, a).value);
      GraphIsBisimilar(A, bisA, a);
      GraphIsBisimilar(B, bisB, b);
      BisimilarSymmetric(B, b, g, 0);
      BisimilarTransitive(A, a, g, 0, B, b);
    }
  }

  // Everything reachable from the repository is content-fixed.
  ghost predicate ContentFixed(sys: Repositories, repo: string) {
    forall k: nat :: Complete(k, sys, repo)
  }

  // There is a graph exactly for the repositories whose closure is content-fixed, and it does not
  // depend on the representatives.
  lemma GraphExistsIffContentFixed(sys: Repositories, bis: Representatives, bis': Representatives, repo: string)
    requires IsQuotient(sys, bis) && IsQuotient(sys, bis')
    ensures BuildGraph(sys, bis, repo).Some? <==> ContentFixed(sys, repo)
    ensures BuildGraph(sys, bis, repo) == BuildGraph(sys, bis', repo)
  {
    forall k: nat ensures Complete(k, sys, repo) <==> Sim(k, sys, repo, sys, repo) {
      CompleteSim(k, sys, repo);
    }
    assert ContentFixed(sys, repo) <==> Bisimilar(sys, repo, sys, repo) by {
      if ContentFixed(sys, repo) {
        forall k: nat ensures Sim(k, sys, repo, sys, repo) {
          assert Complete(k, sys, repo);
        }
      }
      if Bisimilar(sys, repo, sys, repo) {
        forall k: nat ensures Complete(k, sys, repo) {
          assert Sim(k, sys, repo, sys, repo);
        }
      }
    }
    GraphIsCanonical(sys, bis, repo, sys, bis, repo);
    GraphIsCanonical(sys, bis', repo, sys, bis', repo);
    GraphIsCanonical(sys, bis, repo, sys, bis', repo);
  }
}
