// The critical path of an invocation (doc/invocations-http-server/server.py:595-633): a memoised
// recursion over the action graph.
module CriticalPath {

  datatype Node = Action(id: string) | Tree(id: string) | TreeOverlay(id: string) | Other(kind: string, id: string)

  // The inputs and entries, in order; durations are those of the profile.
  datatype Graph = Graph(
    actions: map<string, seq<Node>>, trees: map<string, seq<Node>>, overlays: map<string, seq<Node>>,
    durations: map<string, real>)
  {
    function Get(m: map<string, seq<Node>>, id: string): seq<Node> {
      if id in m then m[id] else []
    }

    function Inputs(node: Node): seq<Node> {
      match node
      case Action(id) => Get(actions, id)
      case Tree(id) => Get(trees, id)
      case TreeOverlay(id) => Get(overlays, id)
      case Other(_, _) => []
    }

    function Duration(node: Node): real {
      if node.Action? && node.id in durations then durations[node.id] else 0.0
    }
  }

  // Nothing depends on itself: rank decreases towards the inputs.
  ghost predicate Acyclic(g: Graph, rank: Node -> nat) {
    forall n, m | m in g.Inputs(n) :: rank(m) < rank(n)
  }

  ghost predicate NonNegative(g: Graph) {
    forall id | id in g.durations :: g.durations[id] >= 0.0
  }

  // ---- Dependency chains ----

  // m is an input of the action n, or an entry of the tree or overlay n.
  ghost predicate IsNeededFor(g: Graph, m: Node, n: Node) {
    match n
    case Action(id) => id in g.actions && m in g.actions[id]
    case Tree(id) => id in g.trees && m in g.trees[id]
    case TreeOverlay(id) => id in g.overlays && m in g.overlays[id]
    case Other(_, _) => false
  }

  // Each node is an input of the next; artifacts that need no work do not count.
  ghost predicate IsChain(g: Graph, p: seq<Node>) {
    && (forall k | 0 <= k < |p| :: !p[k].Other?)
    && (forall k | 0 <= k < |p| - 1 :: IsNeededFor(g, p[k], p[k + 1]))
  }

  ghost predicate IsChainTo(g: Graph, p: seq<Node>, n: Node) {
    IsChain(g, p) && p != [] && p[|p| - 1] == n
  }

  // The sum of the durations of the actions that have one.
  ghost function Cost(g: Graph, p: seq<Node>): real {
    if p == [] then 0.0
    else
      match p[|p| - 1]
      case Action(id) => Cost(g, p[..|p| - 1]) + (if id in g.durations then g.durations[id] else 0.0)
      case _ => Cost(g, p[..|p| - 1])
  }

  // No chain to n takes longer.
  ghost predicate IsBound(g: Graph, n: Node, duration: real) {
    duration >= 0.0 && forall p | IsChainTo(g, p, n) :: Cost(g, p) <= duration
  }

  // path is a chain to n that takes the duration, and no chain to n takes longer.
  ghost predicate IsCritical(g: Graph, n: Node, path: seq<Node>, duration: real) {
    && IsBound(g, n, duration) && Cost(g, path) == duration
    && (if n.Other? then path == [] else IsChainTo(g, path, n))
  }

  // path leads to one of the first i nodes and takes the duration, which none of them exceeds.
  ghost predicate IsMaximum(g: Graph, nodes: seq<Node>, i: nat, path: seq<Node>, duration: real) {
    && i <= |nodes| && duration >= 0.0 && Cost(g, path) == duration
    && (path == [] || exists j :: 0 <= j < i && IsChainTo(g, path, nodes[j]))
    && (forall j | 0 <= j < i :: IsBound(g, nodes[j], duration))
  }

  lemma MaximumStep(g: Graph, nodes: seq<Node>, i: nat, path: seq<Node>, duration: real, path': seq<Node>,
                    duration': real)
    requires IsMaximum(g, nodes, i, path, duration) && i < |nodes| && IsCritical(g, nodes[i], path', duration')
    ensures if duration' > duration then IsMaximum(g, nodes, i + 1, path', duration')
        else IsMaximum(g, nodes, i + 1, path, duration)
  {
    if duration' > duration {
      assert path' == [] || IsChainTo(g, path', nodes[i]);
    } else if path != [] {
      var j :| 0 <= j < i && IsChainTo(g, path, nodes[j]);
    }
  }

  // A chain to n is n alone, or a chain to one of the inputs, and n.
  lemma LastStep(g: Graph, p: seq<Node>, n: Node)
    requires IsChainTo(g, p, n)
    ensures !n.Other? && Cost(g, p) == Cost(g, p[..|p| - 1]) + g.Duration(n)
    ensures |p| > 1 ==> p[|p| - 2] in g.Inputs(n) && IsChainTo(g, p[..|p| - 1], p[|p| - 2])
  {
    var q := p[..|p| - 1];
    forall k | 0 <= k < |q| - 1 ensures q[k] in g.Inputs(q[k + 1]) {
      assert p[k] in g.Inputs(p[k + 1]);
    }
  }

  lemma LongestByInputs(g: Graph, n: Node, path: seq<Node>, duration: real)
    requires !n.Other? && NonNegative(g) && IsMaximum(g, g.Inputs(n), |g.Inputs(n)|, path, duration)
    ensures IsCritical(g, n, path + [n], duration + g.Duration(n))
  {
    var inputs := g.Inputs(n);
    var p := path + [n];
    assert p[..|p| - 1] == path;
    if path != [] {
      var j :| 0 <= j < |inputs| && IsChainTo(g, path, inputs[j]);
      forall k | 0 <= k < |p| - 1 ensures p[k] in g.Inputs(p[k + 1]) {
        assert k + 1 < |path| ==> path[k] in g.Inputs(path[k + 1]);
      }
    }
    forall q | IsChainTo(g, q, n) ensures Cost(g, q) <= duration + g.Duration(n) {
      LastStep(g, q, n);
      if |q| > 1 {
        var j :| 0 <= j < |inputs| && inputs[j] == q[|q| - 2];
        assert IsBound(g, inputs[j], duration);
      } else {
        assert q[..|q| - 1] == [];
      }
    }
  }

  class Profiler {
    const g: Graph
    ghost const rank: Node -> nat
    var cache: map<Node, (seq<Node>, real)>

    ghost predicate Valid()
      reads this
    {
      && Acyclic(g, rank) && NonNegative(g)
      && forall n | n in cache :: IsCritical(g, n, cache[n].0, cache[n].1)
    }

    constructor (g: Graph, ghost rank: Node -> nat)
      requires Acyclic(g, rank) && NonNegative(g)
      ensures Valid() && this.g == g
    {
      this.g, this.rank, cache := g, rank, map[];
    }

    // critical_path
    method CriticalPath(node: Node) returns (path: seq<Node>, duration: real)
      requires Valid()
      modifies this`cache
      ensures Valid() && IsCritical(g, node, path, duration)
      decreases rank(node)
    {
      if node in cache {
        return cache[node].0, cache[node].1;
      }
      if node.Other? {
        path, duration := [], 0.0;
      } else {
        var inputs := g.Inputs(node);
        var maxPath, maxDuration := [], 0.0;
        for i := 0 to |inputs|
          invariant Valid() && IsMaximum(g, inputs, i, maxPath, maxDuration)
        {
          assert inputs[i] in inputs;
          var inputPath, inputDuration := CriticalPath(inputs[i]);
          MaximumStep(g, inputs, i, maxPath, maxDuration, inputPath, inputDuration);
          if inputDuration > maxDuration {
            maxPath, maxDuration := inputPath, inputDuration;
          }
        }
        LongestByInputs(g, node, maxPath, maxDuration);
        path, duration := maxPath + [node], maxDuration + g.Duration(node);
      }
      cache := cache[node := (path, duration)];
    }

    // The loop over artifacts_to_build: the longest chain to any of the artifacts.
    method CriticalArtifact(artifacts: seq<Node>) returns (maxPath: seq<Node>, maxDuration: real)
      requires Valid()
      modifies this`cache
      ensures Valid() && IsMaximum(g, artifacts, |artifacts|, maxPath, maxDuration)
    {
      maxPath, maxDuration := [], 0.0;
      for i := 0 to |artifacts|
        invariant Valid() && IsMaximum(g, artifacts, i, maxPath, maxDuration)
      {
        var path, duration := CriticalPath(artifacts[i]);
        MaximumStep(g, artifacts, i, maxPath, maxDuration, path, duration);
        if duration > maxDuration {
          maxPath, maxDuration := path, duration;
        }
      }
    }
  }
}
