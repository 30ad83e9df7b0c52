// The sequential bootstrap traverser (bin/bootstrap-traverser.py), a recursion over the action graph
// that makes links in the file system, and its agreement with the parallel one.
module SequentialTraverser {
  import opened ByteOrder
  import opened BootstrapGraph
  import opened BootstrapOps
  import opened BootstrapLedger
  import opened TaskSystem
  import opened ParallelTraverser

  lemma {:induction false} LeastBound(g: Graph, key: Key, n: nat) returns (r: nat)
    requires WellFounded(g, key, n)
    ensures 0 < r <= n && WellFounded(g, key, r) && !WellFounded(g, key, r - 1)
  {
    if WellFounded(g, key, n - 1) {
      r := LeastBound(g, key, n - 1);
    } else {
      r := n;
    }
  }

  lemma {:induction false} NotBelow(g: Graph, key: Key, n: nat, m: nat)
    requires !WellFounded(g, key, n) && m <= n
    ensures !WellFounded(g, key, m)
  {
    if WellFounded(g, key, m) {
      WellFoundedMore(g, key, m, n);
    }
  }

  class Traverser {
    const g: Graph
    var blobs: set<string>
    var dirs: set<Key>              // the directories of actions and trees that exist
    var results: map<Key, Content>  // the contents of those that are complete
    var links: map<Base, Path>
    ghost var begun: set<Key>       // the actions and trees that have been started

    ghost predicate Valid()
      reads this
    {
      && blobs == g.blobs
      && results.Keys <= begun
      && (forall k | k in results :: IsValue(g, k, results[k]))
      && (forall k :: k in dirs <==> k in results || (k in begun && k.ActionKey?))
      && (forall b | b in links && b.ToInput? :: b.key in begun)
    }

    // What is being built at the moment.
    ghost function Open(): set<Key>
      reads this
    {
      begun - results.Keys
    }

    // Nothing being built can be met again below something of the given depth.
    ghost predicate NoneOpenBelow(n: nat)
      reads this
    {
      forall k | k in Open() :: !WellFounded(g, k, n)
    }

    // What is there stays; links are made only for what was started since.
    twostate predicate Extends()
      reads this
    {
      && old(begun) <= begun && Open() == old(Open())
      && (forall k | k in old(results) :: k in results && results[k] == old(results)[k])
      && (forall b | b in old(links) :: b in links && links[b] == old(links)[b])
      && (forall b | b in links && b !in old(links) :: b.ToInput? && b.key !in old(begun))
    }

    constructor (g: Graph)
      ensures this.g == g && blobs == {} && dirs == {} && results == map[] && links == map[] && begun == {}
    {
      this.g := g;
      blobs, dirs, results, links, begun := {}, {}, map[], map[], {};
    }

    method CreateBlobs()
      requires blobs == {} && dirs == {} && results == map[] && links == map[] && begun == {}
      modifies this
      ensures Valid() && links == map[] && begun == {}
    {
      var todo := Sorted(g.blobs);
      for i := 0 to |todo|
        invariant blobs <= g.blobs && forall j | 0 <= j < i :: todo[j] in blobs
        invariant dirs == {} && results == map[] && links == map[] && begun == {}
      {
        blobs := blobs + {todo[i]};
      }
      assert forall b | b in g.blobs :: b in todo;
    }

    // Making a link that is there already would fail; it never happens.
    method Link(path: Path, b: Base)
      requires b !in links
      modifies this`links
      ensures links == old(links)[b := path]
    {
      links := links[b := path];
    }

    // build
    method Build(a: Artifact, ghost n: nat) returns (path: Path)
      requires Valid() && NoneOpenBelow(n) && WellFoundedArtifact(g, a, n)
      modifies this
      ensures Valid() && Extends() && path == PathOf(a)
      ensures KeyOf(a).Some? ==> KeyOf(a).value in results
      decreases n, 3
    {
      match a
      case Tree(id) => path := BuildKey(TreeKey(id), n);
      case Action(id, p) =>
        var dir := BuildKey(ActionKey(id), n);
        path := Sub(dir, p);
      case Known(id) => path := BlobPath(id);
      case Local(repo, p) => path := SourcePath(repo, p);
    }

    // build_tree and run_action
    method BuildKey(key: Key, ghost n: nat) returns (dir: Path)
      requires Valid() && NoneOpenBelow(n) && WellFounded(g, key, n)
      modifies this
      ensures Valid() && Extends() && dir == Dir(key) && key in results
      decreases n, 2
    {
      dir := Dir(key);
      if key in dirs {
        return;
      }
      ghost var r := LeastBound(g, key, n);
      begun := begun + {key};
      if key.ActionKey? {
        dirs := dirs + {key};
      }
      forall k | k in Open() ensures !WellFounded(g, k, r - 1) {
        assert k != key ==> k in old(Open());
        if k != key {
          NotBelow(g, k, n, r - 1);
        }
      }
      LinkInputs(key, r);
      assert Open() == old(Open()) + {key};
      Complete(key);
      assert Open() == old(Open());
    }

    // What the links of an action or tree lead to.
    function Linked(key: Key): map<string, Content>
      reads this
      requires g.Has(key)
    {
      map l | l in g.Inputs(key) && ToInput(key, l) in links :: Deref(blobs, results, links[ToInput(key, l)])
    }

    lemma LinkedIsValue(key: Key)
      requires blobs == g.blobs && forall k | k in results :: IsValue(g, k, results[k])
      requires g.Has(key) && forall l | l in g.Inputs(key) :: InputReady(key, l)
      ensures IsValue(g, key, Built(g, key, Linked(key)))
    {
      hide IsValue, IsArtifactValue, WellFounded, PathOf, Deref, Built;
      var linked := Linked(key);
      forall l | l in linked ensures IsArtifactValue(g, g.Inputs(key)[l], linked[l]) {
        DerefValue(g, results, g.Inputs(key)[l]);
      }
      KeyValueFromInputs(g, key, linked);
    }

    // The command is run, or the tree copied.
    method Complete(key: Key)
      requires Valid() && key in Open() && g.Has(key) && forall l | l in g.Inputs(key) :: InputReady(key, l)
      modifies this`results, this`dirs
      ensures Valid() && key in results && results == old(results)[key := results[key]]
    {
      hide IsValue, IsArtifactValue, WellFounded, WellFoundedArtifact, PathOf, KeyOf, Deref, Built, Sorted,
          Traverser.InputReady, Traverser.Linked;
      LinkedIsValue(key);
      results := results[key := Built(g, key, Linked(key))];
      dirs := dirs + {key};
    }

    ghost predicate InputReady(key: Key, l: string)
      reads this
      requires g.Has(key) && l in g.Inputs(key)
    {
      var a := g.Inputs(key)[l];
      && ToInput(key, l) in links && links[ToInput(key, l)] == PathOf(a)
      && (KeyOf(a).Some? ==> KeyOf(a).value in results)
    }

    // What is there stays; links are made only for the key and for what was started since.
    twostate predicate Fills(key: Key)
      reads this
    {
      && old(begun) <= begun && Open() == old(Open())
      && (forall k | k in old(results) :: k in results && results[k] == old(results)[k])
      && (forall b | b in old(links) :: b in links && links[b] == old(links)[b])
      && (forall b | b in links && b !in old(links) :: b.ToInput? && (b.key == key || b.key !in old(begun)))
    }

    ghost predicate InputLinked(key: Key, l: string)
      reads this
    {
      ToInput(key, l) in links
    }

    ghost predicate NoneOpenBelowInputs(n: nat)
      reads this
    {
      n > 0 && NoneOpenBelow(n - 1)
    }

    method LinkInput(key: Key, l: string, ghost n: nat)
      requires Valid() && key in Open() && NoneOpenBelowInputs(n) && WellFounded(g, key, n) && l in g.Inputs(key)
      requires !InputLinked(key, l)
      modifies this
      ensures Valid() && Fills(key) && InputReady(key, l)
      ensures forall k | k in g.Inputs(key) && old(InputReady(key, k)) :: InputReady(key, k)
      ensures forall k :: InputLinked(key, k) <==> old(InputLinked(key, k)) || k == l
      decreases n, 0
    {
      var path := Build(g.Inputs(key)[l], n - 1);
      Link(path, ToInput(key, l));
    }

    // The loops over the inputs of an action and over the entries of a tree.
    method LinkInputs(key: Key, ghost n: nat)
      requires Valid() && key in Open() && NoneOpenBelowInputs(n) && WellFounded(g, key, n) && forall l ::
            !InputLinked(key, l)
      modifies this
      ensures Valid() && Fills(key)
      ensures forall l | l in g.Inputs(key) :: InputReady(key, l)
      decreases n, 1
    {
      hide IsValue, IsArtifactValue, WellFoundedArtifact, Acyclic, PathOf, KeyOf, Sorted;
      var todo := Sorted(g.Inputs(key).Keys);
      SortedNoRepeats(g.Inputs(key).Keys);
      for i := 0 to |todo|
        invariant Valid()
        invariant Fills(key)
        invariant NoneOpenBelowInputs(n)
        invariant forall j | 0 <= j < i :: InputReady(key, todo[j])
        invariant forall j | i <= j < |todo| :: !InputLinked(key, todo[j])
      {
        LinkInput(key, todo[i], n);
      }
      assert forall l | l in g.Inputs(key) :: l in todo;
    }

    ghost predicate TargetReady(targets: Targets, l: string)
      reads this
      requires l in targets
    {
      && ToOut(l) in links && links[ToOut(l)] == PathOf(targets[l])
      && (KeyOf(targets[l]).Some? ==> KeyOf(targets[l]).value in results)
    }

    ghost predicate Placed(l: string)
      reads this
    {
      ToOut(l) in links
    }

    lemma NonePlaced()
      ensures links == map[] ==> forall l :: !Placed(l)
    {
    }

    method LinkTarget(targets: Targets, l: string, ghost n: nat)
      requires Valid() && Open() == {} && l in targets && WellFoundedArtifact(g, targets[l], n) && !Placed(l)
      modifies this
      ensures Valid() && Open() == {} && TargetReady(targets, l)
      ensures forall k | k in targets && old(TargetReady(targets, k)) :: TargetReady(targets, k)
      ensures forall k :: Placed(k) <==> old(Placed(k)) || k == l
    {
      var path := Build(targets[l], n);
      Link(path, ToOut(l));
    }

    // traverse: each target is linked to what it is worth.
    method Traverse(targets: Targets, ghost n: nat)
      requires Valid() && links == map[] && begun == {}
      requires forall l | l in targets :: WellFoundedArtifact(g, targets[l], n)
      modifies this
      ensures Valid() && IsTraversed(g, targets, blobs, results, links)
    {
      hide IsValue, IsArtifactValue, IsTraversed, WellFounded, WellFoundedArtifact, Acyclic, PathOf, KeyOf, Deref,
          Sorted, Traverser.Placed;
      NonePlaced();
      var todo := Sorted(targets.Keys);
      SortedNoRepeats(targets.Keys);
      for i := 0 to |todo|
        invariant Valid() && Open() == {}
        invariant forall j | 0 <= j < i :: TargetReady(targets, todo[j])
        invariant forall j | i <= j < |todo| :: !Placed(todo[j])
      {
        LinkTarget(targets, todo[i], n);
      }
      assert forall l | l in targets :: l in todo;
      ReadyIsTraversed(targets);
    }

    lemma ReadyIsTraversed(targets: Targets)
      requires Valid() && forall l | l in targets :: TargetReady(targets, l)
      ensures IsTraversed(g, targets, blobs, results, links)
    {
      hide IsValue, IsArtifactValue, WellFounded, Deref, PathOf;
      forall l | l in targets ensures TargetReady(targets, l)
          && IsArtifactValue(g, targets[l], Deref(blobs, results, links[ToOut(l)]))
      {
        DerefValue(g, results, targets[l]);
      }
    }
  }

  // Every target location leads to what its artifact is worth.
  ghost predicate IsTraversed(g: Graph, targets: Targets, blobs: set<string>, results: map<Key, Content>,
                              links: map<Base, Path>)
  {
    forall l | l in targets ::
      && ToOut(l) in links && links[ToOut(l)] == PathOf(targets[l])
      && IsArtifactValue(g, targets[l], Deref(blobs, results, links[ToOut(l)]))
  }

  // What is found at the target locations after traversing.
  function Outcome(targets: Targets, blobs: set<string>, results: map<Key, Content>,
                   links: map<Base, Path>): map<string, (Path, Content)>
  {
    map l | l in targets && ToOut(l) in links :: (links[ToOut(l)], Deref(blobs, results, links[ToOut(l)]))
  }

  // On an acyclic graph, whatever the interleaving of the workers, the parallel traverser leaves at
  // every location the path and the content that the sequential one leaves there.
  lemma TraversersAgree(g: Graph, targets: Targets, ms: seq<Machine>, blobs: set<string>, results: map<Key, Content>,
                        links: map<Base, Path>)
    requires forall l | l in targets :: AcyclicArtifact(g, targets[l])
    requires ClosedFor(g, targets) && IsExecution(g, targets, ms) && !GoesOn(g, targets, ms[|ms| - 1])
    requires IsTraversed(g, targets, blobs, results, links)
    ensures
      var sh := ms[|ms| - 1].shared;
      Outcome(targets, sh.blobs, sh.results, sh.links) == Outcome(targets, blobs, results, links)
    ensures Outcome(targets, blobs, results, links).Keys == targets.Keys
  {
    TraverserIsCorrect(g, targets, ms);
    var sh := ms[|ms| - 1].shared;
    forall l | l in targets
      ensures ToOut(l) in sh.links && sh.links[ToOut(l)] == links[ToOut(l)]
      ensures Deref(sh.blobs, sh.results, sh.links[ToOut(l)]) == Deref(blobs, results, links[ToOut(l)])
    {
      ValueUnique(g, targets[l], Deref(sh.blobs, sh.results, sh.links[ToOut(l)]),
          Deref(blobs, results, links[ToOut(l)]));
    }
  }
}
