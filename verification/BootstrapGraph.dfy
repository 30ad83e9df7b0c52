// The action graph that the bootstrap traversers build (bin/bootstrap-traverser.py,
// bin/parallel-bootstrap-traverser.py), and what its artifacts are worth: the meaning of a build,
// independent of any order of execution.
module BootstrapGraph {
  import opened Wrappers

  datatype Artifact =
    | Known(id: string)
    | Local(repo: string, path: string)
    | Action(id: string, path: string)
    | Tree(id: string)

  datatype Key = ActionKey(id: string) | TreeKey(id: string)

  datatype ActionDesc = ActionDesc(input: map<string, Artifact>, command: string)

  datatype Graph =
    | Graph(blobs: set<string>, actions: map<string, ActionDesc>, trees: map<string, map<string, Artifact>>)
  {
    predicate Has(key: Key) {
      if key.ActionKey? then key.id in actions else key.id in trees
    }

    // The entries of a tree, or the inputs of an action.
    function Inputs(key: Key): map<string, Artifact>
      requires Has(key)
    {
      if key.ActionKey? then actions[key.id].input else trees[key.id]
    }
  }

  function KeyOf(a: Artifact): Option<Key> {
    match a
    case Action(id, _) => Some(ActionKey(id))
    case Tree(id) => Some(TreeKey(id))
    case _ => None
  }

  // Every action and tree that is referred to is described.
  ghost predicate Closed(g: Graph) {
    forall k, l | g.Has(k) && l in g.Inputs(k) :: KeyOf(g.Inputs(k)[l]).Some? ==> g.Has(KeyOf(g.Inputs(k)[l]).value)
  }

  // ---- Places in the file system ----

  datatype Path =
    | BlobPath(id: string)
    | SourcePath(repo: string, path: string)
    | Dir(key: Key)
    | Sub(dir: Path, path: string)

  function PathOf(a: Artifact): Path {
    match a
    case Known(id) => BlobPath(id)
    case Local(repo, path) => SourcePath(repo, path)
    case Action(id, path) => Sub(Dir(ActionKey(id)), path)
    case Tree(id) => Dir(TreeKey(id))
  }

  // What is found there. Commands are deterministic: the directory of an action is determined by
  // the command and by what its inputs link to.
  datatype Content =
    | Missing
    | Blob(id: string)
    | Source(repo: string, path: string)
    | Ran(command: string, inputs: map<string, Content>)
    | Directory(entries: map<string, Content>)
    | OutputOf(dir: Content, path: string)

  function Built(g: Graph, key: Key, inputs: map<string, Content>): Content
    requires g.Has(key)
  {
    if key.ActionKey? then Ran(g.actions[key.id].command, inputs) else Directory(inputs)
  }

  function Deref(blobs: set<string>, results: map<Key, Content>, p: Path): Content {
    match p
    case BlobPath(id) => if id in blobs then Blob(id) else Missing
    case SourcePath(repo, path) => Source(repo, path)
    case Dir(key) => if key in results then results[key] else Missing
    case Sub(dir, path) => OutputOf(Deref(blobs, results, dir), path)
  }

  // ---- Meaning ----

  // All chains of dependencies below the key have less than n links.
  ghost predicate WellFounded(g: Graph, key: Key, n: nat)
    decreases n, 0
  {
    n > 0 && g.Has(key) && forall l | l in g.Inputs(key) :: WellFoundedArtifact(g, g.Inputs(key)[l], n - 1)
  }

  ghost predicate WellFoundedArtifact(g: Graph, a: Artifact, n: nat)
    decreases n, 1
  {
    KeyOf(a).Some? ==> WellFounded(g, KeyOf(a).value, n)
  }

  lemma {:induction false} WellFoundedMore(g: Graph, key: Key, n: nat, m: nat)
    requires WellFounded(g, key, n) && n <= m
    ensures WellFounded(g, key, m)
    decreases n
  {
    forall l | l in g.Inputs(key) ensures WellFoundedArtifact(g, g.Inputs(key)[l], m - 1) {
      if KeyOf(g.Inputs(key)[l]).Some? {
        assert WellFoundedArtifact(g, g.Inputs(key)[l], n - 1);
        WellFoundedMore(g, KeyOf(g.Inputs(key)[l]).value, n - 1, m - 1);
      }
    }
  }

  // The key does not depend on itself, directly or not.
  ghost predicate Acyclic(g: Graph, key: Key) {
    exists n: nat :: WellFounded(g, key, n)
  }

  ghost predicate AcyclicArtifact(g: Graph, a: Artifact) {
    KeyOf(a).Some? ==> Acyclic(g, KeyOf(a).value)
  }

  // c is what the action or tree is worth: an action has run its command in a directory that has its
  // inputs, each at its location, and a tree is a directory that has its entries.
  ghost predicate IsValue(g: Graph, key: Key, c: Content)
    decreases c, 0
  {
    match key
    case ActionKey(id) =>
      && id in g.actions && c.Ran? && c.command == g.actions[id].command
      && c.inputs.Keys == g.actions[id].input.Keys
      && forall l | l in c.inputs :: IsArtifactValue(g, g.actions[id].input[l], c.inputs[l])
    case TreeKey(id) =>
      && id in g.trees && c.Directory? && c.entries.Keys == g.trees[id].Keys
      && forall l | l in c.entries :: IsArtifactValue(g, g.trees[id][l], c.entries[l])
  }

  // c is what the artifact is worth: a blob or a source file, an output of the action, or the tree.
  ghost predicate IsArtifactValue(g: Graph, a: Artifact, c: Content)
    decreases c, 1
  {
    match a
    case Known(id) => c == if id in g.blobs then Blob(id) else Missing
    case Local(repo, path) => c == Source(repo, path)
    case Action(id, path) => c.OutputOf? && c.path == path && IsValue(g, ActionKey(id), c.dir)
    case Tree(id) => IsValue(g, TreeKey(id), c)
  }

  lemma {:induction false} KeyValueUnique(g: Graph, key: Key, c: Content, d: Content)
    requires IsValue(g, key, c) && IsValue(g, key, d)
    ensures c == d
    decreases c, 0
  {
    if key.ActionKey? {
      forall l | l in c.inputs ensures c.inputs[l] == d.inputs[l] {
        ValueUnique(g, g.actions[key.id].input[l], c.inputs[l], d.inputs[l]);
      }
      assert c.inputs == d.inputs;
    } else {
      forall l | l in c.entries ensures c.entries[l] == d.entries[l] {
        ValueUnique(g, g.trees[key.id][l], c.entries[l], d.entries[l]);
      }
      assert c.entries == d.entries;
    }
  }

  // An artifact has one value at most.
  lemma {:induction false} ValueUnique(g: Graph, a: Artifact, c: Content, d: Content)
    requires IsArtifactValue(g, a, c) && IsArtifactValue(g, a, d)
    ensures c == d
    decreases c, 1
  {
    match a
    case Action(id, _) => KeyValueUnique(g, ActionKey(id), c.dir, d.dir);
    case Tree(id) => KeyValueUnique(g, TreeKey(id), c, d);
    case _ =>
  }

  // The path of an artifact that is complete leads to its value.
  lemma DerefValue(g: Graph, results: map<Key, Content>, a: Artifact)
    requires KeyOf(a).Some? ==> KeyOf(a).value in results && IsValue(g, KeyOf(a).value, results[KeyOf(a).value])
    ensures IsArtifactValue(g, a, Deref(g.blobs, results, PathOf(a)))
  {
    assert a.Action? ==> Deref(g.blobs, results, PathOf(a)) == OutputOf(results[ActionKey(a.id)], a.path);
  }

  // From the values of all inputs, the value of the key.
  lemma KeyValueFromInputs(g: Graph, key: Key, inputs: map<string, Content>)
    requires g.Has(key) && inputs.Keys == g.Inputs(key).Keys
    requires forall l | l in inputs :: IsArtifactValue(g, g.Inputs(key)[l], inputs[l])
    ensures key.ActionKey? ==> IsValue(g, key, Ran(g.actions[key.id].command, inputs))
    ensures key.TreeKey? ==> IsValue(g, key, Directory(inputs))
    ensures IsValue(g, key, Built(g, key, inputs))
  {
  }

  // ---- What has a value does not depend on itself, and conversely ----

  lemma {:induction false} ValueIsAcyclic(g: Graph, key: Key, c: Content)
    requires IsValue(g, key, c)
    ensures g.Has(key) && Acyclic(g, key)
    decreases c, 0
  {
    var wants := g.Inputs(key);
    var values := if key.ActionKey? then c.inputs else c.entries;
    forall l | l in wants ensures AcyclicArtifact(g, wants[l]) {
      assert IsArtifactValue(g, wants[l], values[l]);
      ArtifactValueIsAcyclic(g, wants[l], values[l]);
    }
    var n := CommonBound(g, wants, wants.Keys);
    assert WellFounded(g, key, n + 1);
  }

  lemma {:induction false} ArtifactValueIsAcyclic(g: Graph, a: Artifact, c: Content)
    requires IsArtifactValue(g, a, c)
    ensures AcyclicArtifact(g, a)
    decreases c, 1
  {
    match a
    case Action(id, _) => ValueIsAcyclic(g, ActionKey(id), c.dir);
    case Tree(id) => ValueIsAcyclic(g, TreeKey(id), c);
    case _ =>
  }

  lemma {:induction false} CommonBound(g: Graph, wants: map<string, Artifact>, ls: set<string>) returns (n: nat)
    requires ls <= wants.Keys && forall l | l in ls :: AcyclicArtifact(g, wants[l])
    ensures forall l | l in ls :: WellFoundedArtifact(g, wants[l], n)
    decreases ls
  {
    n := 0;
    if ls != {} {
      var l :| l in ls;
      var m := CommonBound(g, wants, ls - {l});
      var k: nat := 0;
      if KeyOf(wants[l]).Some? {
        k :| WellFounded(g, KeyOf(wants[l]).value, k);
      }
      n := if m < k then k else m;
      forall l' | l' in ls ensures WellFoundedArtifact(g, wants[l'], n) {
        if KeyOf(wants[l']).Some? {
          WellFoundedMore(g, KeyOf(wants[l']).value, if l' == l then k else m, n);
        }
      }
    }
  }

  lemma {:induction false} AcyclicHasValue(g: Graph, key: Key, n: nat) returns (c: Content)
    requires WellFounded(g, key, n)
    ensures IsValue(g, key, c)
    decreases n, 0
  {
    var inputs := InputValues(g, g.Inputs(key), g.Inputs(key).Keys, n - 1);
    c := Built(g, key, inputs);
    KeyValueFromInputs(g, key, inputs);
  }

  lemma {:induction false} InputValues(g: Graph, wants: map<string, Artifact>, ls: set<string>, n: nat)
    returns (inputs: map<string, Content>)
    requires ls <= wants.Keys && forall l | l in ls :: WellFoundedArtifact(g, wants[l], n)
    ensures inputs.Keys == ls && forall l | l in ls :: IsArtifactValue(g, wants[l], inputs[l])
    decreases n, 1, ls
  {
    inputs := map[];
    if ls != {} {
      var l :| l in ls;
      var rest := InputValues(g, wants, ls - {l}, n);
      var results: map<Key, Content> := map[];
      if KeyOf(wants[l]).Some? {
        var d := AcyclicHasValue(g, KeyOf(wants[l]).value, n);
        results := map[KeyOf(wants[l]).value := d];
      }
      DerefValue(g, results, wants[l]);
      inputs := rest[l := Deref(g.blobs, results, PathOf(wants[l]))];
    }
  }

  lemma AcyclicArtifactHasValue(g: Graph, a: Artifact) returns (c: Content)
    requires AcyclicArtifact(g, a)
    ensures IsArtifactValue(g, a, c)
  {
    var results: map<Key, Content> := map[];
    if KeyOf(a).Some? {
      var n: nat :| WellFounded(g, KeyOf(a).value, n);
      var d := AcyclicHasValue(g, KeyOf(a).value, n);
      results := map[KeyOf(a).value := d];
    }
    DerefValue(g, results, a);
    c := Deref(g.blobs, results, PathOf(a));
  }

  ghost predicate HasValue(g: Graph, a: Artifact) {
    exists c :: IsArtifactValue(g, a, c)
  }

  // Exactly the artifacts that do not depend on themselves, directly or not, have a value.
  lemma HasValueIffAcyclic(g: Graph, a: Artifact)
    ensures HasValue(g, a) <==> AcyclicArtifact(g, a)
  {
    if AcyclicArtifact(g, a) {
      var c := AcyclicArtifactHasValue(g, a);
    }
    if HasValue(g, a) {
      var c :| IsArtifactValue(g, a, c);
      ArtifactValueIsAcyclic(g, a, c);
    }
  }
}
