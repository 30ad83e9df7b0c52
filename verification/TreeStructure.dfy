// The structure of a Git tree (src/buildtool/tree_structure/tree_structure_utils.cpp:42-124) and the
// resolution of roots that ask for it (src/buildtool/computed_roots/evaluate.cpp:430-625). A tree is
// identified with its id.
module TreeStructure {
  import opened Wrappers

  datatype FileKind = File | Executable | Symlink

  datatype Node = Blob(kind: FileKind, data: string) | Dir(tree: Tree)

  datatype Tree = Tree(entries: map<string, Node>)

  // ---- The structure ----

  // The same tree with all contents dropped.
  function Structure(tree: Tree): Tree {
    Tree(map name | name in tree.entries :: StructureOf(tree.entries[name]))
  }

  function StructureOf(node: Node): Node {
    match node
    case Blob(kind, _) => Blob(kind, "")
    case Dir(sub) => Dir(Structure(sub))
  }

  // The same names, of the same kinds, all the way down.
  ghost predicate SameShape(a: Tree, b: Tree) {
    a.entries.Keys == b.entries.Keys && forall name | name in a.entries && name in b.entries ::
        SameShapeAt(a.entries[name], b.entries[name])
  }

  ghost predicate SameShapeAt(a: Node, b: Node) {
    match a
    case Blob(kind, _) => b.Blob? && b.kind == kind
    case Dir(sub) => b.Dir? && SameShape(sub, b.tree)
  }

  // The structure is the tree up to contents.
  lemma {:induction false} StructureIsShape(a: Tree, b: Tree)
    ensures Structure(a) == Structure(b) <==> SameShape(a, b)
  {
    forall name | name in a.entries && name in b.entries
      ensures StructureOf(a.entries[name]) == StructureOf(b.entries[name])
          <==> SameShapeAt(a.entries[name], b.entries[name])
    {
      NodeIsShape(a.entries[name], b.entries[name]);
    }
    if Structure(a) == Structure(b) {
      assert Structure(a).entries.Keys == a.entries.Keys && Structure(b).entries.Keys == b.entries.Keys;
      forall name | name in a.entries && name in b.entries ensures SameShapeAt(a.entries[name], b.entries[name]) {
        assert Structure(a).entries[name] == Structure(b).entries[name];
      }
    }
  }

  lemma {:induction false} NodeIsShape(a: Node, b: Node)
    ensures StructureOf(a) == StructureOf(b) <==> SameShapeAt(a, b)
  {
    if a.Dir? && b.Dir? {
      StructureIsShape(a.tree, b.tree);
    }
  }

  lemma {:induction false} HasOwnShape(a: Tree)
    ensures SameShape(Structure(a), a)
  {
    forall name | name in a.entries ensures SameShapeAt(StructureOf(a.entries[name]), a.entries[name]) {
      if a.entries[name].Dir? {
        HasOwnShape(a.entries[name].tree);
      }
    }
  }

  // No file has any content.
  ghost predicate IsEmptied(a: Tree) {
    forall name | name in a.entries :: IsEmptiedAt(a.entries[name])
  }

  ghost predicate IsEmptiedAt(node: Node) {
    if node.Blob? then node.data == "" else IsEmptied(node.tree)
  }

  lemma {:induction false} EmptiedIsUnique(a: Tree, b: Tree)
    requires SameShape(a, b) && IsEmptied(a) && IsEmptied(b)
    ensures a == b
  {
    forall name | name in a.entries ensures a.entries[name] == b.entries[name] {
      assert SameShapeAt(a.entries[name], b.entries[name]);
      assert IsEmptiedAt(a.entries[name]) && IsEmptiedAt(b.entries[name]);
      if a.entries[name].Dir? {
        EmptiedIsUnique(a.entries[name].tree, b.entries[name].tree);
      }
    }
    assert a.entries == b.entries;
  }

  lemma {:induction false} StructureIsEmptied(a: Tree)
    ensures IsEmptied(Structure(a))
  {
    forall name | name in a.entries ensures IsEmptiedAt(StructureOf(a.entries[name])) {
      if a.entries[name].Dir? {
        StructureIsEmptied(a.entries[name].tree);
      }
    }
  }

  // The structure is the one tree of the same shape in which all files are empty.
  lemma StructureIsEmptyTree(a: Tree, b: Tree)
    ensures b == Structure(a) <==> SameShape(b, a) && IsEmptied(b)
  {
    HasOwnShape(a);
    StructureIsEmptied(a);
    if SameShape(b, a) && IsEmptied(b) {
      StructureIsShape(b, a);
      HasOwnShape(b);
      StructureIsEmptied(b);
      EmptiedIsUnique(Structure(b), b);
    }
  }

  lemma StructureIdempotent(a: Tree)
    ensures Structure(Structure(a)) == Structure(a)
  {
    HasOwnShape(a);
    StructureIsShape(Structure(a), a);
  }

  // ---- Roots ----

  // A root in the file system, in a Git repository, or known by its tree only.
  datatype FileRoot = InFileSystem(path: string) | InGit(cas: string, tree: Tree) | Absent(tree: Tree)
  {
    function GetTreeHash(): Option<Tree> {
      if InFileSystem? then None else Some(tree)
    }
  }

  // Computing a structure locally fails, or does not find the tree, or succeeds.
  datatype Locally = Failed | NotFound | Found

  // How the calls turn out that a resolution may make: the three local computations in order, and the
  // calls to serve; serve may also not be configured.
  datatype Outcomes = Outcomes(
    locally: seq<Locally>, hasServe: bool, computes: bool, downloads: bool, replies: bool, uploads: bool,
        createsRoot: bool)
  {
    // When a root of that kind is resolved, given what serve knows already.
    predicate Resolves(absent: bool, root: FileRoot, known: bool)
      requires |locally| == 3
    {
      if root.InFileSystem? then false
      else if absent && root.Absent? then hasServe && computes                                          // ABSENT-ABSENT
      else if absent then locally[0] == Found && hasServe && replies && (known || uploads)              // ABSENT-LOCAL
      else if !root.Absent? then locally[0] == Found && createsRoot                                     // LOCAL-LOCAL
      else if locally[0] != NotFound then locally[0] == Found && createsRoot                            // LOCAL-ABSENT
      else
        && hasServe && computes && createsRoot
        && (locally[1] == Found || (locally[1] == NotFound && downloads && locally[2] == Found))
    }
  }

  class Resolver {
    const gitRoot: string
    const outcomes: Outcomes
    var local: set<Tree>   // the trees in the Git repository of the native storage
    var served: set<Tree>  // the trees known to serve

    constructor (gitRoot: string, outcomes: Outcomes, local: set<Tree>, served: set<Tree>)
      ensures this.gitRoot == gitRoot && this.outcomes == outcomes && this.local == local && this.served == served
    {
      this.gitRoot, this.outcomes, this.local, this.served := gitRoot, outcomes, local, served;
    }

    // ComputeStructureLocally, the i-th time; the outer None is an error.
    method ComputeStructureLocally(i: nat, tree: Tree) returns (r: Option<Option<Tree>>)
      requires i < |outcomes.locally|
      modifies this`local
      ensures old(local) <= local
      ensures match outcomes.locally[i]
              case Failed => r == None
              case NotFound => r == Some(None)
              case Found => r == Some(Some(Structure(tree))) && Structure(tree) in local
    {
      match outcomes.locally[i]
      case Failed => r := None;
      case NotFound => r := Some(None);
      case Found =>
        local := local + {Structure(tree)};
        r := Some(Some(Structure(tree)));
    }

    method ComputeOnServe(tree: Tree) returns (r: Option<Tree>)
      modifies this`served
      ensures old(served) <= served
      ensures if outcomes.computes then r == Some(Structure(tree)) && Structure(tree) in served else r == None
    {
      if outcomes.computes {
        served := served + {Structure(tree)};
        r := Some(Structure(tree));
      } else {
        r := None;
      }
    }

    // The tree structure is known to serve, or is made so; the end of the ABSENT-LOCAL case.
    method EnsureServed(tree: Tree) returns (ok: bool)
      modifies this`served
      ensures old(served) <= served
      ensures ok <==> outcomes.hasServe && outcomes.replies && (tree in old(served) || outcomes.uploads)
      ensures ok ==> tree in served
    {
      if !outcomes.hasServe || !outcomes.replies {
        return false;
      }
      var known := tree in served;
      if !known {
        if !outcomes.uploads {
          return false;
        }
        served := served + {tree};
        known := true;
      }
      ok := known;
    }

    // What serve computed for an absent root is processed locally, if need be after downloading it; the
    // inner None if it is still not there.
    method ProcessLocally(absentStructure: Tree) returns (r: Option<Option<Tree>>)
      requires |outcomes.locally| == 3
      modifies this`local
      ensures old(local) <= local
      ensures
        var found := outcomes.locally[1] == Found
            || (outcomes.locally[1] == NotFound && outcomes.downloads && outcomes.locally[2] == Found);
        if found then r == Some(Some(Structure(absentStructure))) && Structure(absentStructure) in local
        else r == None || r == Some(None)
    {
      r := ComputeStructureLocally(1, absentStructure);
      if r == Some(None) {
        if !outcomes.downloads {
          return None;
        }
        r := ComputeStructureLocally(2, absentStructure);
      }
    }

    // Whatever way the structure is found: the root is that of the structure of the tree referred to. It
    // is absent exactly if that was asked for; then serve knows the tree, and otherwise the tree is in
    // the Git repository of the native storage.
    method ResolveTreeStructureRoot(absent: bool, refRoot: FileRoot) returns (root: Option<FileRoot>)
      requires |outcomes.locally| == 3
      modifies this`local, this`served
      ensures old(local) <= local && old(served) <= served
      ensures root.Some? <==> outcomes.Resolves(absent, refRoot, !refRoot.InFileSystem?
          && Structure(refRoot.tree) in old(served))
      ensures root.Some? ==>
                var structure := Structure(refRoot.tree);
                if absent then root.value == Absent(structure) && structure in served
                else root.value == InGit(gitRoot, structure) && structure in local
    {
      var hash := refRoot.GetTreeHash();
      if hash.None? {
        return None;
      }
      StructureIdempotent(hash.value);
      var computeLocally := !absent || !refRoot.Absent?;
      var localStructure: Option<Tree> := None;
      if computeLocally {
        var fromLocal := ComputeStructureLocally(0, hash.value);
        if fromLocal.None? {
          return None;
        }
        localStructure := fromLocal.value;
      }
      var absentStructure: Option<Tree> := None;
      if localStructure.None? && refRoot.Absent? {
        if !outcomes.hasServe {
          return None;
        }
        absentStructure := ComputeOnServe(hash.value);
        if absentStructure.None? {
          return None;
        }
      }
      if computeLocally && localStructure.None? && absentStructure.Some? {
        var fromLocal := ProcessLocally(absentStructure.value);
        if fromLocal.None? {
          return None;
        }
        localStructure := fromLocal.value;
      }
      if absent && absentStructure.Some? {
        return Some(Absent(absentStructure.value));
      }
      if absent && localStructure.Some? {
        var ok := EnsureServed(localStructure.value);
        return if ok then Some(Absent(localStructure.value)) else None;
      }
      if localStructure.Some? && outcomes.createsRoot {
        return Some(InGit(gitRoot, localStructure.value));
      }
      root := None;
    }
  }
}
