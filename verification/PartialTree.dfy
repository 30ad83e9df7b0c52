// PartialTree and ArtifactsRoot (src/buildtool/computed_roots/artifacts_root.cpp:37-196): a Git tree
// is built from the entries of a stage in byte order, with a stack of the trees that are not complete
// yet. Writing a tree object always succeeds here; its raw id is the hash of its content.
module PartialTree {
  import opened Wrappers
  import opened GitTree
  import opened StagePaths
  import opened StageTree

  // ---- std::filesystem::path::lexically_relative, on segments ----

  function Common(p: seq<string>, q: seq<string>): (k: nat)
    ensures k <= |p| && k <= |q| && p[..k] == q[..k]
  {
    if p == [] || q == [] || p[0] != q[0] then 0
    else
      var k := Common(p[1..], q[1..]);
      assert p[..k + 1] == [p[0]] + p[1..][..k] && q[..k + 1] == [q[0]] + q[1..][..k];
      k + 1
  }

  // The number of segments to go up for leaving p.
  function Depth(p: seq<string>): int {
    if p == [] then 0
    else (if p[0] == ".." then -1 else if p[0] == "." || p[0] == "" then 0 else 1) + Depth(p[1..])
  }

  function LexicallyRelative(p: seq<string>, base: seq<string>): seq<string> {
    if p == base then ["."]
    else
      var k := Common(p, base);
      var n := Depth(base[k..]);
      if n < 0 then []
      else if n == 0 && k == |p| then ["."]
      else seq(n, i => "..") + p[k..]
  }

  predicate IsNormal(p: seq<string>) {
    forall i | 0 <= i < |p| :: p[i] != "" && p[i] != "." && p[i] != ".."
  }

  lemma {:induction false} NormalDepth(p: seq<string>)
    requires IsNormal(p)
    ensures Depth(p) == |p|
  {
    if p != [] {
      assert forall i | 0 <= i < |p[1..]| :: p[1..][i] == p[i + 1];
      NormalDepth(p[1..]);
    }
  }

  lemma {:induction false} CommonIsAll(p: seq<string>, base: seq<string>)
    requires base <= p
    ensures Common(p, base) == |base|
  {
    if base != [] {
      assert base[1..] <= p[1..];
      CommonIsAll(p[1..], base[1..]);
    }
  }

  // The way starts with going up, unless p is at or below base.
  predicate IsWay(rel: seq<string>, p: seq<string>, base: seq<string>) {
    && rel != []
    && (rel[0] == ".." <==> !(base <= p))
    && (base <= p ==> rel == if p == base then ["."] else p[|base|..])
  }

  lemma RelativeOfNormal(p: seq<string>, base: seq<string>)
    requires IsNormal(p) && IsNormal(base)
    ensures IsWay(LexicallyRelative(p, base), p, base)
  {
    var k := Common(p, base);
    assert IsNormal(base[k..]) by {
      assert forall i | 0 <= i < |base[k..]| :: base[k..][i] == base[k + i];
    }
    NormalDepth(base[k..]);
    if base <= p {
      CommonIsAll(p, base);
    } else {
      assert k < |base|;
    }
  }

  // ---- Entries ----

  // AddEntryRaw
  function AddEntryRaw(tree: TreeEntries, p: string, rawHash: string, kind: ObjectType): TreeEntries {
    if rawHash in tree then tree[rawHash := tree[rawHash] + [TreeEntry(p, kind)]]
    else tree[rawHash := [TreeEntry(p, kind)]]
  }

  lemma AddedEntry(tree: TreeEntries, p: string, rawHash: string, kind: ObjectType, id: string, entry: TreeEntry)
    ensures HasEntry(AddEntryRaw(tree, p, rawHash, kind), id, entry)
        <==> HasEntry(tree, id, entry) || (id == rawHash && entry == TreeEntry(p, kind))
  {
  }

  lemma AddRepresents(tree: TreeEntries, m: map<string, Leaf>, p: string, rawHash: string, kind: ObjectType)
    requires Represents(tree, m) && SortName(p, kind) !in m
    ensures Represents(AddEntryRaw(tree, p, rawHash, kind), m[SortName(p, kind) := Leaf(rawHash, kind)])
  {
    var tree', key := AddEntryRaw(tree, p, rawHash, kind), SortName(p, kind);
    var m' := m[key := Leaf(rawHash, kind)];
    forall id, entry ensures HasEntry(tree', id, entry)
        <==> HasEntry(tree, id, entry) || (id == rawHash && entry == TreeEntry(p, kind))
    {
      AddedEntry(tree, p, rawHash, kind, id, entry);
    }
    assert Stands(tree', TreeEntry(p, kind), key, m'[key]);
    forall k | k in m' ensures exists entry :: Stands(tree', entry, k, m'[k]) {
      if k != key {
        var entry :| Stands(tree, entry, k, m[k]);
        assert Stands(tree', entry, k, m'[k]);
      }
    }
  }

  // ---- What the trees on the stack hold ----

  // The entries of the directory p, without the directory that is open in it, if any.
  ghost function Level(id: Stage -> string, done: Stage, p: seq<string>, open: Option<string>): map<string, Leaf> {
    var all := Listing(id, Under(done, p));
    if open.Some? then all - {open.value + "/"} else all
  }

  ghost predicate Carries(id: Stage -> string, tree: TreeEntries, done: Stage, p: seq<string>, open: Option<string>) {
    Represents(tree, Level(id, done, p, open))
  }

  // A directory is entered for the first time.
  lemma CarriesDown(id: Stage -> string, id': Stage -> string, tree: TreeEntries, done: Stage, p: seq<string>,
                    d: string)
    requires IsStage(done) && Carries(id, tree, done, p, None) && Under(done, p + [d]) == map[]
    requires !(p + [d] in done && done[p + [d]].kind == Tree)
    ensures Carries(id, tree, done, p, Some(d)) && Carries(id', map[], done, p + [d], None)
  {
    UnderIsStage(done, p);
    UnderUnder(done, p, [d]);
    ListingWithoutDir(id, Under(done, p), d);
    assert Listing(id', map[]) == map[];
  }

  // A directory is complete.
  lemma CarriesUp(id: Stage -> string, tree: TreeEntries, done: Stage, p: seq<string>, d: string)
    requires Carries(id, tree, done, p, Some(d)) && Under(done, p + [d]) != map[]
    ensures Carries(id, AddEntryRaw(tree, d, id(Under(done, p + [d])), Tree), done, p, None)
  {
    var below := Under(done, p + [d]);
    UnderUnder(done, p, [d]);
    ListingWithDir(id, Under(done, p), d, below);
    AddRepresents(tree, Level(id, done, p, Some(d)), d, id(below), Tree);
  }

  lemma CarriesAdd(id: Stage -> string, tree: TreeEntries, done: Stage, p: seq<string>, name: string, leaf: Leaf,
                   done': Stage)
    requires IsStage(done) && Carries(id, tree, done, p, None) && '/' !in name
    requires p + [name] !in done && (leaf.kind == Tree ==> Under(done, p + [name]) == map[])
    requires done' == done[p + [name] := leaf]
    ensures Carries(id, AddEntryRaw(tree, name, leaf.id, leaf.kind), done', p, None)
  {
    var q, here := p + [name], Under(done, p);
    UnderIsStage(done, p);
    UnderUnder(done, p, [name]);
    assert q[..|p|] == p && q[|p|..] == [name] && [name] !in here;
    NotListed(id, here, name, leaf.kind);
    UnderAdded(done, q, leaf, p);
    ListingWithLeaf(id, here, name, leaf, Under(done', p));
    AddRepresents(tree, Level(id, done, p, None), name, leaf.id, leaf.kind);
  }

  lemma CarriesAddBelow(id: Stage -> string, tree: TreeEntries, done: Stage, p: seq<string>, q: seq<string>,
                        leaf: Leaf, done': Stage)
    requires IsStage(done) && |p| + 1 < |q| && NoSlashes(q) && q[..|p|] == p && q !in done && done' == done[q := leaf]
    requires Carries(id, tree, done, p, Some(q[|p|]))
    ensures Carries(id, tree, done', p, Some(q[|p|]))
  {
    var t := q[|p|..];
    assert q == p + t && t[0] == q[|p|] && t !in Under(done, p);
    assert forall i | 0 <= i < |t| :: t[i] == q[|p| + i];
    UnderIsStage(done, p);
    UnderAdded(done, q, leaf, p);
    ListingBelow(id, Under(done, p), t, leaf, Under(done', p));
  }

  // ---- The stack ----

  function OpenAt(dir: seq<string>, j: nat): Option<string>
    requires j <= |dir|
  {
    if j < |dir| then Some(dir[j]) else None
  }

  // The stack holds all of done, by the directories on the way to dir; ids[j] identifies the trees of
  // directories at depth j.
  ghost predicate Holds(ids: seq<Stage -> string>, trees: seq<TreeEntries>, done: Stage, dir: seq<string>) {
    && IsStage(done) && |dir| < |ids| && |trees| == |dir| + 1
    && forall j | 0 <= j <= |dir| :: Carries(ids[j], trees[j], done, dir[..j], OpenAt(dir, j))
  }

  lemma UpHolds(ids: seq<Stage -> string>, trees: seq<TreeEntries>, done: Stage, dir: seq<string>, id: string)
    requires Holds(ids, trees, done, dir) && dir != [] && Under(done, dir) != map[]
        && id == ids[|dir| - 1](Under(done, dir))
    ensures
      var k := |dir| - 1;
      Holds(ids, trees[..k] + [AddEntryRaw(trees[k], dir[k], id, Tree)], done, dir[..k])
  {
    var k := |dir| - 1;
    var up := dir[..k];
    var trees' := trees[..k] + [AddEntryRaw(trees[k], dir[k], id, Tree)];
    assert up + [dir[k]] == dir;
    assert Carries(ids[k], trees[k], done, up, OpenAt(dir, k));
    CarriesUp(ids[k], trees[k], done, up, dir[k]);
    forall j | 0 <= j <= k ensures Carries(ids[j], trees'[j], done, up[..j], OpenAt(up, j)) {
      assert up[..j] == dir[..j];
      assert Carries(ids[j], trees[j], done, dir[..j], OpenAt(dir, j));
    }
  }

  lemma HoldsSizes(ids: seq<Stage -> string>, trees: seq<TreeEntries>, done: Stage, dir: seq<string>)
    requires Holds(ids, trees, done, dir)
    ensures |dir| < |ids| && |trees| == |dir| + 1
  {
  }

  lemma UpValid(hash: string -> string, ids: seq<Stage -> string>, trees: seq<TreeEntries>, done: Stage,
                dir: seq<string>, id: string)
    requires IsChain(hash, ids) && Holds(ids, trees, done, dir) && IsNormal(dir) && dir != []
        && Under(done, dir) != map[]
    requires |dir| < |ids| && |trees| == |dir| + 1 && id == hash(Printed(Listing(ids[|dir|], Under(done, dir))))
    ensures
      var k := |dir| - 1;
      && Holds(ids, trees[..k] + [AddEntryRaw(trees[k], dir[k], id, Tree)], done, dir[..k])
      && IsNormal(dir[..k]) && Under(done, dir[..k]) != map[]
  {
    hide Carries, IsChain, Listing, Under;
    ChainAt(hash, ids, |dir| - 1, Under(done, dir));
    UpHolds(ids, trees, done, dir, id);
    UpFilled(done, dir);
  }

  lemma DownHolds(ids: seq<Stage -> string>, trees: seq<TreeEntries>, done: Stage, dir: seq<string>, segment: string)
    requires Holds(ids, trees, done, dir) && |dir| + 1 < |ids| && Under(done, dir + [segment]) == map[]
    requires !(dir + [segment] in done && done[dir + [segment]].kind == Tree)
    ensures Holds(ids, trees + [map[]], done, dir + [segment])
  {
    var k := |dir|;
    assert Carries(ids[k], trees[k], done, dir, None) by {
      assert dir[..k] == dir;
      assert Carries(ids[k], trees[k], done, dir[..k], OpenAt(dir, k));
    }
    CarriesDown(ids[k], ids[k + 1], trees[k], done, dir, segment);
    HoldsExtended(ids, trees, done, dir, segment);
  }

  lemma HoldsExtended(ids: seq<Stage -> string>, trees: seq<TreeEntries>, done: Stage, dir: seq<string>,
                      segment: string)
    requires Holds(ids, trees, done, dir) && |dir| + 1 < |ids|
    requires Carries(ids[|dir|], trees[|dir|], done, dir, Some(segment))
    requires Carries(ids[|dir| + 1], map[], done, dir + [segment], None)
    ensures Holds(ids, trees + [map[]], done, dir + [segment])
  {
    var k, down, trees' := |dir|, dir + [segment], trees + [map[]];
    forall j | 0 <= j <= k + 1 ensures Carries(ids[j], trees'[j], done, down[..j], OpenAt(down, j)) {
      if j < k {
        assert down[..j] == dir[..j];
        assert Carries(ids[j], trees[j], done, dir[..j], OpenAt(dir, j));
      } else if j == k {
        assert down[..j] == dir;
      } else {
        assert down[..j] == down;
      }
    }
  }

  lemma AddHolds(ids: seq<Stage -> string>, trees: seq<TreeEntries>, done: Stage, dir: seq<string>, name: string,
                 leaf: Leaf, done': Stage)
    requires Holds(ids, trees, done, dir) && NoSlashes(dir + [name]) && dir + [name] !in done
    requires (leaf.kind == Tree ==> Under(done, dir + [name]) == map[]) && done' == done[dir + [name] := leaf]
    ensures Holds(ids, trees[|dir| := AddEntryRaw(trees[|dir|], name, leaf.id, leaf.kind)], done', dir)
  {
    var k, q := |dir|, dir + [name];
    var trees' := trees[k := AddEntryRaw(trees[k], name, leaf.id, leaf.kind)];
    assert dir[..k] == dir && q[k] == name;
    assert Carries(ids[k], trees[k], done, dir[..k], OpenAt(dir, k));
    CarriesAdd(ids[k], trees[k], done, dir, name, leaf, done');
    forall j | 0 <= j <= k ensures Carries(ids[j], trees'[j], done', dir[..j], OpenAt(dir, j)) {
      if j < k {
        assert q[..j] == dir[..j] && q[j] == dir[j];
        assert Carries(ids[j], trees[j], done, dir[..j], OpenAt(dir, j));
        CarriesAddBelow(ids[j], trees[j], done, dir[..j], q, leaf, done');
      }
    }
  }

  // ids[j] is how the trees of directories at depth j are identified.
  ghost predicate IsChain(hash: string -> string, ids: seq<Stage -> string>) {
    ids != [] && forall j, s: Stage | 0 <= j < |ids| - 1 :: ids[j](s) == hash(Printed(Listing(ids[j + 1], s)))
  }

  lemma ChainAt(hash: string -> string, ids: seq<Stage -> string>, k: nat, stage: Stage)
    requires IsChain(hash, ids) && k < |ids| - 1
    ensures ids[k](stage) == hash(Printed(Listing(ids[k + 1], stage)))
  {
  }

  // The directory p has not been entered.
  ghost predicate IsNew(done: Stage, p: seq<string>) {
    Under(done, p) == map[] && !(p in done && done[p].kind == Tree)
  }

  // Of the directories on the way to dir, those below depth k have not been entered.
  ghost predicate IsNewBelow(done: Stage, dir: seq<string>, k: nat) {
    forall j | k < j <= |dir| :: IsNew(done, dir[..j])
  }

  class PartialTree {
    const hash: string -> string
    ghost const ids: seq<Stage -> string>
    var currentDir: seq<string>
    var partialTrees: seq<TreeEntries>
    ghost var done: Stage

    ghost predicate Valid()
      reads this
    {
      IsChain(hash, ids) && Holds(ids, partialTrees, done, currentDir) && IsNormal(currentDir)
    }

    // There is something in the current directory.
    ghost predicate Filled()
      reads this
    {
      currentDir == [] || Under(done, currentDir) != map[]
    }

    constructor (hash: string -> string, ghost ids: seq<Stage -> string>)
      requires IsChain(hash, ids)
      ensures Valid() && Filled() && this.hash == hash && this.ids == ids && done == map[] && currentDir == []
    {
      this.hash, this.ids := hash, ids;
      currentDir, partialTrees, done := [], [map[]], map[];
      new;
      assert Under(done, []) == map[];
      assert Listing(ids[0], map[]) == map[];
      assert Represents(map[], map[]);
      assert currentDir[..0] == [];
    }

    method Down(segment: string)
      requires Valid() && segment != ".."
      requires segment != "." && segment != "" ==> |currentDir| + 1 < |ids| && IsNew(done, currentDir + [segment])
      modifies this`currentDir, this`partialTrees
      ensures Valid()
      ensures currentDir == old(currentDir) + if segment == "." || segment == "" then [] else [segment]
    {
      if segment == "." || segment == "" {
        return;
      }
      DownHolds(ids, partialTrees, done, currentDir, segment);
      partialTrees := partialTrees + [map[]];
      currentDir := currentDir + [segment];
    }

    // The top tree is complete: all that is done in the current directory.
    method Top() returns (id: string)
      requires Valid()
      ensures id == hash(Printed(Listing(ids[|currentDir|], Under(done, currentDir))))
    {
      var k := |currentDir|;
      var content := CreateTree(partialTrees[k]);
      id := hash(content);
      assert currentDir[..k] == currentDir;
      assert Carries(ids[k], partialTrees[k], done, currentDir[..k], OpenAt(currentDir, k));
    }

    method Up()
      requires Valid() && Filled() && currentDir != []
      modifies this`currentDir, this`partialTrees
      ensures Valid() && Filled() && currentDir == old(currentDir)[..|old(currentDir)| - 1]
    {
      hide IsChain, Listing, Holds, IsNormal, Under;
      HoldsSizes(ids, partialTrees, done, currentDir);
      var k := |currentDir| - 1;
      var name := currentDir[k];
      var id := Top();
      UpValid(hash, ids, partialTrees, done, currentDir, id);
      currentDir := currentDir[..k];
      partialTrees := partialTrees[..k] + [AddEntryRaw(partialTrees[k], name, id, Tree)];
    }

    // The body of the first loop of To.
    method UpTowards(dir: seq<string>) returns (relPath: seq<string>)
      requires Valid() && Filled() && IsNormal(dir) && !(currentDir <= dir)
      modifies this`currentDir, this`partialTrees
      ensures Valid() && Filled() && |currentDir| < |old(currentDir)|
      ensures IsWay(relPath, dir, currentDir) && Common(dir, currentDir) == Common(dir, old(currentDir))
    {
      hide Carries, IsChain, Holds, LexicallyRelative;
      CommonStays(dir, currentDir);
      Up();
      relPath := LexicallyRelative(dir, currentDir);
      RelativeOfNormal(dir, currentDir);
    }

    // The first loop of To: up, until the current directory is on the way to dir.
    method Leave(dir: seq<string>) returns (relPath: seq<string>)
      requires Valid() && Filled() && IsNormal(dir)
      modifies this`currentDir, this`partialTrees
      ensures Valid() && currentDir <= dir && |currentDir| == Common(dir, old(currentDir))
      ensures IsWay(relPath, dir, currentDir)
    {
      hide Carries;
      relPath := LexicallyRelative(dir, currentDir);
      RelativeOfNormal(dir, currentDir);
      while relPath[0] == ".."
        invariant Valid() && Filled()
        invariant IsWay(relPath, dir, currentDir) && Common(dir, currentDir) == Common(dir, old(currentDir))
        decreases |currentDir|
      {
        relPath := UpTowards(dir);
      }
      CommonIsAll(dir, currentDir);
    }

    // The second loop of To: down along the segments of relPath.
    method Enter(relPath: seq<string>, ghost dir: seq<string>)
      requires Valid() && IsNormal(dir) && |dir| < |ids| && currentDir <= dir && IsNewBelow(done, dir, |currentDir|)
      requires relPath == if dir == currentDir then ["."] else dir[|currentDir|..]
      modifies this`currentDir, this`partialTrees
      ensures Valid() && currentDir == dir
    {
      hide Carries;
      ghost var base := currentDir;
      for i := 0 to |relPath|
        invariant Valid() && IsNewBelow(done, dir, |base|)
        invariant currentDir == if dir == base then base else dir[..|base| + i]
      {
        if dir != base {
          NextSegment(dir, base, relPath, i);
        }
        Down(relPath[i]);
      }
    }

    method To(dir: seq<string>)
      requires Valid() && Filled() && IsNormal(dir) && |dir| < |ids| && IsNewBelow(done, dir, Common(dir, currentDir))
      modifies this`currentDir, this`partialTrees
      ensures Valid() && currentDir == dir
    {
      hide Carries;
      var relPath := Leave(dir);
      Enter(relPath, dir);
    }

    // AddEntry for a valid hash, in the directory that the path p lies in.
    method AddHere(p: seq<string>, leaf: Leaf)
      requires Valid() && p != [] && NoSlashes(p) && currentDir == p[..|p| - 1] && p !in done
      requires leaf.kind == Tree ==> Under(done, p) == map[]
      modifies this`partialTrees, this`done
      ensures Valid() && Filled() && done == old(done)[p := leaf]
    {
      hide Carries;
      var k := |p| - 1;
      assert currentDir + [p[k]] == p;
      AddHolds(ids, partialTrees, done, currentDir, p[k], leaf, done[p := leaf]);
      AddFilled(done[p := leaf], p);
      partialTrees := partialTrees[k := AddEntryRaw(partialTrees[k], p[k], leaf.id, leaf.kind)];
      done := done[p := leaf];
    }

    // One more path of the stage, in its turn.
    method Add(ps: string, hexHash: string, kind: ObjectType) returns (ok: bool)
      requires Valid() && Filled() && IsNormal(Split(ps)) && |Split(ps)| <= |ids| && Split(ps) !in done
      requires IsNewBelow(done, Split(ps)[..|Split(ps)| - 1], Common(Split(ps)[..|Split(ps)| - 1], currentDir))
      requires kind == Tree ==> Under(done, Split(ps)) == map[]
      modifies this
      ensures ok <==> FromHex(hexHash).Some?
      ensures ok ==> Valid() && Filled() && currentDir == Split(ps)[..|Split(ps)| - 1]
      ensures ok ==> done == old(done)[Split(ps) := Leaf(FromHex(hexHash).value, kind)]
    {
      hide Carries;
      var p := Split(ps);
      SplitNoSlashes(ps);
      assert IsNormal(p[..|p| - 1]);
      To(p[..|p| - 1]);
      var rawHash := FromHex(hexHash);
      if rawHash.None? {
        return false;
      }
      AddHere(p, Leaf(rawHash.value, kind));
      ok := true;
    }

    method Done() returns (id: string)
      requires Valid() && Filled()
      modifies this
      ensures id == hash(Printed(Listing(ids[0], done))) && done == old(done)
    {
      while currentDir != []
        invariant Valid() && Filled() && done == old(done)
        decreases |currentDir|
      {
        Up();
      }
      id := Top();
      UnderNothing(done);
    }
  }

  lemma NextSegment(dir: seq<string>, base: seq<string>, relPath: seq<string>, i: nat)
    requires base <= dir && relPath == dir[|base|..] && i < |relPath|
    ensures |base| + i < |dir| && dir[..|base| + i] + [relPath[i]] == dir[..|base| + i + 1]
  {
  }

  lemma UpFilled(done: Stage, dir: seq<string>)
    requires dir != [] && Under(done, dir) != map[]
    ensures Under(done, dir[..|dir| - 1]) != map[]
  {
    var t :| t in Under(done, dir);
    assert dir + t == dir[..|dir| - 1] + ([dir[|dir| - 1]] + t);
    assert [dir[|dir| - 1]] + t in Under(done, dir[..|dir| - 1]);
  }

  lemma AddFilled(done: Stage, p: seq<string>)
    requires p != [] && p in done
    ensures Under(done, p[..|p| - 1]) != map[]
  {
    assert p == p[..|p| - 1] + [p[|p| - 1]];
    assert [p[|p| - 1]] in Under(done, p[..|p| - 1]);
  }

  // Leaving a directory that is not on the way to dir.
  lemma {:induction false} CommonStays(dir: seq<string>, current: seq<string>)
    requires current != [] && !(current <= dir)
    ensures Common(dir, current[..|current| - 1]) == Common(dir, current)
  {
    if dir != [] && dir[0] == current[0] {
      assert current == [current[0]] + current[1..] && dir == [dir[0]] + dir[1..];
      assert current[1..] != [] by {
        assert current[1..] == [] ==> current <= dir;
      }
      assert !(current[1..] <= dir[1..]);
      CommonStays(dir[1..], current[1..]);
      assert current[..|current| - 1][1..] == current[1..][..|current| - 2];
    }
  }
}
