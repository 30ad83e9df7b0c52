// ArtifactsRoot (src/buildtool/computed_roots/artifacts_root.cpp:141-196): the Git tree of a stage,
// computed in one pass over its entries in byte order.
module ArtifactsRoot {
  import opened Wrappers
  import opened ByteOrder
  import opened GitTree
  import opened StagePaths
  import opened StageTree
  import opened PartialTree

  // Paths are relative and normalised, none has more than n + 1 segments.
  ghost predicate PathsOk(stage: map<string, Leaf>, n: nat) {
    forall ps | ps in stage :: IsNormal(Split(ps)) && |Split(ps)| <= n + 1
  }

  // No tree of the stage is a directory of it at the same time.
  ghost predicate ConflictFree(stage: map<string, Leaf>) {
    forall ps, qs | ps in stage && qs in stage && stage[ps].kind == Tree :: !IsBelow(Split(qs), Split(ps))
  }

  // m holds the first i of the keys, by path and with raw ids.
  ghost predicate IsStageOf(m: Stage, stage: map<string, Leaf>, keys: seq<string>, i: nat)
    requires i <= |keys| && forall ps | ps in keys :: ps in stage
  {
    && (forall j | 0 <= j < i ::
          && FromHex(stage[keys[j]].id).Some? && Split(keys[j]) in m
          && m[Split(keys[j])] == Leaf(FromHex(stage[keys[j]].id).value, stage[keys[j]].kind))
    && (forall p | p in m :: exists j :: 0 <= j < i && Split(keys[j]) == p)
  }

  // The path of the entry that was added last is in the current directory.
  ghost predicate IsAfter(current: seq<string>, keys: seq<string>, i: nat)
    requires i <= |keys|
  {
    i > 0 ==> current == Split(keys[i - 1])[..|Split(keys[i - 1])| - 1]
  }

  lemma NotDone(m: Stage, stage: map<string, Leaf>, keys: seq<string>, i: nat)
    requires i < |keys| && StrictlySorted(keys) && (forall ps | ps in keys :: ps in stage)
    requires IsStageOf(m, stage, keys, i)
    ensures Split(keys[i]) !in m
  {
    if Split(keys[i]) in m {
      var j :| 0 <= j < i && Split(keys[j]) == Split(keys[i]);
      SplitInjective(keys[j], keys[i]);
      LessTotal(keys[i], keys[i]);
    }
  }

  lemma NothingUnderTree(m: Stage, stage: map<string, Leaf>, keys: seq<string>, i: nat)
    requires i < |keys| && (forall ps | ps in keys :: ps in stage) && IsStageOf(m, stage, keys, i)
    requires ConflictFree(stage) && stage[keys[i]].kind == Tree
    ensures Under(m, Split(keys[i])) == map[]
  {
    var p := Split(keys[i]);
    forall t ensures t !in Under(m, p) {
      assert t != [] ==> IsBelow(p + t, p);
    }
  }

  // The directories that keys[i] adds to those of keys[i - 1] have not been entered before: all paths
  // below a directory come next to each other.
  lemma NextDirsAreNew(m: Stage, stage: map<string, Leaf>, keys: seq<string>, i: nat, dir: seq<string>,
                       current: seq<string>)
    requires i < |keys| && StrictlySorted(keys) && (forall ps | ps in keys :: ps in stage)
    requires IsStageOf(m, stage, keys, i)
    requires ConflictFree(stage) && IsAfter(current, keys, i) && dir == Split(keys[i])[..|Split(keys[i])| - 1]
    ensures IsNewBelow(m, dir, Common(dir, current))
  {
    forall j | Common(dir, current) < j <= |dir| ensures IsNew(m, dir[..j]) {
      assert dir[..j] == Split(keys[i])[..j];
      NothingThere(m, stage, keys, i, dir[..j], current, j, dir);
      NoTreeThere(m, stage, keys, i, dir[..j]);
    }
  }

  lemma NothingThere(m: Stage, stage: map<string, Leaf>, keys: seq<string>, i: nat, d: seq<string>,
                     current: seq<string>, j: nat, dir: seq<string>)
    requires i < |keys| && StrictlySorted(keys) && (forall ps | ps in keys :: ps in stage)
    requires IsStageOf(m, stage, keys, i)
    requires IsAfter(current, keys, i) && IsBelow(Split(keys[i]), d) && j <= |dir| && d == dir[..j]
    requires Common(dir, current) < j
    ensures Under(m, d) == map[]
  {
    forall t ensures t !in Under(m, d) {
      if t != [] && d + t in m {
        LastIsBelow(m, stage, keys, i, d, t);
        CommonAtLeast(dir, current, j);
      }
    }
  }

  lemma LastIsBelow(m: Stage, stage: map<string, Leaf>, keys: seq<string>, i: nat, d: seq<string>, t: seq<string>)
    requires i < |keys| && StrictlySorted(keys) && (forall ps | ps in keys :: ps in stage)
    requires IsStageOf(m, stage, keys, i)
    requires IsBelow(Split(keys[i]), d) && t != [] && d + t in m
    ensures i > 0 && IsBelow(Split(keys[i - 1]), d)
    ensures forall current | IsAfter(current, keys, i) :: |d| <= |current| && current[..|d|] == d
  {
    var x :| 0 <= x < i && Split(keys[x]) == d + t;
    BelowLast(keys, i, x, d);
  }

  lemma NoTreeThere(m: Stage, stage: map<string, Leaf>, keys: seq<string>, i: nat, d: seq<string>)
    requires i < |keys| && (forall ps | ps in keys :: ps in stage) && IsStageOf(m, stage, keys, i)
    requires ConflictFree(stage)
    requires IsBelow(Split(keys[i]), d)
    ensures !(d in m && m[d].kind == Tree)
  {
    if d in m {
      var x :| 0 <= x < i && Split(keys[x]) == d;
      assert keys[x] in stage && keys[i] in stage;
    }
  }

  // What is below the directory of keys[i] after some earlier key is below it still before keys[i].
  lemma BelowLast(keys: seq<string>, i: nat, x: nat, d: seq<string>)
    requires x < i < |keys| && StrictlySorted(keys)
    requires IsBelow(Split(keys[x]), d) && IsBelow(Split(keys[i]), d)
    ensures IsBelow(Split(keys[i - 1]), d)
  {
    if x < i - 1 {
      Contiguous(keys[x], keys[i - 1], keys[i], d);
    }
  }

  lemma {:induction false} CommonAtLeast(p: seq<string>, q: seq<string>, j: nat)
    requires j <= |p| && j <= |q| && p[..j] == q[..j]
    ensures Common(p, q) >= j
  {
    if j > 0 {
      assert p[0] == p[..j][0] && q[0] == q[..j][0];
      assert p[1..][..j - 1] == p[..j][1..] && q[1..][..j - 1] == q[..j][1..];
      CommonAtLeast(p[1..], q[1..], j - 1);
    }
  }

  lemma {:induction false} ChainOfIds(hash: string -> string, n: nat) returns (ids: seq<Stage -> string>)
    ensures |ids| == n + 1 && ids[0] == Ids(hash, n) && IsChain(hash, ids)
  {
    hide Printed, Listing, Names, Under;
    ids := [Ids(hash, n)];
    if n > 0 {
      var rest := ChainOfIds(hash, n - 1);
      ids := ids + rest;
      forall j, s: Stage | 0 <= j < |ids| - 1 ensures ids[j](s) == hash(Printed(Listing(ids[j + 1], s))) {
        if j > 0 {
          assert rest[j - 1](s) == hash(Printed(Listing(rest[j], s)));
        } else {
          assert ids[0](s) == TreeId(hash, s, n - 1);
        }
      }
    }
  }

  lemma StageStep(m: Stage, stage: map<string, Leaf>, keys: seq<string>, i: nat)
    requires i < |keys| && StrictlySorted(keys) && (forall ps | ps in keys :: ps in stage)
    requires IsStageOf(m, stage, keys, i)
    requires FromHex(stage[keys[i]].id).Some?
    ensures IsStageOf(m[Split(keys[i]) := Leaf(FromHex(stage[keys[i]].id).value, stage[keys[i]].kind)], stage, keys,
        i + 1)
  {
    hide StrictlySorted, FromHex, Split;
    NotDone(m, stage, keys, i);
  }

  // m is the stage, by path and with raw ids.
  ghost predicate IsByPath(m: Stage, stage: map<string, Leaf>) {
    && (forall ps | ps in stage ::
          && FromHex(stage[ps].id).Some? && Split(ps) in m
          && m[Split(ps)] == Leaf(FromHex(stage[ps].id).value, stage[ps].kind))
    && (forall p | p in m :: exists ps :: ps in stage && Split(ps) == p)
  }

  lemma StageUnique(m: Stage, done: Stage, stage: map<string, Leaf>, keys: seq<string>)
    requires (forall ps :: ps in keys <==> ps in stage) && IsStageOf(done, stage, keys, |keys|) && IsByPath(m, stage)
    ensures m == done
  {
    forall p | p in m ensures p in done && done[p] == m[p] {
      var ps :| ps in stage && Split(ps) == p;
      var j :| 0 <= j < |keys| && keys[j] == ps;
    }
    forall p | p in done ensures p in m {
      var j :| 0 <= j < |keys| && Split(keys[j]) == p;
      assert keys[j] in stage;
    }
  }

  // The loop body of ArtifactsRoot.
  method AddNext(tree: PartialTree, stage: map<string, Leaf>, keys: seq<string>, i: nat) returns (ok: bool)
    requires i < |keys| && StrictlySorted(keys) && (forall ps | ps in keys :: ps in stage) && ConflictFree(stage)
    requires tree.Valid() && tree.Filled() && IsStageOf(tree.done, stage, keys, i) && IsAfter(tree.currentDir, keys, i)
    requires IsNormal(Split(keys[i])) && |Split(keys[i])| <= |tree.ids|
    modifies tree
    ensures ok <==> FromHex(stage[keys[i]].id).Some?
    ensures ok ==>
              tree.Valid() && tree.Filled() && IsStageOf(tree.done, stage, keys, i + 1)
                  && IsAfter(tree.currentDir, keys, i + 1)
  {
    var ps, leaf := keys[i], stage[keys[i]];
    NotDone(tree.done, stage, keys, i);
    NextDirsAreNew(tree.done, stage, keys, i, Split(ps)[..|Split(ps)| - 1], tree.currentDir);
    if leaf.kind == Tree {
      NothingUnderTree(tree.done, stage, keys, i);
    }
    if FromHex(leaf.id).Some? {
      StageStep(tree.done, stage, keys, i);
    }
    ok := tree.Add(ps, leaf.id, leaf.kind);
  }

  lemma RootIsTreeId(hash: string -> string, n: nat, stage: map<string, Leaf>, keys: seq<string>, done: Stage,
                     id: string)
    requires (forall ps :: ps in keys <==> ps in stage) && IsStageOf(done, stage, keys, |keys|)
    requires id == TreeId(hash, done, n)
    ensures forall m | IsByPath(m, stage) :: id == TreeId(hash, m, n)
    ensures forall ps | ps in stage :: FromHex(stage[ps].id).Some?
  {
    hide TreeId, FromHex, Split;
    forall m | IsByPath(m, stage) ensures id == TreeId(hash, m, n) {
      StageUnique(m, done, stage, keys);
    }
    forall ps | ps in stage ensures FromHex(stage[ps].id).Some? {
      var j :| 0 <= j < |keys| && keys[j] == ps;
    }
  }

  // The result is the id of the tree that groups the paths on their first segments, recursively; there
  // is one unless an id of the stage is not hexadecimal.
  method ArtifactsRoot(hash: string -> string, stage: map<string, Leaf>, ghost n: nat) returns (root: Option<string>)
    requires PathsOk(stage, n) && ConflictFree(stage) && forall content :: IsBytes(hash(content))
    ensures root.Some? <==> forall ps | ps in stage :: FromHex(stage[ps].id).Some?
    ensures forall m | root.Some? && IsByPath(m, stage) :: root.value == Hex(TreeId(hash, m, n))
  {
    ghost var ids := ChainOfIds(hash, n);
    var tree := new PartialTree(hash, ids);
    var keys := Sorted(stage.Keys);
    for i := 0 to |keys|
      invariant tree.Valid() && tree.Filled() && tree.hash == hash && tree.ids == ids
      invariant IsStageOf(tree.done, stage, keys, i) && IsAfter(tree.currentDir, keys, i)
    {
      var ok := AddNext(tree, stage, keys, i);
      if !ok {
        return None;
      }
    }
    var id := tree.Done();
    root := Some(Hex(id));
    RootIsTreeId(hash, n, stage, keys, tree.done, id);
  }
}
