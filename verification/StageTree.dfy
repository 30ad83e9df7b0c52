// The Git tree of a stage, by grouping the paths on their first segment, recursively: the meaning of
// ArtifactsRoot (src/buildtool/computed_roots/artifacts_root.cpp:141-196).
module StageTree {
  import opened GitTree
  import opened StagePaths

  // The files and trees of a stage, by path; ids are raw.
  type Stage = map<seq<string>, Leaf>

  ghost predicate IsStage(stage: Stage) {
    forall p | p in stage :: p != [] && NoSlashes(p)
  }

  // u is what lies below the directory p, by the path from there.
  ghost predicate IsUnder(u: Stage, stage: Stage, p: seq<string>) {
    && (forall t {:trigger t in u} :: t in u <==> t != [] && p + t in stage)
    && (forall t {:trigger u[t]} | t in u :: u[t] == stage[p + t])
  }

  lemma UnderExists(stage: Stage, p: seq<string>) returns (u: Stage)
    ensures IsUnder(u, stage, p)
  {
    var tails := set q | q in stage && IsBelow(q, p) :: q[|p|..];
    assert forall q | q in stage && IsBelow(q, p) :: q == p + q[|p|..];
    assert forall t | t != [] && p + t in stage :: IsBelow(p + t, p) && (p + t)[|p|..] == t;
    u := map t | t in tails :: stage[p + t];
  }

  ghost function Under(stage: Stage, p: seq<string>): (u: Stage)
    ensures IsUnder(u, stage, p)
  {
    assert exists u :: IsUnder(u, stage, p) by {
      var u := UnderExists(stage, p);
    }
    var u :| IsUnder(u, stage, p);
    u
  }

  lemma UnderNothing(stage: Stage)
    requires IsStage(stage)
    ensures Under(stage, []) == stage
  {
    assert forall t: seq<string> :: [] + t == t;
  }

  lemma UnderUnder(stage: Stage, p: seq<string>, q: seq<string>)
    ensures Under(Under(stage, p), q) == Under(stage, p + q)
  {
    assert forall t: seq<string> :: p + (q + t) == p + q + t;
  }

  lemma UnderIsStage(stage: Stage, p: seq<string>)
    requires IsStage(stage)
    ensures IsStage(Under(stage, p))
  {
    forall t | t in Under(stage, p) ensures t != [] && NoSlashes(t) {
      assert p + t in stage;
      assert forall i | 0 <= i < |t| :: (p + t)[|p| + i] == t[i];
    }
  }

  // ---- The entries at the top of a stage ----

  ghost predicate HasDir(stage: Stage, d: string) {
    Under(stage, [d]) != map[]
  }

  // The name that a path is sorted by at the top: its own, or that of the directory it lies in.
  function KeyAt(stage: Stage, p: seq<string>): string
    requires p in stage && p != []
  {
    if |p| == 1 then SortName(p[0], stage[p].kind) else SortName(p[0], Tree)
  }

  function Names(stage: Stage): set<string> {
    set p | p in stage && p != [] :: KeyAt(stage, p)
  }

  // What the entry stands for; trees of directories are identified by id.
  ghost function EntryAt(id: Stage -> string, stage: Stage, k: string): Leaf {
    var d := if k == "" then "" else k[..|k| - 1];
    if k == d + "/" && HasDir(stage, d) then Leaf(id(Under(stage, [d])), Tree)
    else if k == d + "/" && [d] in stage then stage[[d]]
    else if [k] in stage then stage[[k]]
    else Leaf("", File)
  }

  // The entries of the top-level tree, by the names they are sorted by.
  ghost function Listing(id: Stage -> string, stage: Stage): map<string, Leaf> {
    map k | k in Names(stage) :: EntryAt(id, stage, k)
  }

  // ---- The tree of a stage ----

  // The ids of the trees of directories, down to n levels of directories in them.
  ghost function Ids(hash: string -> string, n: nat): Stage -> string
    decreases n, 0
  {
    (s: Stage) => if n == 0 then "" else TreeId(hash, s, n - 1)
  }

  // The id of the tree of a stage with at most n levels of directories.
  ghost function TreeId(hash: string -> string, stage: Stage, n: nat): string
    decreases n, 1
  {
    hash(Printed(Listing(Ids(hash, n), stage)))
  }

  // ---- How the listing changes with the stage ----

  lemma NameOfLeaf(stage: Stage, d: string)
    requires IsStage(stage) && d + "/" in Names(stage)
    ensures HasDir(stage, d) || ([d] in stage && stage[[d]].kind == Tree)
  {
    var k := d + "/";
    var p :| p in stage && p != [] && KeyAt(stage, p) == k;
    assert '/' !in p[0];
    assert k[|k| - 1] == '/' && k[..|k| - 1] == d;
    assert k != p[0] by {
      assert k[|k| - 1] in k;
    }
    assert p[0] == d;
    if |p| > 1 {
      assert p == [d] + p[1..];
      assert p[1..] in Under(stage, [d]);
    } else {
      assert p == [d];
    }
  }

  lemma PlainName(stage: Stage, k: string)
    requires IsStage(stage) && k in Names(stage) && (k == "" || k[|k| - 1] != '/')
    ensures [k] in stage
  {
    var p :| p in stage && p != [] && KeyAt(stage, p) == k;
    assert p == [k];
  }

  lemma ListingKeys(id: Stage -> string, stage: Stage)
    ensures Listing(id, stage).Keys == Names(stage)
    ensures forall k | k in Names(stage) :: Listing(id, stage)[k] == EntryAt(id, stage, k)
  {
  }

  // A directory that is complete: the listing is what it was without the directory, and its tree.
  lemma ListingWithDir(id: Stage -> string, stage: Stage, d: string, below: Stage)
    requires below == Under(stage, [d]) && below != map[]
    ensures Listing(id, stage) == (Listing(id, stage) - {d + "/"})[d + "/" := Leaf(id(below), Tree)]
  {
    var t :| t in below;
    var p := [d] + t;
    assert p in stage && KeyAt(stage, p) == d + "/";
    assert (d + "/")[..|d + "/"| - 1] == d;
    ListingKeys(id, stage);
    SameUpTo(Listing(id, stage) - {d + "/"}, Listing(id, stage), d + "/");
  }

  lemma SameUpTo<K, V>(m: map<K, V>, m': map<K, V>, key: K)
    requires m' - {key} == m - {key} && key in m'
    ensures m' == m[key := m'[key]]
  {
    forall k | k != key ensures k in m' <==> k in m {
      assert k in m' - {key} <==> k in m - {key};
    }
    forall k | k in m' && k != key ensures m'[k] == m[k] {
      assert (m' - {key})[k] == (m - {key})[k];
    }
  }

  // A directory that is not there is not listed.
  lemma ListingWithoutDir(id: Stage -> string, stage: Stage, d: string)
    requires IsStage(stage) && Under(stage, [d]) == map[] && !([d] in stage && stage[[d]].kind == Tree)
    ensures Listing(id, stage) - {d + "/"} == Listing(id, stage)
  {
    ListingKeys(id, stage);
    if d + "/" in Names(stage) {
      NameOfLeaf(stage, d);
    }
  }

  lemma NotListed(id: Stage -> string, stage: Stage, name: string, kind: ObjectType)
    requires IsStage(stage) && [name] !in stage && '/' !in name && (kind == Tree ==> Under(stage, [name]) == map[])
    ensures SortName(name, kind) !in Listing(id, stage)
  {
    ListingKeys(id, stage);
    if SortName(name, kind) in Names(stage) {
      if kind == Tree {
        NameOfLeaf(stage, name);
      } else {
        assert name != "" ==> name[|name| - 1] in name;
        PlainName(stage, name);
      }
    }
  }

  lemma UnderAdded(stage: Stage, q: seq<string>, leaf: Leaf, p: seq<string>)
    ensures Under(stage[q := leaf], p) == if IsBelow(q, p) then Under(stage, p)[q[|p|..] := leaf] else Under(stage, p)
  {
    if IsBelow(q, p) {
      assert q == p + q[|p|..];
      assert forall t: seq<string> | p + t == q :: t == q[|p|..] by {
        assert forall t: seq<string> :: (p + t)[|p|..] == t;
      }
    } else {
      assert forall t: seq<string> | t != [] :: IsBelow(p + t, p);
    }
  }

  // Listings that differ at one name at most.
  lemma ListingsDifferAt(id: Stage -> string, stage: Stage, stage': Stage, key: string)
    requires Names(stage') - {key} == Names(stage) - {key}
    requires forall k | k in Names(stage) && k != key :: EntryAt(id, stage, k) == EntryAt(id, stage', k)
    ensures Listing(id, stage') - {key} == Listing(id, stage) - {key}
  {
    var L, L' := Listing(id, stage), Listing(id, stage');
    ListingKeys(id, stage);
    ListingKeys(id, stage');
    forall k | k != key ensures k in L' <==> k in L {
      assert k in Names(stage') - {key} <==> k in Names(stage) - {key};
    }
  }

  lemma NamesAdded(stage: Stage, q: seq<string>, leaf: Leaf)
    requires q != [] && q !in stage
    ensures Names(stage[q := leaf]) == Names(stage) + {KeyAt(stage[q := leaf], q)}
  {
    var stage' := stage[q := leaf];
    forall k | k in Names(stage) ensures k in Names(stage') {
      var p :| p in stage && p != [] && KeyAt(stage, p) == k;
      assert p in stage' && KeyAt(stage', p) == k;
    }
    forall k | k in Names(stage') && k != KeyAt(stage', q) ensures k in Names(stage) {
      var p :| p in stage' && p != [] && KeyAt(stage', p) == k;
      assert p in stage && KeyAt(stage, p) == k;
    }
    assert q in stage';
  }

  // A new path changes only the entry with its name.
  lemma EntriesAdded(id: Stage -> string, stage: Stage, q: seq<string>, leaf: Leaf, k: string)
    requires IsStage(stage) && q != [] && NoSlashes(q) && q !in stage && k in Names(stage)
    requires k != KeyAt(stage[q := leaf], q)
    ensures EntryAt(id, stage, k) == EntryAt(id, stage[q := leaf], k)
  {
    var stage' := stage[q := leaf];
    var d := if k == "" then "" else k[..|k| - 1];
    UnderAdded(stage, q, leaf, [d]);
    if k == d + "/" {
      NameOfLeaf(stage, d);
    } else {
      PlainName(stage, k);
    }
  }

  // A path below a directory changes nothing but the tree of that directory.
  lemma ListingBelow(id: Stage -> string, stage: Stage, q: seq<string>, leaf: Leaf, stage': Stage)
    requires IsStage(stage) && 1 < |q| && NoSlashes(q) && q !in stage && stage' == stage[q := leaf]
    ensures Listing(id, stage') - {q[0] + "/"} == Listing(id, stage) - {q[0] + "/"}
  {
    NamesAdded(stage, q, leaf);
    forall k | k in Names(stage) && k != q[0] + "/" ensures EntryAt(id, stage, k) == EntryAt(id, stage', k) {
      EntriesAdded(id, stage, q, leaf, k);
    }
    ListingsDifferAt(id, stage, stage', q[0] + "/");
  }

  // A file or tree at the top is listed with its name.
  lemma ListingWithLeaf(id: Stage -> string, stage: Stage, name: string, leaf: Leaf, stage': Stage)
    requires IsStage(stage) && '/' !in name && [name] !in stage && (leaf.kind == Tree ==> Under(stage, [name]) == map[])
    requires stage' == stage[[name] := leaf]
    ensures Listing(id, stage') == Listing(id, stage)[SortName(name, leaf.kind) := leaf]
  {
    var key := SortName(name, leaf.kind);
    NamesAdded(stage, [name], leaf);
    forall k | k in Names(stage) && k != key ensures EntryAt(id, stage, k) == EntryAt(id, stage', k) {
      EntriesAdded(id, stage, [name], leaf, k);
    }
    ListingsDifferAt(id, stage, stage', key);
    UnderAdded(stage, [name], leaf, [name]);
    LeafEntry(id, stage', name);
    ListingKeys(id, stage');
    SameUpTo(Listing(id, stage), Listing(id, stage'), key);
  }

  lemma LeafEntry(id: Stage -> string, stage: Stage, name: string)
    requires [name] in stage && '/' !in name && (stage[[name]].kind == Tree ==> !HasDir(stage, name))
    ensures EntryAt(id, stage, SortName(name, stage[[name]].kind)) == stage[[name]]
  {
    var key := SortName(name, stage[[name]].kind);
    if stage[[name]].kind == Tree {
      assert key[..|key| - 1] == name;
    } else if name != "" {
      assert name[|name| - 1] in name;
    }
  }
}
