// The cache of Git trees known to be free of upwards symlinks
// (src/buildtool/file_system/git_tree_utils.cpp:30-121, src/buildtool/file_system/git_tree.cpp:54-176):
// marker files, in as many generations as the garbage collector keeps.
module ValidTrees {
  import opened Wrappers
  import opened GitTree
  import opened NonUpwards
  import opened StagePaths

  datatype Object = TreeObject(entries: map<string, Leaf>) | BlobObject(data: string)

  // What the ids stand for, whether or not the objects are at hand. An id is the hash of what it
  // stands for, so no tree lies below itself.
  type Contents = map<string, Object>

  ghost predicate Acyclic(contents: Contents, rank: string -> nat) {
    forall id, name | id in contents && contents[id].TreeObject? && name in contents[id].entries ::
      contents[id].entries[name].kind == Tree ==> rank(contents[id].entries[name].id) < rank(id)
  }

  // The check of a symlink: its target is non-upwards. (An id of a tree passes as well.)
  predicate SymlinkOk(contents: Contents, id: string) {
    id in contents && (contents[id].BlobObject? ==> PathIsNonUpwards(contents[id].data))
  }

  // A tree that is recursively free of upwards symlinks.
  ghost predicate IsValid(contents: Contents, rank: string -> nat, id: string)
    requires Acyclic(contents, rank)
    decreases rank(id)
  {
    && id in contents && contents[id].TreeObject?
    && forall name | name in contents[id].entries ::
         var entry := contents[id].entries[name];
         && (entry.kind == Symlink ==> SymlinkOk(contents, entry.id))
         && (entry.kind == Tree ==> IsValid(contents, rank, entry.id))
  }

  // Following the names of subtrees leads to the entry e.
  ghost predicate LeadsTo(contents: Contents, id: string, path: seq<string>, e: Leaf)
    decreases |path|
  {
    && path != [] && id in contents && contents[id].TreeObject? && path[0] in contents[id].entries
    && var entry := contents[id].entries[path[0]];
       if |path| == 1 then e == entry else entry.kind == Tree && LeadsTo(contents, entry.id, path[1..], e)
  }

  ghost predicate IsTreeObject(contents: Contents, id: string) {
    id in contents && contents[id].TreeObject?
  }

  // The target is relative, and following it never leaves the directory where it starts.
  ghost predicate NeverLeaves(target: string) {
    (target == "" || target[0] != '/') && StaysBelow(Split(target))
  }

  // Wherever paths lead, subtrees are trees and symlinks never leave their directories.
  ghost predicate IsHarmless(contents: Contents, e: Leaf) {
    && (e.kind == Tree ==> IsTreeObject(contents, e.id))
    && (e.kind == Symlink ==>
          e.id in contents && (contents[e.id].BlobObject? ==> NeverLeaves(contents[e.id].data)))
  }

  ghost predicate AllHarmless(contents: Contents, id: string) {
    IsTreeObject(contents, id) && forall path, e | LeadsTo(contents, id, path, e) :: IsHarmless(contents, e)
  }

  lemma {:induction false} ValidIsHarmless(contents: Contents, rank: string -> nat, id: string, path: seq<string>,
                                           e: Leaf)
    requires Acyclic(contents, rank) && IsValid(contents, rank, id) && LeadsTo(contents, id, path, e)
    ensures IsHarmless(contents, e)
    decreases |path|
  {
    var entry := contents[id].entries[path[0]];
    if |path| > 1 {
      ValidIsHarmless(contents, rank, entry.id, path[1..], e);
    } else if e.kind == Symlink && contents[e.id].BlobObject? {
      NonUpwardsStaysBelow(contents[e.id].data);
    }
  }

  lemma {:induction false} HarmlessIsValid(contents: Contents, rank: string -> nat, id: string)
    requires Acyclic(contents, rank) && AllHarmless(contents, id)
    ensures IsValid(contents, rank, id)
    decreases rank(id)
  {
    forall name | name in contents[id].entries
      ensures
        var entry := contents[id].entries[name];
        && (entry.kind == Symlink ==> SymlinkOk(contents, entry.id))
        && (entry.kind == Tree ==> IsValid(contents, rank, entry.id))
    {
      var entry := contents[id].entries[name];
      assert LeadsTo(contents, id, [name], entry);
      if entry.kind == Symlink && contents[entry.id].BlobObject? {
        NonUpwardsStaysBelow(contents[entry.id].data);
      }
      if entry.kind == Tree {
        forall path, e | LeadsTo(contents, entry.id, path, e) ensures IsHarmless(contents, e) {
          assert ([name] + path)[1..] == path;
          assert LeadsTo(contents, id, [name] + path, e);
        }
        HarmlessIsValid(contents, rank, entry.id);
      }
    }
  }

  // A tree is valid exactly if no path in it leads to a symlink that leaves the directory it is in, or to
  // a subtree that is none.
  lemma ValidIffHarmless(contents: Contents, rank: string -> nat, id: string)
    requires Acyclic(contents, rank)
    ensures IsValid(contents, rank, id) <==> AllHarmless(contents, id)
  {
    if IsValid(contents, rank, id) {
      forall path, e | LeadsTo(contents, id, path, e) ensures IsHarmless(contents, e) {
        ValidIsHarmless(contents, rank, id, path, e);
      }
    }
    if AllHarmless(contents, id) {
      HarmlessIsValid(contents, rank, id);
    }
  }

  // All objects that a validation may have to read are at hand, and all markers can be written.
  ghost predicate IsReady(contents: Contents, rank: string -> nat, available: set<string>, unwritable: set<string>,
                          id: string)
    requires Acyclic(contents, rank)
    decreases rank(id)
  {
    && id in available && id !in unwritable
    && (id in contents && contents[id].TreeObject? ==> forall name | name in contents[id].entries ::
          var entry := contents[id].entries[name];
          && (entry.kind == Symlink ==> entry.id in available)
          && (entry.kind == Tree ==> IsReady(contents, rank, available, unwritable, entry.id)))
  }

  class ValidTreeCache {
    const contents: Contents
    ghost const rank: string -> nat
    var available: set<string>          // the objects in the Git repository
    var unwritable: set<string>         // the trees for which marking fails
    var generations: seq<set<string>>   // the trees marked, youngest generation first

    // Only valid trees are marked.
    ghost predicate Sound()
      reads this
    {
      && Acyclic(contents, rank) && |generations| > 0
      && forall g | 0 <= g < |generations| :: AllValid(generations[g])
    }

    ghost predicate AllValid(ids: set<string>)
      requires Acyclic(contents, rank)
    {
      forall id | id in ids :: IsValid(contents, rank, id)
    }

    // Markers are only added, in the youngest generation.
    twostate predicate Grows()
      reads this
    {
      && |generations| == |old(generations)| > 0
      && old(generations)[0] <= generations[0] && generations[1..] == old(generations)[1..]
    }

    constructor (contents: Contents, ghost rank: string -> nat, numGenerations: nat)
      requires Acyclic(contents, rank) && numGenerations > 0
      ensures Sound() && this.contents == contents && this.rank == rank && |generations| == numGenerations
    {
      this.contents, this.rank := contents, rank;
      available, unwritable := {}, {};
      generations := seq(numGenerations, _ => {});
    }

    method MarkTreeValid(id: string) returns (ok: bool)
      requires Sound() && IsValid(contents, rank, id)
      modifies this`generations
      ensures Sound() && Grows() && ok == (id !in unwritable) && (ok ==> id in generations[0])
    {
      if id in unwritable {
        return false;
      }
      generations := generations[0 := generations[0] + {id}];
      ok := true;
    }

    ghost predicate IsMarked(id: string)
      reads this
    {
      exists g :: 0 <= g < |generations| && id in generations[g]
    }

    // A marker of an older generation is renewed, so that it outlives that generation.
    method IsTreeValid(id: string) returns (ok: bool)
      requires Sound()
      modifies this`generations
      ensures Sound() && Grows()
      ensures ok <==> old(id in generations[0] || (IsMarked(id) && id !in unwritable))
      ensures ok ==> IsValid(contents, rank, id) && id in generations[0]
    {
      for generation := 0 to |generations|
        invariant generations == old(generations)
        invariant forall g | 0 <= g < generation :: id !in generations[g]
      {
        if id in generations[generation] {
          assert AllValid(generations[generation]);
          if generation == 0 {
            return true;
          }
          ok := MarkTreeValid(id);
          return;
        }
      }
      ok := false;
    }

    // GitRepo::ReadTree with the SymlinksChecker: the entries of an object that is at hand and a tree,
    // if all its symlinks are at hand and non-upwards.
    function ReadTree(id: string): (r: Option<map<string, Leaf>>)
      reads this
    {
      if id !in available || id !in contents || contents[id].BlobObject? then None
      else
        var entries := contents[id].entries;
        if forall name | name in entries && entries[name].kind == Symlink ::
            entries[name].id in available && SymlinkOk(contents, entries[name].id)
        then Some(entries) else None
    }

    ghost predicate SubtreesValid(entries: map<string, Leaf>)
      requires Acyclic(contents, rank)
    {
      forall name | name in entries && entries[name].kind == Tree :: IsValid(contents, rank, entries[name].id)
    }

    ghost predicate SubtreesReady(entries: map<string, Leaf>)
      requires Acyclic(contents, rank)
      reads this
    {
      forall name | name in entries && entries[name].kind == Tree ::
          IsReady(contents, rank, available, unwritable, entries[name].id)
    }

    // Whatever the order in which the entries are met.
    method ValidateGitSubtrees(entries: map<string, Leaf>, ghost bound: nat) returns (ok: bool)
      requires Sound() && forall name | name in entries && entries[name].kind == Tree :: rank(entries[name].id) < bound
      modifies this`generations
      ensures Sound() && Grows()
      ensures ok ==> SubtreesValid(entries)
      ensures old(SubtreesReady(entries)) && SubtreesValid(entries) ==> ok
      decreases bound
    {
      var todo := entries.Keys;
      while todo != {}
        invariant Sound() && Grows() && todo <= entries.Keys
        invariant forall name | name in entries && name !in todo && entries[name].kind == Tree ::
              IsValid(contents, rank, entries[name].id)
      {
        var path :| path in todo;
        var entry := entries[path];
        if entry.kind == Tree {
          var valid := ValidateSubtree(entry.id, bound);
          if !valid {
            return false;
          }
        }
        todo := todo - {path};
      }
      ok := true;
    }

    // The loop body of ValidateGitSubtrees, for an entry that is a tree.
    method ValidateSubtree(id: string, ghost bound: nat) returns (ok: bool)
      requires Sound() && rank(id) < bound
      modifies this`generations
      ensures Sound() && Grows()
      ensures ok ==> IsValid(contents, rank, id)
      ensures old(IsReady(contents, rank, available, unwritable, id)) && IsValid(contents, rank, id) ==> ok
      decreases bound, 0
    {
      ok := IsTreeValid(id);
      if !ok {
        var subtree := ReadTree(id);
        if subtree.Some? {
          var valid := ValidateGitSubtrees(subtree.value, rank(id));
          if valid {
            ok := MarkTreeValid(id);
          }
        }
      }
    }

    // IsGitTreeValid: true only for trees that are recursively free of upwards symlinks, and for all of
    // them if the objects are at hand and markers can be written.
    method IsGitTreeValid(id: string) returns (ok: bool)
      requires Sound()
      modifies this`generations
      ensures Sound() && Grows()
      ensures ok ==> IsValid(contents, rank, id) && id in generations[0]
      ensures old(IsReady(contents, rank, available, unwritable, id)) ==> (ok <==> IsValid(contents, rank, id))
    {
      ok := IsTreeValid(id);
      if !ok {
        var tree := ReadTree(id);
        if tree.Some? {
          var valid := ValidateGitSubtrees(tree.value, rank(id));
          if valid {
            ok := MarkTreeValid(id);
          }
        }
      }
    }

    // ReadValidGitCASTree: the entries of the tree, under the same conditions; a marked tree is read
    // without any check.
    method ReadValidGitCASTree(id: string) returns (tree: Option<map<string, Leaf>>)
      requires Sound()
      modifies this`generations
      ensures Sound() && Grows()
      ensures tree.Some? ==> IsValid(contents, rank, id) && id in generations[0] && tree.value == contents[id].entries
      ensures old(IsReady(contents, rank, available, unwritable, id)) ==> (tree.Some? <==> IsValid(contents, rank, id))
    {
      var marked := IsTreeValid(id);
      if marked {
        return if id in available && id in contents && contents[id].TreeObject? then Some(contents[id].entries)
            else None;
      }
      tree := ReadTree(id);
      if tree.Some? {
        var valid := ValidateGitSubtrees(tree.value, rank(id));
        if valid {
          valid := MarkTreeValid(id);
        }
        if !valid {
          tree := None;
        }
      }
    }

    // Garbage collection drops the oldest generation; a tree that was asked for since the last but one
    // collection stays marked.
    method Rotate()
      requires Sound()
      modifies this`generations
      ensures Sound() && |generations| == |old(generations)|
      ensures generations[0] == {} && forall g | 0 < g < |generations| :: generations[g] == old(generations)[g - 1]
      ensures forall id | old(id in generations[0]) && |generations| > 1 :: IsMarked(id)
    {
      ghost var before := generations;
      generations := [{}] + generations[..|generations| - 1];
      forall g | 0 <= g < |generations| ensures AllValid(generations[g]) {
        assert g > 0 ==> AllValid(before[g - 1]);
      }
      assert |generations| > 1 ==> generations[1] == before[0];
    }
  }
}
