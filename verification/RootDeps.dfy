// Which precomputed roots a repository depends on (src/buildtool/computed_roots/evaluate.cpp:90-139),
// and how evaluating those first arranges the guard under which keys are asked for.
module RootDeps {
  import opened Descriptions
  import opened KeyCache

  // b is met from a after following k bindings.
  ghost predicate Reaches(k: nat, repos: Configuration, a: string, b: string) {
    if k == 0 then a == b
    else a in repos && exists l | l in repos[a].info.nameMapping ::
        Reaches(k - 1, repos, repos[a].info.nameMapping[l], b)
  }

  ghost predicate Reachable(repos: Configuration, a: string, b: string) {
    exists k: nat :: Reaches(k, repos, a, b)
  }

  function KeyOf(root: Root): set<string> {
    if root.Precomputed? then {root.key} else {}
  }

  function OwnKeys(info: Info): (keys: set<string>)
    ensures forall k :: k in keys <==> info.Names(k)
    ensures keys == {} <==> info.IsResolved()
  {
    KeyOf(info.workspaceRoot) + KeyOf(info.targetRoot) + KeyOf(info.ruleRoot) + KeyOf(info.expressionRoot)
  }

  // A root of some known repository reachable from repo.
  ghost predicate DependsOn(repos: Configuration, repo: string, key: string) {
    exists n | n in repos :: Reachable(repos, repo, n) && repos[n].info.Names(key)
  }

  lemma ReachableStep(repos: Configuration, a: string, b: string, l: string)
    requires Reachable(repos, a, b) && b in repos && l in repos[b].info.nameMapping
    ensures Reachable(repos, a, repos[b].info.nameMapping[l])
  {
    var k: nat :| Reaches(k, repos, a, b);
    ReachesStep(k, repos, a, b, l);
  }

  lemma {:induction false} ReachesStep(k: nat, repos: Configuration, a: string, b: string, l: string)
    requires Reaches(k, repos, a, b) && b in repos && l in repos[b].info.nameMapping
    ensures Reaches(k + 1, repos, a, repos[b].info.nameMapping[l])
  {
    if k == 0 {
      assert Reaches(0, repos, repos[b].info.nameMapping[l], repos[b].info.nameMapping[l]);
    } else {
      var e :| e in repos[a].info.nameMapping && Reaches(k - 1, repos, repos[a].info.nameMapping[e], b);
      ReachesStep(k - 1, repos, repos[a].info.nameMapping[e], b, l);
    }
  }

  // The mutable arguments of the traversal.
  class Traversal {
    var roots: set<string>  // as a set: GetRootDeps sorts and deduplicates the list at the end
    var seen: set<string>

    constructor ()
      ensures roots == {} && seen == {}
    {
      roots, seen := {}, {};
    }

    // The roots collected are those of the known repositories seen.
    ghost predicate Collected(repos: Configuration)
      reads this
    {
      forall k :: k in roots <==> exists n | n in seen && n in repos :: repos[n].info.Names(k)
    }

    // All bindings of n lead to repositories seen.
    ghost predicate Expanded(repos: Configuration, n: string)
      reads this
    {
      n in repos ==> forall l | l in repos[n].info.nameMapping :: repos[n].info.nameMapping[l] in seen
    }

    method TraverseRepoForComputedRoots(name: string, repos: Configuration, ghost start: string)
      requires Collected(repos) && Reachable(repos, start, name)
      requires forall n | n in seen :: Reachable(repos, start, n)
      modifies this
      ensures Collected(repos) && old(seen) + {name} <= seen
      ensures forall n | n in seen :: Reachable(repos, start, n)
      ensures forall n | n in seen && n !in old(seen) :: Expanded(repos, n)
      decreases repos.Keys - seen
    {
      if name in seen {
        return;
      }
      seen := seen + {name};
      if name !in repos {
        return;  // unknown repositories are ignored
      }
      var info := repos[name].info;
      roots := roots + OwnKeys(info);
      label Entered:
      var rest := info.nameMapping.Keys;
      while rest != {}
        invariant rest <= info.nameMapping.Keys
        invariant Collected(repos) && old(seen) + {name} <= seen
        invariant forall n | n in seen :: Reachable(repos, start, n)
        invariant forall n | n in seen && n !in old(seen) && n != name :: Expanded(repos, n)
        invariant forall l | l in info.nameMapping && l !in rest :: info.nameMapping[l] in seen
      {
        var l :| l in rest;
        rest := rest - {l};
        ReachableStep(repos, start, name, l);
        TraverseRepoForComputedRoots(info.nameMapping[l], repos, start);
      }
    }
  }

  lemma {:induction false} ClosedReaches(k: nat, repos: Configuration, seen: set<string>, a: string, b: string)
    requires a in seen && Reaches(k, repos, a, b)
    requires forall n, l | n in seen && n in repos && l in repos[n].info.nameMapping ::
          repos[n].info.nameMapping[l] in seen
    ensures b in seen
  {
    if k > 0 {
      var l :| l in repos[a].info.nameMapping && Reaches(k - 1, repos, repos[a].info.nameMapping[l], b);
      ClosedReaches(k - 1, repos, seen, repos[a].info.nameMapping[l], b);
    }
  }

  // Exactly the precomputed roots of the known repositories in the closure.
  method GetRootDeps(name: string, repos: Configuration) returns (deps: set<string>)
    ensures forall k :: k in deps <==> DependsOn(repos, name, k)
    ensures deps == {} <==> Resolved(repos, name)
  {
    var t := new Traversal();
    assert Reaches(0, repos, name, name);
    t.TraverseRepoForComputedRoots(name, repos, name);
    deps := t.roots;
    forall n ensures n in t.seen <==> Reachable(repos, name, n) {
      if k: nat :| Reaches(k, repos, name, n) {
        assert forall m | m in t.seen :: t.Expanded(repos, m);
        ClosedReaches(k, repos, t.seen, name, n);
      }
    }
    ResolvedIffIndependent(repos, name);
    if deps == {} {
      assert forall k :: k !in deps;
    }
  }

  lemma {:induction false} ResolvedReaches(k: nat, repos: Configuration, a: string, b: string)
    requires Reaches(k, repos, a, b) && ResolvedTo(k + 1, repos, a) && b in repos
    ensures repos[b].info.IsResolved()
  {
    if k > 0 {
      var l :| l in repos[a].info.nameMapping && Reaches(k - 1, repos, repos[a].info.nameMapping[l], b);
      ResolvedReaches(k - 1, repos, repos[a].info.nameMapping[l], b);
    }
  }

  lemma {:induction false} ReachableResolved(k: nat, repos: Configuration, name: string, a: string)
    requires Reachable(repos, name, a)
    requires forall n | n in repos && Reachable(repos, name, n) :: repos[n].info.IsResolved()
    ensures ResolvedTo(k, repos, a)
  {
    if k > 0 && a in repos {
      forall l | l in repos[a].info.nameMapping ensures ResolvedTo(k - 1, repos, repos[a].info.nameMapping[l]) {
        ReachableStep(repos, name, a, l);
        ReachableResolved(k - 1, repos, name, repos[a].info.nameMapping[l]);
      }
    }
  }

  lemma ResolvedIffIndependent(repos: Configuration, name: string)
    ensures Resolved(repos, name) <==> forall k :: !DependsOn(repos, name, k)
  {
    if Resolved(repos, name) {
      forall key, n | n in repos && Reachable(repos, name, n) ensures !repos[n].info.Names(key) {
        var k: nat :| Reaches(k, repos, name, n);
        ResolvedReaches(k, repos, name, n);
      }
    }
    if forall k :: !DependsOn(repos, name, k) {
      forall n | n in repos && Reachable(repos, name, n) ensures repos[n].info.IsResolved() {
        forall k ensures !repos[n].info.Names(k) {
          assert !DependsOn(repos, name, k);
        }
        assert OwnKeys(repos[n].info) == {};
      }
      assert Reaches(0, repos, name, name);
      forall k: nat ensures ResolvedTo(k, repos, name) {
        ReachableResolved(k, repos, name, name);
      }
    }
  }

  // ---- FillRoots evaluates the roots a repository depends on before it asks for the key. ----

  function SetRoots(repos: Configuration, values: seq<(string, string)>): Configuration {
    if values == [] then repos
    else SetRoot(SetRoots(repos, values[..|values| - 1]), values[|values| - 1].0, values[|values| - 1].1)
  }

  lemma {:induction false} SetRootReaches(k: nat, repos: Configuration, key: string, value: string, a: string,
                                          b: string)
    ensures Reaches(k, SetRoot(repos, key, value), a, b) <==> Reaches(k, repos, a, b)
  {
    if k > 0 && a in repos {
      var next := repos[a].info.nameMapping;
      assert SetRoot(repos, key, value)[a].info.nameMapping == next;
      forall l | l in next ensures Reaches(k - 1, SetRoot(repos, key, value), next[l], b)
          <==> Reaches(k - 1, repos, next[l], b)
      {
        SetRootReaches(k - 1, repos, key, value, next[l], b);
      }
    }
  }

  // Setting a root removes exactly this root from what a repository depends on.
  lemma SetRootDependsOn(repos: Configuration, key: string, value: string, name: string, k: string)
    ensures DependsOn(SetRoot(repos, key, value), name, k) <==> DependsOn(repos, name, k) && k != key
  {
    var repos' := SetRoot(repos, key, value);
    forall n | n in repos
      ensures Reachable(repos', name, n) <==> Reachable(repos, name, n)
      ensures repos'[n].info.Names(k) <==> repos[n].info.Names(k) && k != key
    {
      forall j: nat ensures Reaches(j, repos', name, n) <==> Reaches(j, repos, name, n) {
        SetRootReaches(j, repos, key, value, name, n);
      }
    }
    if DependsOn(repos, name, k) && k != key {
      var n :| n in repos && Reachable(repos, name, n) && repos[n].info.Names(k);
      assert n in repos' && Reachable(repos', name, n) && repos'[n].info.Names(k);
    }
    if DependsOn(repos', name, k) {
      var n :| n in repos' && Reachable(repos', name, n) && repos'[n].info.Names(k);
      assert n in repos && Reachable(repos, name, n) && repos[n].info.Names(k);
    }
  }

  lemma {:induction false} SetRootsDependsOn(repos: Configuration, values: seq<(string, string)>, name: string,
                                             k: string)
    ensures DependsOn(SetRoots(repos, values), name, k) <==>
            DependsOn(repos, name, k) && forall i | 0 <= i < |values| :: values[i].0 != k
  {
    if values != [] {
      var last := |values| - 1;
      SetRootsDependsOn(repos, values[..last], name, k);
      SetRootDependsOn(SetRoots(repos, values[..last]), values[last].0, values[last].1, name, k);
    }
  }

  // Once all roots a repository depends on have been set, in any order and possibly among others,
  // its key may be asked for.
  lemma GuardArranged(repos: Configuration, name: string, deps: set<string>, values: seq<(string, string)>)
    requires forall k :: k in deps <==> DependsOn(repos, name, k)
    ensures Resolved(SetRoots(repos, values), name)
        <==> forall k | k in deps :: exists i :: 0 <= i < |values| && values[i].0 == k
  {
    forall k ensures DependsOn(SetRoots(repos, values), name, k) <==>
                     k in deps && forall i | 0 <= i < |values| :: values[i].0 != k
    {
      SetRootsDependsOn(repos, values, name, k);
    }
    ResolvedIffIndependent(SetRoots(repos, values), name);
  }
}
