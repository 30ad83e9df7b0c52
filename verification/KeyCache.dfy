// The caches of RepositoryConfig as values: per repository the base description and the cached
// key, and the map of duplicates. Setting a precomputed root drops the map of duplicates but only
// the keys of the repositories whose own roots change.
module KeyCache {
  import opened Wrappers
  import opened ByteOrder
  import opened Bisimulation
  import opened DfaMinimizer
  import opened RepositoryGraph
  import opened Descriptions

  // A key is the digest of the serialised graph; digest and serialisation are taken to be
  // injective, so the graph stands for it. key.Some? means that a value has been cached, and that
  // value is None if the repository was found not to be content-fixed.
  datatype Data = Data(info: Info, baseDesc: Option<BaseDescription>, key: Option<Option<Graph>>)

  type Configuration = map<string, Data>

  datatype Caches = Caches(repos: Configuration, duplicates: Option<Representatives>)

  // SetInfo creates entries with matching base description.
  ghost predicate Described(repos: Configuration) {
    forall n | n in repos :: repos[n].baseDesc == repos[n].info.BaseContentDescription()
  }

  function View(repos: Configuration): Repositories {
    map n | n in repos && repos[n].baseDesc.Some? :: State(repos[n].baseDesc.value, repos[n].info.nameMapping)
  }

  // The key of a repository, computed from scratch with the given representatives.
  function Key(repos: Configuration, bis: Representatives, repo: string): Option<Graph> {
    BuildGraph(View(repos), bis, Representative(bis, repo))
  }

  // k is what a recomputation would give, whichever representatives it picked.
  ghost predicate IsFresh(repos: Configuration, repo: string, k: Option<Graph>) {
    forall bis | IsQuotient(View(repos), bis) :: k == Key(repos, bis, repo)
  }

  ghost predicate KeysFresh(repos: Configuration) {
    forall n | n in repos && repos[n].key.Some? :: IsFresh(repos, n, repos[n].key.value)
  }

  // No precomputed root is met k bindings deep; unknown repositories are ignored, as they are by
  // TraverseRepoForComputedRoots.
  ghost predicate ResolvedTo(k: nat, repos: Configuration, repo: string) {
    || k == 0
    || repo !in repos
    || (repos[repo].info.IsResolved()
        && forall l | l in repos[repo].info.nameMapping :: ResolvedTo(k - 1, repos, repos[repo].info.nameMapping[l]))
  }

  ghost predicate Resolved(repos: Configuration, repo: string) {
    forall k: nat :: ResolvedTo(k, repos, repo)
  }

  // The invariant: everything cached is what would be recomputed, and keys are cached only for
  // repositories that depend on no precomputed root.
  ghost predicate Coherent(c: Caches) {
    && Described(c.repos)
    && (c.duplicates.Some? ==> IsQuotient(View(c.repos), c.duplicates.value))
    && KeysFresh(c.repos)
    && forall n | n in c.repos && c.repos[n].key.Some? :: Resolved(c.repos, n)
  }

  // ---- The two operations ----

  function SetRoot(repos: Configuration, key: string, value: string): Configuration {
    map n | n in repos ::
      if repos[n].info.Names(key) then
        var info := repos[n].info.Replace(key, value);
        Data(info, info.BaseContentDescription(), None)
      else repos[n]
  }

  function SetPrecomputedRoot(c: Caches, key: string, value: string): Caches {
    Caches(SetRoot(c.repos, key, value),
           if exists n | n in c.repos :: c.repos[n].info.Names(key) then None else c.duplicates)
  }

  // RepositoryKey, when the duplicates in use are bis.
  function AskKey(c: Caches, bis: Representatives, repo: string): (Caches, Option<Graph>) {
    var unique := Representative(bis, repo);
    if unique !in c.repos then (c.(duplicates := Some(bis)), None)
    else if c.repos[unique].key.Some? then (c.(duplicates := Some(bis)), c.repos[unique].key.value)
    else
      var key := BuildGraph(View(c.repos), bis, unique);
      (Caches(c.repos[unique := c.repos[unique].(key := Some(key))], Some(bis)), key)
  }

  // bis are the cached duplicates, or freshly computed ones if there are none.
  ghost predicate InUse(c: Caches, bis: Representatives) {
    IsQuotient(View(c.repos), bis) && (c.duplicates.Some? ==> c.duplicates.value == bis)
  }

  // ---- Asking for a key ----

  lemma {:induction false} ResolvedSame(k: nat, repos: Configuration, a: string, b: string)
    requires Described(repos) && Same(k, View(repos), a, b) && ResolvedTo(k, repos, a)
    ensures ResolvedTo(k, repos, b)
  {
    if a != b && k > 0 {
      var next := repos[b].info.nameMapping;
      forall l | l in next ensures ResolvedTo(k - 1, repos, next[l]) {
        ResolvedSame(k - 1, repos, repos[a].info.nameMapping[l], next[l]);
      }
    }
  }

  // The graph does not depend on which member of its class is asked for.
  lemma KeyOfRepresentative(repos: Configuration, bis: Representatives, bis': Representatives, repo: string)
    requires IsQuotient(View(repos), bis) && IsQuotient(View(repos), bis')
    ensures Key(repos, bis, repo) == Key(repos, bis', repo)
    ensures Key(repos, bis, repo) == Key(repos, bis, Representative(bis, repo))
    ensures Key(repos, bis, repo) == BuildGraph(View(repos), bis, repo)
  {
    var sys, u, u' := View(repos), Representative(bis, repo), Representative(bis', repo);
    assert Indistinguishable(sys, repo, u) && Indistinguishable(sys, repo, u');
    assert Representative(bis, u) == u && Representative(bis', u') == u';
    GraphExistsIffContentFixed(sys, bis, bis', repo);
  }

  lemma RepresentativeResolved(repos: Configuration, bis: Representatives, repo: string)
    requires Described(repos) && IsQuotient(View(repos), bis) && Resolved(repos, repo)
    ensures Resolved(repos, Representative(bis, repo))
    ensures Representative(bis, repo) !in repos ==> BuildGraph(View(repos), bis, Representative(bis, repo)) == None
  {
    var unique := Representative(bis, repo);
    assert Indistinguishable(View(repos), repo, unique);
    forall j: nat ensures ResolvedTo(j, repos, unique) {
      ResolvedSame(j, repos, repo, unique);
    }
    assert Representative(bis, unique) == unique;
  }

  lemma AskKeyCoherent(c: Caches, bis: Representatives, repo: string)
    requires Coherent(c) && InUse(c, bis) && Resolved(c.repos, repo)
    ensures Coherent(AskKey(c, bis, repo).0)
    ensures IsFresh(c.repos, repo, AskKey(c, bis, repo).1)
  {
    hide BuildGraph, Indistinguishable;
    var unique := Representative(bis, repo);
    var (c', k) := AskKey(c, bis, repo);
    assert View(c'.repos) == View(c.repos);
    RepresentativeResolved(c.repos, bis, repo);
    forall bis' | IsQuotient(View(c.repos), bis')
      ensures Key(c.repos, bis', repo) == BuildGraph(View(c.repos), bis, unique)
      ensures Key(c.repos, bis', unique) == BuildGraph(View(c.repos), bis, unique)
    {
      KeyOfRepresentative(c.repos, bis', bis, repo);
      KeyOfRepresentative(c.repos, bis', bis, unique);
    }
    forall n | n in c'.repos && c'.repos[n].key.Some?
      ensures IsFresh(c'.repos, n, c'.repos[n].key.value) && Resolved(c'.repos, n)
    {
      assert n != unique ==> IsFresh(c.repos, n, c.repos[n].key.value);
      assert Resolved(c.repos, n);
      forall j: nat ensures ResolvedTo(j, c'.repos, n) {
        ResolvedUnderKeys(j, c.repos, c'.repos, n);
      }
    }
  }

  lemma {:induction false} ResolvedUnderKeys(k: nat, repos: Configuration, repos': Configuration, n: string)
    requires repos'.Keys == repos.Keys && forall m | m in repos :: repos'[m].info == repos[m].info
    requires ResolvedTo(k, repos, n)
    ensures ResolvedTo(k, repos', n)
  {
    if k > 0 && n in repos {
      forall l | l in repos[n].info.nameMapping ensures ResolvedTo(k - 1, repos', repos[n].info.nameMapping[l]) {
        ResolvedUnderKeys(k - 1, repos, repos', repos[n].info.nameMapping[l]);
      }
    }
  }

  // ---- Setting a precomputed root ----

  // Below a repository without precomputed roots in its closure, nothing changes.
  lemma {:induction false} SetRootBelowResolved(k: nat, repos: Configuration, key: string, value: string, n: string)
    requires Described(repos) && ResolvedTo(k, repos, n)
    ensures ResolvedTo(k, SetRoot(repos, key, value), n)
    ensures Complete(k, View(repos), n) <==> Complete(k, View(SetRoot(repos, key, value)), n)
    ensures Complete(k, View(repos), n) ==> Sim(k, View(repos), n, View(SetRoot(repos, key, value)), n)
  {
    if k > 0 && n in repos {
      var next := repos[n].info.nameMapping;
      forall l | l in next
        ensures ResolvedTo(k - 1, SetRoot(repos, key, value), next[l])
        ensures Complete(k - 1, View(repos), next[l]) <==> Complete(k - 1, View(SetRoot(repos, key, value)), next[l])
        ensures Complete(k - 1, View(repos), next[l]) ==>
                  Sim(k - 1, View(repos), next[l], View(SetRoot(repos, key, value)), next[l])
      {
        SetRootBelowResolved(k - 1, repos, key, value, next[l]);
      }
    }
  }

  lemma SetRootKeepsKey(repos: Configuration, key: string, value: string, n: string, bis: Representatives,
                        bis': Representatives)
    requires Described(repos) && Resolved(repos, n)
    requires IsQuotient(View(repos), bis) && IsQuotient(View(SetRoot(repos, key, value)), bis')
    ensures Resolved(SetRoot(repos, key, value), n)
    ensures Key(repos, bis, n) == Key(SetRoot(repos, key, value), bis', n)
  {
    var sys, sys' := View(repos), View(SetRoot(repos, key, value));
    KeyOfRepresentative(repos, bis, bis, n);
    KeyOfRepresentative(SetRoot(repos, key, value), bis', bis', n);
    GraphExistsIffContentFixed(sys, bis, bis, n);
    GraphExistsIffContentFixed(sys', bis', bis', n);
    forall k: nat
      ensures ResolvedTo(k, SetRoot(repos, key, value), n)
      ensures Complete(k, sys, n) <==> Complete(k, sys', n)
      ensures Complete(k, sys, n) ==> Sim(k, sys, n, sys', n)
    {
      SetRootBelowResolved(k, repos, key, value, n);
    }
    if ContentFixed(sys, n) {
      forall k: nat ensures Sim(k, sys, n, sys', n) {
        assert Complete(k, sys, n);
      }
      GraphIsCanonical(sys, bis, n, sys', bis', n);
    } else {
      var k: nat :| !Complete(k, sys, n);
      assert !Complete(k, sys', n);
    }
  }

  lemma SetPrecomputedRootCoherent(c: Caches, key: string, value: string)
    requires Coherent(c)
    ensures Coherent(SetPrecomputedRoot(c, key, value))
  {
    var c' := SetPrecomputedRoot(c, key, value);
    if c'.duplicates.Some? {
      assert c'.repos == c.repos;
    }
    forall n, bis' | n in c'.repos && c'.repos[n].key.Some? && IsQuotient(View(c'.repos), bis')
      ensures c'.repos[n].key.value == Key(c'.repos, bis', n)
    {
      assert c'.repos[n] == c.repos[n] && IsFresh(c.repos, n, c.repos[n].key.value);
      var bis := QuotientExists(View(c.repos));
      SetRootKeepsKey(c.repos, key, value, n, bis, bis');
    }
    forall n | n in c'.repos && c'.repos[n].key.Some? ensures Resolved(c'.repos, n) {
      forall k: nat ensures ResolvedTo(k, c'.repos, n) {
        assert Resolved(c.repos, n);
        SetRootBelowResolved(k, c.repos, key, value, n);
      }
    }
  }

  // Some choice of representatives always exists: the least member of each class.
  lemma QuotientExists(sys: Repositories) returns (bis: Representatives)
    ensures IsQuotient(sys, bis)
  {
    bis := map n | n in sys :: LeastAlike(sys, n);
    forall n ensures Indistinguishable(sys, n, Representative(bis, n)) {
    }
    forall a, b ensures Representative(bis, a) == Representative(bis, b) <==> Indistinguishable(sys, a, b) {
      assert Same(1, sys, a, b) || !Indistinguishable(sys, a, b);
      if Indistinguishable(sys, a, b) {
        IndistinguishableEquivalence(sys, a, b);
        IndistinguishableEquivalence(sys, b, a);
        if a in sys && b in sys {
          assert (set m | m in sys && Indistinguishable(sys, a, m)) == set m | m in sys && Indistinguishable(sys, b, m);
        }
      } else if Representative(bis, a) == Representative(bis, b) {
        IndistinguishableEquivalence(sys, b, Representative(bis, b));
        IndistinguishableEquivalence(sys, a, Representative(bis, a));
      }
    }
  }

  ghost function LeastAlike(sys: Repositories, n: string): (m: string)
    requires n in sys
    ensures Indistinguishable(sys, n, m) && m in sys
  {
    var alike := set m | m in sys && Indistinguishable(sys, n, m);
    assert n in alike;
    Least(alike)
  }

  // ---- Runs ----

  // One step of a run: some precomputed root becomes known, or a key is asked for under the guard
  // that FillRoots arranges, namely that the repository depends on no precomputed root.
  ghost predicate Step(c: Caches, c': Caches) {
    || (exists key, value :: c' == SetPrecomputedRoot(c, key, value))
    || (exists repo, bis :: InUse(c, bis) && Resolved(c.repos, repo) && c' == AskKey(c, bis, repo).0)
  }

  ghost predicate IsRun(run: seq<Caches>) {
    && run != []
    && Described(run[0].repos)
    && run[0].duplicates.None?
    && (forall n | n in run[0].repos :: run[0].repos[n].key.None?)
    && forall i | 0 <= i < |run| - 1 :: Step(run[i], run[i + 1])
  }

  // At every point of every run the caches hold what a recomputation would give.
  lemma {:induction false} RunsAreCoherent(run: seq<Caches>, i: nat)
    requires IsRun(run) && i < |run|
    ensures Coherent(run[i])
  {
    if i > 0 {
      RunsAreCoherent(run, i - 1);
      var c, c' := run[i - 1], run[i];
      assert Step(run[i - 1], run[i - 1 + 1]);
      if key, value :| c' == SetPrecomputedRoot(c, key, value) {
        SetPrecomputedRootCoherent(c, key, value);
      } else {
        var repo, bis :| InUse(c, bis) && Resolved(c.repos, repo) && c' == AskKey(c, bis, repo).0;
        AskKeyCoherent(c, bis, repo);
      }
    }
  }

  // ---- Without the guard ----

  // Everything reachable is content-fixed or has its missing roots given by the key.
  ghost predicate FixedUpTo(k: nat, repos: Configuration, key: string, n: string) {
    || k == 0
    || (&& n in repos && repos[n].info.IsFixedUpTo(key)
        && forall l | l in repos[n].info.nameMapping :: FixedUpTo(k - 1, repos, key, repos[n].info.nameMapping[l]))
  }

  // The repository is not content-fixed, but for want of this precomputed root only.
  ghost predicate Awaits(repos: Configuration, key: string, n: string) {
    !ContentFixed(View(repos), n) && forall k: nat :: FixedUpTo(k, repos, key, n)
  }

  lemma {:induction false} CompleteAfterSetRoot(k: nat, repos: Configuration, key: string, value: string, n: string)
    requires Described(repos)
    ensures Complete(k, View(SetRoot(repos, key, value)), n) <==> FixedUpTo(k, repos, key, n)
    ensures Complete(k, View(repos), n) ==> Sim(k, View(repos), n, View(SetRoot(repos, key, value)), n)
  {
    if k > 0 && n in repos {
      var next := repos[n].info.nameMapping;
      forall l | l in next
        ensures Complete(k - 1, View(SetRoot(repos, key, value)), next[l]) <==> FixedUpTo(k - 1, repos, key, next[l])
        ensures Complete(k - 1, View(repos), next[l]) ==>
                  Sim(k - 1, View(repos), next[l], View(SetRoot(repos, key, value)), next[l])
      {
        CompleteAfterSetRoot(k - 1, repos, key, value, next[l]);
      }
    }
  }

  lemma KeyAfterSetRoot(repos: Configuration, key: string, value: string, n: string, bis: Representatives,
                        bis': Representatives)
    requires Described(repos)
    requires IsQuotient(View(repos), bis) && IsQuotient(View(SetRoot(repos, key, value)), bis')
    ensures Key(repos, bis, n) == Key(SetRoot(repos, key, value), bis', n) <==> !Awaits(repos, key, n)
  {
    var sys, sys' := View(repos), View(SetRoot(repos, key, value));
    KeyOfRepresentative(repos, bis, bis, n);
    KeyOfRepresentative(SetRoot(repos, key, value), bis', bis', n);
    GraphExistsIffContentFixed(sys, bis, bis, n);
    GraphExistsIffContentFixed(sys', bis', bis', n);
    forall k: nat
      ensures Complete(k, sys', n) <==> FixedUpTo(k, repos, key, n)
      ensures Complete(k, sys, n) ==> Sim(k, sys, n, sys', n)
    {
      CompleteAfterSetRoot(k, repos, key, value, n);
    }
    if ContentFixed(sys, n) {
      forall k: nat ensures Sim(k, sys, n, sys', n) {
        assert Complete(k, sys, n);
      }
      GraphIsCanonical(sys, bis, n, sys', bis', n);
    } else {
      if forall k: nat :: FixedUpTo(k, repos, key, n) {
        assert ContentFixed(sys', n);
      } else {
        var k: nat :| !FixedUpTo(k, repos, key, n);
        assert !Complete(k, sys', n);
      }
    }
  }

  // If keys have been asked for freely, SetPrecomputedRoot leaves a stale key exactly if some
  // repository with a cached key awaits that root without naming it itself.
  lemma UnguardedSetRoot(repos: Configuration, key: string, value: string)
    requires Described(repos) && KeysFresh(repos)
    ensures KeysFresh(SetRoot(repos, key, value)) <==>
            !exists n :: n in repos && repos[n].key.Some? && !repos[n].info.Names(key) && Awaits(repos, key, n)
  {
    var repos' := SetRoot(repos, key, value);
    var bis := QuotientExists(View(repos));
    var bis' := QuotientExists(View(repos'));
    forall n | n in repos && repos[n].key.Some? && !repos[n].info.Names(key)
      ensures IsFresh(repos', n, repos[n].key.value) <==> !Awaits(repos, key, n)
    {
      assert IsFresh(repos, n, repos[n].key.value);
      KeyAfterSetRoot(repos, key, value, n, bis, bis');
      forall bis'' | IsQuotient(View(repos'), bis'') ensures Key(repos', bis'', n) == Key(repos', bis', n) {
        KeyOfRepresentative(repos', bis'', bis', n);
      }
    }
    if n :| n in repos && repos[n].key.Some? && !repos[n].info.Names(key) && Awaits(repos, key, n) {
      assert repos'[n] == repos[n];
    }
  }

  // Such configurations exist: "a" binds "b", whose root is still to be computed. A key asked for
  // "a" before that is cached as missing and stays so.
  function StaleExample(): Configuration {
    WithKey(Some(None))
  }

  function WithKey(key: Option<Option<Graph>>): Configuration {
    var fixed := Fixed("tree");
    map["a" := Data(Info(fixed, fixed, fixed, fixed, map["dep" := "b"], "T", "R", "E"),
                    Some(BaseDescription("tree", "tree", "tree", "tree", "T", "R", "E")), key),
        "b" := Data(Info(Precomputed("root"), fixed, fixed, fixed, map[], "T", "R", "E"), None, None)]
  }

  // "a" has no key before the root is computed, whatever represents it.
  lemma NoKeyYet(repos: Configuration, bis: Representatives)
    requires (repos == WithKey(None) || repos == StaleExample()) && IsQuotient(View(repos), bis)
    ensures Representative(bis, "a") == "a" && BuildGraph(View(repos), bis, "a") == None
  {
    var sys, unique := View(repos), Representative(bis, "a");
    assert !Complete(1, sys, "b");
    assert !Complete(2, sys, "a") by {
      assert sys["a"].next["dep"] == "b";
    }
    assert Indistinguishable(sys, "a", unique) && Same(1, sys, "a", unique);
    KeyOfRepresentative(repos, bis, bis, "a");
    GraphExistsIffContentFixed(sys, bis, bis, "a");
  }

  lemma StillAwaiting()
    ensures Coherent(Caches(WithKey(None), None)) && !Resolved(WithKey(None), "a")
  {
    var repos := WithKey(None);
    assert !ResolvedTo(1, repos, "b") && !ResolvedTo(2, repos, "a") by {
      assert repos["a"].info.nameMapping["dep"] == "b";
    }
  }

  // Asking for the key of "a" leads there from coherent caches without any key; as "a" has a
  // precomputed root in its closure, this is not what the guard allows.
  lemma StaleKeyIsCached(bis: Representatives)
    requires InUse(Caches(WithKey(None), None), bis)
    ensures Coherent(Caches(WithKey(None), None)) && !Resolved(WithKey(None), "a")
    ensures AskKey(Caches(WithKey(None), None), bis, "a") == (Caches(StaleExample(), Some(bis)), None)
  {
    StillAwaiting();
    NoKeyYet(WithKey(None), bis);
    hide IsQuotient, Coherent, Resolved, View, BuildGraph, Representative;
    var repos := WithKey(None);
    assert repos["a" := repos["a"].(key := Some(None))] == StaleExample();
  }

  lemma StaleKey(value: string)
    ensures Described(StaleExample()) && KeysFresh(StaleExample())
    ensures !KeysFresh(SetRoot(StaleExample(), "root", value))
  {
    var repos := StaleExample();
    var sys := View(repos);
    assert !Complete(1, sys, "b");
    assert !Complete(2, sys, "a") by {
      assert sys["a"].next["dep"] == "b";
    }
    forall bis | IsQuotient(sys, bis) ensures Key(repos, bis, "a") == None {
      NoKeyYet(repos, bis);
      KeyOfRepresentative(repos, bis, bis, "a");
    }
    assert repos["a"].key.Some? && !repos["a"].info.Names("root");
    forall k: nat ensures FixedUpTo(k, repos, "root", "a") {
      assert k > 1 ==> FixedUpTo(k - 1, repos, "root", "b");
    }
    UnguardedSetRoot(repos, "root", value);
  }
}
