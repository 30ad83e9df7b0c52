// What keys and duplicates say about the repositories themselves, in terms of their roots, file names
// and bindings (src/buildtool/common/repository_config.cpp:22-102).
module RepositoryIdentity {
  import opened Wrappers
  import opened Bisimulation
  import opened DfaMinimizer
  import opened RepositoryGraph
  import opened Descriptions
  import opened KeyCache
  import opened RootDeps

  // Both roots have the same content, known from its description.
  ghost predicate SameContent(r: Root, s: Root) {
    r.Fixed? && s.Fixed? && r.description == s.description
  }

  // All four roots have known and equal content, and the files of each kind have the same names.
  ghost predicate SameLayout(i: Info, j: Info) {
    && SameContent(i.workspaceRoot, j.workspaceRoot)
    && SameContent(i.targetRoot, j.targetRoot)
    && SameContent(i.ruleRoot, j.ruleRoot)
    && SameContent(i.expressionRoot, j.expressionRoot)
    && i.targetFile == j.targetFile && i.ruleFile == j.ruleFile && i.expressionFile == j.expressionFile
  }

  // Both repositories are known and have the same layout and the same local names, bound to related
  // repositories.
  ghost predicate ReposAgree(A: Configuration, a: string, B: Configuration, b: string, R: iset<(string, string)>) {
    && a in A && b in B
    && SameLayout(A[a].info, B[b].info)
    && A[a].info.nameMapping.Keys == B[b].info.nameMapping.Keys
    && forall l | l in A[a].info.nameMapping :: (A[a].info.nameMapping[l], B[b].info.nameMapping[l]) in R
  }

  ghost predicate IsMatching(A: Configuration, B: Configuration, R: iset<(string, string)>) {
    forall p | p in R :: ReposAgree(A, p.0, B, p.1, R)
  }

  // Nothing that is met from a and b following the same local names tells them apart.
  ghost predicate SameRepository(A: Configuration, a: string, B: Configuration, b: string) {
    exists R: iset<(string, string)> :: IsMatching(A, B, R) && (a, b) in R
  }

  ghost predicate IsExchange(repos: Configuration, R: iset<(string, string)>) {
    forall p | p in R :: p.0 == p.1 || ReposAgree(repos, p.0, repos, p.1, R)
  }

  // The same within one configuration, where a name that is not content-fixed is like itself only.
  ghost predicate Interchangeable(repos: Configuration, a: string, b: string) {
    exists R: iset<(string, string)> :: IsExchange(repos, R) && (a, b) in R
  }

  // All four roots have known content.
  ghost predicate HasContent(info: Info) {
    info.workspaceRoot.Fixed? && info.targetRoot.Fixed? && info.ruleRoot.Fixed? && info.expressionRoot.Fixed?
  }

  // Everything met from the repository is known and has known content.
  ghost predicate ClosureHasContent(repos: Configuration, repo: string) {
    forall n | Reachable(repos, repo, n) :: n in repos && HasContent(repos[n].info)
  }

  // ---- The view of the configuration shows exactly this ----

  lemma ViewAgrees(A: Configuration, a: string, B: Configuration, b: string)
    requires Described(A) && Described(B)
    ensures a in View(A) && b in View(B) && View(A)[a].content == View(B)[b].content
        <==> a in A && b in B && SameLayout(A[a].info, B[b].info)
    ensures a in View(A) ==> View(A)[a].next == A[a].info.nameMapping
    ensures a in View(A) <==> a in A && HasContent(A[a].info)
  {
  }

  lemma ReposAgreeInView(A: Configuration, a: string, B: Configuration, b: string, R: iset<(string, string)>)
    requires Described(A) && Described(B)
    ensures ReposAgree(A, a, B, b, R) <==> Agree(View(A), a, View(B), b, R)
  {
    hide Described, View, SameLayout, HasContent;
    ViewAgrees(A, a, B, b);
    ViewAgrees(B, b, A, a);
  }

  lemma MatchingInView(A: Configuration, B: Configuration, R: iset<(string, string)>)
    requires Described(A) && Described(B)
    ensures IsBisimulation(View(A), View(B), R) <==> IsMatching(A, B, R)
  {
    hide Described, View, ReposAgree, Agree;
    forall p | p in R ensures ReposAgree(A, p.0, B, p.1, R) <==> Agree(View(A), p.0, View(B), p.1, R) {
      ReposAgreeInView(A, p.0, B, p.1, R);
    }
  }

  lemma SameIsBisimilar(A: Configuration, a: string, B: Configuration, b: string)
    requires Described(A) && Described(B)
    ensures SameRepository(A, a, B, b) <==> Bisimilar(View(A), a, View(B), b)
  {
    hide Described, View, IsMatching, IsBisimulation, Bisimilar;
    BisimilarIffRelated(View(A), a, View(B), b);
    forall R: iset<(string, string)>
      ensures IsBisimulation(View(A), View(B), R) <==> IsMatching(A, B, R)
    {
      MatchingInView(A, B, R);
    }
  }

  // Keys that a recomputation would give, of any two repositories of any two configurations, are equal
  // exactly if the repositories are the same.
  lemma KeysIdentify(A: Configuration, a: string, k: Option<Graph>, B: Configuration, b: string, k': Option<Graph>)
    requires Described(A) && Described(B) && IsFresh(A, a, k) && IsFresh(B, b, k')
    ensures k.Some? && k == k' <==> SameRepository(A, a, B, b)
  {
    var bisA := QuotientExists(View(A));
    var bisB := QuotientExists(View(B));
    KeyOfRepresentative(A, bisA, bisA, a);
    KeyOfRepresentative(B, bisB, bisB, b);
    GraphIsCanonical(View(A), bisA, a, View(B), bisB, b);
    SameIsBisimilar(A, a, B, b);
  }

  lemma {:induction false} CompleteReaches(k: nat, repos: Configuration, a: string, b: string)
    requires Described(repos) && Reaches(k, repos, a, b) && Complete(k + 1, View(repos), a)
    ensures b in View(repos)
  {
    if k > 0 {
      var l :| l in repos[a].info.nameMapping && Reaches(k - 1, repos, repos[a].info.nameMapping[l], b);
      CompleteReaches(k - 1, repos, repos[a].info.nameMapping[l], b);
    }
  }

  lemma {:induction false} ReachableComplete(k: nat, repos: Configuration, repo: string, a: string)
    requires Described(repos) && ClosureHasContent(repos, repo) && Reachable(repos, repo, a)
    ensures Complete(k, View(repos), a)
  {
    if k > 0 {
      ViewAgrees(repos, a, repos, a);
      forall l | l in repos[a].info.nameMapping ensures Complete(k - 1, View(repos), repos[a].info.nameMapping[l]) {
        ReachableStep(repos, repo, a, l);
        ReachableComplete(k - 1, repos, repo, repos[a].info.nameMapping[l]);
      }
    }
  }

  // There is a key exactly if everything met from the repository is known and has known content.
  lemma KeyExists(repos: Configuration, repo: string, k: Option<Graph>)
    requires Described(repos) && IsFresh(repos, repo, k)
    ensures k.Some? <==> ClosureHasContent(repos, repo)
  {
    var bis := QuotientExists(View(repos));
    KeyOfRepresentative(repos, bis, bis, repo);
    GraphExistsIffContentFixed(View(repos), bis, bis, repo);
    if ContentFixed(View(repos), repo) {
      forall n | Reachable(repos, repo, n) ensures n in repos && HasContent(repos[n].info) {
        var j: nat :| Reaches(j, repos, repo, n);
        CompleteReaches(j, repos, repo, n);
        ViewAgrees(repos, n, repos, n);
      }
    }
    if ClosureHasContent(repos, repo) {
      assert Reaches(0, repos, repo, repo);
      forall j: nat ensures Complete(j, View(repos), repo) {
        ReachableComplete(j, repos, repo, repo);
      }
    }
  }

  // The key says exactly which repository, of whatever configuration, this is.
  ghost predicate Identifies(repos: Configuration, repo: string, key: Option<Graph>) {
    && (key.Some? <==> ClosureHasContent(repos, repo))
    && forall other, name, key' | Described(other) && IsFresh(other, name, key') ::
         key.Some? && key == key' <==> SameRepository(repos, repo, other, name)
  }

  lemma FreshIdentifies(repos: Configuration, repo: string, key: Option<Graph>)
    requires Described(repos) && IsFresh(repos, repo, key)
    ensures Identifies(repos, repo, key)
  {
    hide Described, IsFresh, SameRepository, ClosureHasContent;
    KeyExists(repos, repo, key);
    forall other, name, key' | Described(other) && IsFresh(other, name, key')
      ensures key.Some? && key == key' <==> SameRepository(repos, repo, other, name)
    {
      KeysIdentify(repos, repo, key, other, name, key');
    }
  }

  // ---- Duplicates ----

  lemma ExchangeInView(repos: Configuration, R: iset<(string, string)>, X: iset<(string, string)>)
    requires Described(repos) && forall n, m :: (n, m) in X <==> n == m
    ensures IsBisimulationUpTo(View(repos), View(repos), X, R) <==> IsExchange(repos, R)
  {
    hide Described, View, ReposAgree, Agree;
    forall p | p in R
      ensures ReposAgree(repos, p.0, repos, p.1, R) <==> Agree(View(repos), p.0, View(repos), p.1, R)
      ensures p in X <==> p.0 == p.1
    {
      ReposAgreeInView(repos, p.0, repos, p.1, R);
      assert p == (p.0, p.1);
    }
  }

  lemma InterchangeableIsSame(repos: Configuration, a: string, b: string)
    requires Described(repos)
    ensures Interchangeable(repos, a, b) <==> Indistinguishable(View(repos), a, b)
  {
    hide Described, View, IsExchange, IsBisimulationUpTo, Indistinguishable;
    var X := iset n: string, m: string | n == m :: (n, m);
    IndistinguishableIffRelated(View(repos), a, b, X);
    forall R: iset<(string, string)>
      ensures IsBisimulationUpTo(View(repos), View(repos), X, R) <==> IsExchange(repos, R)
    {
      ExchangeInView(repos, R, X);
    }
  }

  // Repositories have a common representative exactly if nothing tells them apart.
  ghost predicate Deduplicates(repos: Configuration, bis: Representatives) {
    && (forall n :: Interchangeable(repos, n, Representative(bis, n)))
    && forall a, b :: Representative(bis, a) == Representative(bis, b) <==> Interchangeable(repos, a, b)
  }

  lemma QuotientDeduplicates(repos: Configuration, bis: Representatives)
    requires Described(repos) && IsQuotient(View(repos), bis)
    ensures Deduplicates(repos, bis)
  {
    hide Described, Interchangeable, Indistinguishable, Representative;
    forall a, b ensures Interchangeable(repos, a, b) <==> Indistinguishable(View(repos), a, b) {
      InterchangeableIsSame(repos, a, b);
    }
  }

  // ---- Setting a precomputed root ----

  // Where the precomputed root was there is now a root of that content, and all else is as before.
  ghost predicate RootIsSet(r: Root, key: string, value: string, r': Root) {
    if r.Precomputed? && r.key == key then r'.Fixed? && r'.description == value else r' == r
  }

  ghost predicate RootsAreSet(i: Info, key: string, value: string, j: Info) {
    && RootIsSet(i.workspaceRoot, key, value, j.workspaceRoot)
    && RootIsSet(i.targetRoot, key, value, j.targetRoot)
    && RootIsSet(i.ruleRoot, key, value, j.ruleRoot)
    && RootIsSet(i.expressionRoot, key, value, j.expressionRoot)
    && i.nameMapping == j.nameMapping
    && i.targetFile == j.targetFile && i.ruleFile == j.ruleFile && i.expressionFile == j.expressionFile
  }

  ghost predicate IsSet(repos: Configuration, key: string, value: string, repos': Configuration) {
    repos'.Keys == repos.Keys && forall n | n in repos :: RootsAreSet(repos[n].info, key, value, repos'[n].info)
  }

  lemma SetRootSets(repos: Configuration, key: string, value: string)
    ensures IsSet(repos, key, value, SetRoot(repos, key, value))
  {
  }
}
