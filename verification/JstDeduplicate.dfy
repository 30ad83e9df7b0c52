// deduplicate of bin/jst-lock.py:2729-2846 (and bin/jst-deduplicate-repos.py): repositories that are
// not told apart are merged into one representative each, and references are redirected.
module JstDeduplicate {
  import opened Wrappers
  import opened ByteOrder
  import opened PairMarking
  import opened OpenSystems
  import opened JstRepos
  import opened JstAgreement
  import opened JstBisimilar
  import opened JstRepresentatives
  import opened JstRewriting

  // ---- What is promised, in terms of the input ----

  function Keep(main: Option<string>, userKeep: set<string>): set<string> {
    userKeep + (if main.Some? then {main.value} else {})
  }

  // m is what n is called afterwards.
  ghost predicate IsNewName(repos: Repos, keep: set<string>, depth: nat, n: string, m: string) {
    IsReplacedBy(repos, keep, depth, n, m) || (n == m && !IsReplaced(repos, keep, depth, n))
  }

  // The expression root of n is replaced; the reference to it stays as it is.
  ghost predicate LosesExpressionRoot(repos: Repos, keep: set<string>, depth: nat, n: string)
    requires n in repos
  {
    repos[n].expressionRoot.Some? && IsReplaced(repos, keep, depth, repos[n].expressionRoot.value)
  }

  // The distribution directory that n may be lists a replaced repository; that stays as it is, too.
  ghost predicate ListsReplaced(repos: Repos, keep: set<string>, depth: nat, n: string)
    requires n in repos
  {
    repos[n].repository.Given? && repos[n].repository.root.source.Distdir? &&
    exists r :: r in repos[n].repository.root.source.repositories && IsReplaced(repos, keep, depth, r)
  }

  // Names are replaced by synonyms that stay.
  ghost predicate IsFaithful(repos: Repos, keep: set<string>, depth: nat) {
    forall n, m | IsReplacedBy(repos, keep, depth, n, m) ::
        !IsReplaced(repos, keep, depth, m) && Interchangeable(repos, depth, n, m, false)
  }

  lemma SynonymsAreInterchangeable(repos: Repos, depth: nat)
    ensures forall n, m :: (n, m) in Synonyms(repos, depth) <==> Interchangeable(repos, depth, n, m, false)
  {
    hide Interchangeable;
    forall n, m ensures (n, m) in Synonyms(repos, depth) <==> Interchangeable(repos, depth, n, m, false) {
      InterchangeableIsAlike(repos, depth, n, m, false);
    }
  }

  lemma RenamingIsReplacing(repos: Repos, keep: set<string>, depth: nat, renaming: Renaming)
    requires IsRenamingOf(repos, keep, depth, renaming)
    ensures forall n :: n in renaming <==> IsReplaced(repos, keep, depth, n)
    ensures forall n, m :: IsNewName(repos, keep, depth, n, m) <==> Renamed(renaming, n) == m
    ensures IsReplacement(repos, renaming)
    ensures forall n | n in renaming :: n !in keep
  {
    hide IsReplacedBy;
    forall n ensures n in renaming <==> IsReplaced(repos, keep, depth, n) {
      assert n in renaming ==> IsReplacedBy(repos, keep, depth, n, renaming[n]);
    }
    forall n | n in renaming
      ensures n in repos && n !in keep && renaming[n] in repos && (HasRoot(repos, n) ==> HasRoot(repos, renaming[n]))
    {
      ReplacedByProper(repos, keep, depth, n, renaming[n]);
    }
  }

  lemma RenamingIsExact(repos: Repos, keep: set<string>, depth: nat, renaming: Renaming)
    requires IsRenamingOf(repos, keep, depth, renaming)
    ensures forall n, m | IsReplacedBy(repos, keep, depth, n, m) :: n in renaming && renaming[n] == m
    ensures forall n | n in renaming :: IsReplacedBy(repos, keep, depth, n, renaming[n])
  {
    hide IsReplacedBy;
  }

  lemma RenamingIsFaithful(repos: Repos, keep: set<string>, depth: nat, renaming: Renaming)
    requires IsRenamingOf(repos, keep, depth, renaming)
    ensures IsFaithfulTo(Synonyms(repos, depth), renaming) <==> IsFaithful(repos, keep, depth)
  {
    hide IsReplacedBy, IsReplaced, IsRenamingOf, IsReplacement, IsNewName, Synonyms, Interchangeable;
    RenamingIsReplacing(repos, keep, depth, renaming);
    SynonymsAreInterchangeable(repos, depth);
    RenamingIsExact(repos, keep, depth, renaming);
    if IsFaithful(repos, keep, depth) {
      forall n | n in renaming ensures renaming[n] !in renaming && (n, renaming[n]) in Synonyms(repos, depth) {
        assert IsReplacedBy(repos, keep, depth, n, renaming[n]);
      }
    }
  }

  // ---- Where the classes are those of the coarsest bisimulation ----

  // There, replacing is faithful.
  lemma SharpIsFaithful(repos: Repos, keep: set<string>, depth: nat)
    requires AllRooted(repos, depth) && !Blurred(ComparedView(repos, depth))
    ensures IsFaithful(repos, keep, depth)
  {
    forall n, m | IsReplacedBy(repos, keep, depth, n, m)
      ensures !IsReplaced(repos, keep, depth, m) && Interchangeable(repos, depth, n, m, false)
    {
      SharplyReplaced(repos, keep, depth, n, m);
    }
  }

  lemma SharplyReplaced(repos: Repos, keep: set<string>, depth: nat, n: string, m: string)
    requires AllRooted(repos, depth) && !Blurred(ComparedView(repos, depth))
    requires IsReplacedBy(repos, keep, depth, n, m)
    ensures !IsReplaced(repos, keep, depth, m) && Interchangeable(repos, depth, n, m, false)
    ensures (n, m) in Exchangeable(repos, depth)
  {
    hide Interchangeable, Blurred, AllRooted, IsReplacedBy, Synonyms;
    ReplacedByRepresentative(repos, keep, depth, n, m);
    ExchangeableIsEquivalence(repos, depth);
    ViewsCoarser(repos, depth);
    ExchangeableIsAlike(repos, depth);
    SynonymsAreInterchangeable(repos, depth);
    AlikeCoarser(ComparedView(repos, depth), MeaningView(repos, depth), n, m);
    AlikeAreSynonyms(repos, depth, n, m);
    SameAlikeNames(repos, depth, n, m);
    forall m' ensures !IsReplacedBy(repos, keep, depth, m, m') {
      ReplacedByRepresentative(repos, keep, depth, m, m');
      if IsRepresentative(repos, keep, AlikeNames(repos, depth, m), m') {
        RepresentativeUnique(repos, keep, AlikeNames(repos, depth, m), m, m');
      }
    }
  }

  lemma AlikeAreSynonyms(repos: Repos, depth: nat, n: string, m: string)
    ensures (n, m) in Alike(MeaningView(repos, depth)) ==> (n, m) in Synonyms(repos, depth)
  {
  }

  lemma SameAlikeNames(repos: Repos, depth: nat, n: string, m: string)
    requires (m, n) in Exchangeable(repos, depth)
    ensures AlikeNames(repos, depth, n) == AlikeNames(repos, depth, m)
  {
    var R := Exchangeable(repos, depth);
    ExchangeableIsEquivalence(repos, depth);
    forall x ensures (x, n) in R <==> (x, m) in R {
      ShareMember(R, n, x, m);
      ShareMember(R, m, x, n);
      assert (n, m) in R && ((x, n) in R ==> (n, x) in R) && ((x, m) in R ==> (m, x) in R);
    }
  }

  // Of repositories that cannot be distinguished, only one survives, and those to keep.
  lemma OneSurvives(repos: Repos, keep: set<string>, depth: nat, n: string, m: string)
    requires AllRooted(repos, depth) && !Blurred(ComparedView(repos, depth))
    requires n in repos && m in repos && n != m && (n, m) in Exchangeable(repos, depth)
    requires !IsReplaced(repos, keep, depth, n) && !IsReplaced(repos, keep, depth, m)
    ensures n in keep || m in keep
  {
    ExchangeableIsEquivalence(repos, depth);
    SameAlikeNames(repos, depth, m, n);
    var c := AlikeNames(repos, depth, n);
    assert n in c;
    var rep := RepresentativeExists(repos, keep, c);
    ReplacedByRepresentative(repos, keep, depth, n, rep);
    ReplacedByRepresentative(repos, keep, depth, m, rep);
  }

  // ---- The program ----

  // n means in the output, under its new name, what it meant in the input.
  ghost predicate KeepsMeaning(repos: Repos, keep: set<string>, depth: nat, out: Repos, n: string) {
    forall m | IsNewName(repos, keep, depth, n, m) ::
        MeansTheSame(out, m, repos, n, depth)
  }

  // In the output, m leads to a repository that has lost its expression root.
  ghost predicate LeadsToLoss(repos: Repos, keep: set<string>, depth: nat, out: Repos, m: string) {
    exists k: nat, x :: Leads(k, MeaningView(out, depth), m, x) && x in out && x in repos
        && LosesExpressionRoot(repos, keep, depth, x)
  }

  // In terms of the renaming.
  lemma KeepsMeaningRenamed(repos: Repos, keep: set<string>, depth: nat, renaming: Renaming, out: Repos, n: string)
    requires IsRenamingOf(repos, keep, depth, renaming)
    ensures KeepsMeaning(repos, keep, depth, out, n)
            <==> SameMeaning(MeaningView(out, depth), Renamed(renaming, n), MeaningView(repos, depth), n)
  {
    RenamingIsReplacing(repos, keep, depth, renaming);
    MeansTheSameInView(out, Renamed(renaming, n), repos, n, depth);
    hide MeansTheSame, SameMeaning, MeaningView, IsNewName, IsReplaced, IsReplacedBy, IsRenamingOf, Renamed;
    assert forall m :: IsNewName(repos, keep, depth, n, m) <==> Renamed(renaming, n) == m;
  }

  lemma LossRenamed(repos: Repos, keep: set<string>, depth: nat, renaming: Renaming, out: Repos, m: string)
    requires IsRenamingOf(repos, keep, depth, renaming) && forall n | n in out :: n in repos
    ensures LeadsToLoss(repos, keep, depth, out, m) <==> !KeptFrom(repos, depth, renaming, out, m)
  {
    RenamingIsReplacing(repos, keep, depth, renaming);
    LosesOrKeeps(repos, keep, depth, renaming, out);
    hide MeaningView, IsNewName, IsReplaced, IsReplacedBy, IsRenamingOf, Renamed, LosesExpressionRoot,
        KeepsExpressionRoot;
  }

  lemma LosesOrKeeps(repos: Repos, keep: set<string>, depth: nat, renaming: Renaming, out: Repos)
    requires forall n :: n in renaming <==> IsReplaced(repos, keep, depth, n)
    requires forall n | n in out :: n in repos
    ensures forall n | n in out ::
              LosesExpressionRoot(repos, keep, depth, n) <==> !KeepsExpressionRoot(repos, renaming, n)
    ensures forall n | n in out :: ListsReplaced(repos, keep, depth, n) <==> !KeepsDistdir(repos, renaming, n)
  {
    hide IsReplaced;
  }

  lemma RewrittenNames(repos: Repos, depth: nat, renaming: Renaming, updated: map<string, Reference>, out: Repos)
    requires IsRewritten(repos, depth, renaming, updated, out)
    ensures forall n :: n in out <==> n in repos && n !in renaming
  {
  }

  // ---- The descriptions in the output ----

  ghost function NewNames(repos: Repos, keep: set<string>, depth: nat): Relation {
    iset n: string, m: string | IsNewName(repos, keep, depth, n, m) :: (n, m)
  }

  // A name given for a root that is replaced becomes the new name of the repository that has the root.
  ghost predicate IsNewRootName(repos: Repos, keep: set<string>, depth: nat, x: string, y: string) {
    if !IsReplaced(repos, keep, depth, x) then y == x
    else exists path: seq<string>, root ::
           0 < |path| <= depth && path[0] == x && IsChain(repos, path, root)
           && IsNewName(repos, keep, depth, path[|path| - 1], y)
  }

  ghost function NewRootNames(repos: Repos, keep: set<string>, depth: nat): Relation {
    iset x: string, y: string | IsNewRootName(repos, keep, depth, x, y) :: (x, y)
  }

  // d is the description a with the names replaced, but for that of the expression root.
  ghost predicate IsDescription(a: Repo, d: Repo, N: Relation, F: Relation) {
    && (match a.repository
        case Named(x) => d.repository.Named? && (x, d.repository.name) in F
        case Given(root) => d.repository.Given? && IsRedirected(root, d.repository.root, N))
    && IsNameReplaced(a.targetRoot, d.targetRoot, F)
    && IsNameReplaced(a.ruleRoot, d.ruleRoot, F)
    && d.expressionRoot == a.expressionRoot
    && HasFilesOf(a, d)
    && AreBindingsReplaced(a, d, N)
  }

  lemma {:induction false} FinalRootIsLast(repos: Repos, renaming: Renaming, x: string, depth: nat, path: seq<string>,
                                           root: Root)
    requires GetRoot(repos, x, depth).Some?
    requires 0 < |path| <= depth && path[0] == x && IsChain(repos, path, root)
    ensures FinalRootReference(repos, renaming, x, depth) == Renamed(renaming, path[|path| - 1])
    decreases depth
  {
    if |path| > 1 {
      assert repos[x].repository == Named(path[1]) && IsChain(repos, path[1..], root);
      FinalRootIsLast(repos, renaming, path[1], depth - 1, path[1..], root);
    }
  }

  lemma RootNameReplaced(repos: Repos, keep: set<string>, depth: nat, renaming: Renaming, x: string)
    requires GetRoot(repos, x, depth).Some?
    requires forall n :: n in renaming <==> IsReplaced(repos, keep, depth, n)
    requires forall n, m :: IsNewName(repos, keep, depth, n, m) <==> Renamed(renaming, n) == m
    ensures (x, RootReference(repos, renaming, x, depth)) in NewRootNames(repos, keep, depth)
  {
    hide IsNewName, IsReplaced, Renamed;
    if x in renaming {
      var path := FollowedIsChain(repos, x, depth);
      FinalRootIsLast(repos, renaming, x, depth, path, GetRoot(repos, x, depth).value);
    }
  }

  lemma DescriptionRewritten(repos: Repos, keep: set<string>, depth: nat, renaming: Renaming,
                             updated: map<string, Reference>, n: string)
    requires IsUpdate(repos, updated) && Followable(repos, n, depth)
    requires forall x :: x in renaming <==> IsReplaced(repos, keep, depth, x)
    requires forall x, y :: IsNewName(repos, keep, depth, x, y) <==> Renamed(renaming, x) == y
    ensures IsDescription(repos[n], Rewrite(repos, renaming, updated, n, depth), NewNames(repos, keep, depth),
                          NewRootNames(repos, keep, depth))
  {
    hide IsNewName, IsReplaced, IsNewRootName, RootReference, Renamed, NewRootNames;
    var a := repos[n];
    if a.repository.Named? {
      RootNameReplaced(repos, keep, depth, renaming, a.repository.name);
    }
    if a.targetRoot.Some? {
      RootNameReplaced(repos, keep, depth, renaming, a.targetRoot.value);
    }
    if a.ruleRoot.Some? {
      RootNameReplaced(repos, keep, depth, renaming, a.ruleRoot.value);
    }
  }

  lemma DescriptionsRewritten(repos: Repos, keep: set<string>, depth: nat, renaming: Renaming,
                              updated: map<string, Reference>, out: Repos)
    requires IsRewritten(repos, depth, renaming, updated, out) && IsRenamingOf(repos, keep, depth, renaming)
    ensures forall n | n in out ::
              n in repos
              && IsDescription(repos[n], out[n], NewNames(repos, keep, depth), NewRootNames(repos, keep, depth))
  {
    hide IsDescription, Rewrite, IsRenamingOf, IsReplaced, IsNewName, Renamed, NewNames, NewRootNames, IsUpdate,
        Followable;
    RenamingIsReplacing(repos, keep, depth, renaming);
    forall n | n in out
      ensures n in repos
      ensures IsDescription(repos[n], out[n], NewNames(repos, keep, depth), NewRootNames(repos, keep, depth))
    {
      DescriptionRewritten(repos, keep, depth, renaming, updated, n);
    }
  }

  // ---- What is guaranteed for the output ----

  ghost predicate MeaningGuaranteed(repos: Repos, keep: set<string>, depth: nat, out: Repos)
    requires forall n | n in out :: n in repos
  {
    && ((forall n | n in repos :: KeepsMeaning(repos, keep, depth, out, n))
        <==> IsFaithful(repos, keep, depth) && forall n | n in out :: !LosesExpressionRoot(repos, keep, depth, n))
    && (IsFaithful(repos, keep, depth) ==>
          forall n, m | n in repos && IsNewName(repos, keep, depth, n, m) ::
            KeepsMeaning(repos, keep, depth, out, n) <==> !LeadsToLoss(repos, keep, depth, out, m))
  }

  lemma MeaningIsGuaranteed(repos: Repos, keep: set<string>, depth: nat, renaming: Renaming,
                            updated: map<string, Reference>, out: Repos)
    requires IsRewritten(repos, depth, renaming, updated, out) && IsRenamingOf(repos, keep, depth, renaming)
    ensures (forall n | n in out :: n in repos) && MeaningGuaranteed(repos, keep, depth, out)
  {
    hide MeaningView, SameMeaning, IsReplaced, IsReplacedBy, IsNewName, IsReplacement, IsFaithful, IsFaithfulTo,
        Renamed, Synonyms;
    hide IsRewritten, IsRenamingOf, KeepsMeaning, LeadsToLoss, LosesExpressionRoot, KeepsExpressionRoot, ListsReplaced,
        KeepsDistdir;
    RewrittenNames(repos, depth, renaming, updated, out);
    RenamingIsReplacing(repos, keep, depth, renaming);
    RenamingIsFaithful(repos, keep, depth, renaming);
    MeaningPreserved(repos, depth, renaming, updated, out);
    LosesOrKeeps(repos, keep, depth, renaming, out);
    forall n | n in repos
      ensures KeepsMeaning(repos, keep, depth, out, n)
              <==> SameMeaning(MeaningView(out, depth), Renamed(renaming, n), MeaningView(repos, depth), n)
    {
      KeepsMeaningRenamed(repos, keep, depth, renaming, out, n);
    }
    forall n, m | IsFaithful(repos, keep, depth) && n in repos && IsNewName(repos, keep, depth, n, m)
      ensures KeepsMeaning(repos, keep, depth, out, n) <==> !LeadsToLoss(repos, keep, depth, out, m)
    {
      MeaningKept(repos, depth, renaming, updated, out, n);
      LossRenamed(repos, keep, depth, renaming, out, m);
    }
  }

  // Where replacing is faithful, roots are found again unless an expression root is lost, and what
  // was linked stays linked; distribution directories list existing repositories unless one of them
  // is replaced.
  ghost predicate LinksGuaranteed(repos: Repos, keep: set<string>, depth: nat, out: Repos)
    requires forall n | n in out :: n in repos
  {
    && (IsFaithful(repos, keep, depth) ==>
          && (AllRooted(out, depth) <==> forall n | n in out :: !LosesExpressionRoot(repos, keep, depth, n))
          && (Linked(repos) ==> Linked(out)))
    && (forall n | n in out :: ListsExist(out, n) <==> ListsExist(repos, n) && !ListsReplaced(repos, keep, depth, n))
  }

  lemma LinksAreGuaranteed(repos: Repos, keep: set<string>, depth: nat, renaming: Renaming,
                           updated: map<string, Reference>, out: Repos)
    requires IsRewritten(repos, depth, renaming, updated, out) && IsRenamingOf(repos, keep, depth, renaming)
    ensures (forall n | n in out :: n in repos) && LinksGuaranteed(repos, keep, depth, out)
  {
    hide IsReplaced, IsReplacedBy, IsNewName, IsReplacement, IsFaithful, IsFaithfulTo, IsRenamingOf, Renamed,
        AllRooted, Linked;
    hide IsRewritten, Synonyms, ListsExist, KeepsDistdir, ListsReplaced, LosesExpressionRoot, KeepsExpressionRoot;
    RewrittenNames(repos, depth, renaming, updated, out);
    RenamingIsReplacing(repos, keep, depth, renaming);
    RenamingIsFaithful(repos, keep, depth, renaming);
    LosesOrKeeps(repos, keep, depth, renaming, out);
    if IsFaithful(repos, keep, depth) {
      NothingDangles(repos, depth, renaming, updated, out);
    }
    forall n | n in out ensures ListsExist(out, n) <==> ListsExist(repos, n) && !ListsReplaced(repos, keep, depth, n) {
      DistdirsKept(repos, depth, renaming, updated, out, n);
    }
  }

  // Where the classes are those of the coarsest bisimulation, each surviving root of a representative
  // has the pragma merged from the class, and any other its own one.
  ghost predicate PragmasGuaranteed(repos: Repos, keep: set<string>, depth: nat, out: Repos)
    requires forall n | n in out :: n in repos
  {
    forall n | n in out && repos[n].repository.Given? ::
      && out[n].repository.Given?
      && if IsRepresentative(repos, keep, AlikeNames(repos, depth, n), n)
         then IsMergedPragma(repos, AlikeNames(repos, depth, n), repos[n].repository.root.pragma,
             out[n].repository.root.pragma)
         else out[n].repository.root.pragma == repos[n].repository.root.pragma
  }

  lemma PragmasAreGuaranteed(repos: Repos, keep: set<string>, depth: nat, renaming: Renaming,
                             updated: map<string, Reference>, out: Repos)
    requires IsRewritten(repos, depth, renaming, updated, out) && !Blurred(ComparedView(repos, depth))
    requires MergesSoFar(repos, keep, Sorted(repos.Keys), Unseparated(repos, depth),
                         Heads(Sorted(repos.Keys), Unseparated(repos, depth), 0), updated)
    ensures (forall n | n in out :: n in repos) && PragmasGuaranteed(repos, keep, depth, out)
  {
    hide IsRewritten, MergesSoFar, Blurred, IsRepresentative, IsMergedPragma, AlikeNames, ComparedView, Confused,
        Heads;
    RewrittenNames(repos, depth, renaming, updated, out);
    RewrittenRooted(repos, depth, renaming, updated, out);
    forall n | n in out && repos[n].repository.Given?
      ensures out[n].repository.Given?
      ensures if IsRepresentative(repos, keep, AlikeNames(repos, depth, n), n)
              then IsMergedPragma(repos, AlikeNames(repos, depth, n), repos[n].repository.root.pragma,
                  out[n].repository.root.pragma)
              else out[n].repository.root.pragma == repos[n].repository.root.pragma
    {
      MergedByClass(repos, keep, depth, updated, n);
      RewrittenPragma(repos, depth, renaming, updated, out, n);
    }
  }

  lemma RewrittenRooted(repos: Repos, depth: nat, renaming: Renaming, updated: map<string, Reference>, out: Repos)
    requires IsRewritten(repos, depth, renaming, updated, out)
    ensures AllRooted(repos, depth)
  {
  }

  // Redirecting the base of a root leaves the pragma alone.
  lemma RewrittenPragma(repos: Repos, depth: nat, renaming: Renaming, updated: map<string, Reference>, out: Repos,
                        n: string)
    requires IsRewritten(repos, depth, renaming, updated, out) && n in out && repos[n].repository.Given?
    ensures out[n].repository.Given? && (n in updated ==> updated[n].Given?)
    ensures out[n].repository.root.pragma
        == (if n in updated then updated[n] else repos[n].repository).root.pragma
  {
    hide RootReference, AllRooted, IsReplacement, Renamed, GetRoot;
    assert out[n] == Rewrite(repos, renaming, updated, n, depth);
  }

  // Where nothing is blurred, a name that need not be kept is replaced by the representative of those it
  // can be exchanged with, and by nothing else.
  ghost predicate ReplacesByRepresentative(repos: Repos, keep: set<string>, depth: nat) {
    forall n, m ::
      IsReplacedBy(repos, keep, depth, n, m)
      <==> n in repos && n !in keep && n != m && (n, m) in Exchangeable(repos, depth)
           && IsRepresentative(repos, keep, AlikeNames(repos, depth, n), m)
  }

  lemma RepresentativeReplaces(repos: Repos, keep: set<string>, depth: nat)
    requires AllRooted(repos, depth) && !Blurred(ComparedView(repos, depth))
    ensures ReplacesByRepresentative(repos, keep, depth)
  {
    hide Blurred, AllRooted, IsReplacedBy, IsRepresentative, Exchangeable;
    forall n, m ensures IsReplacedBy(repos, keep, depth, n, m)
        <==> n in repos && n !in keep && n != m && (n, m) in Exchangeable(repos, depth)
             && IsRepresentative(repos, keep, AlikeNames(repos, depth, n), m)
    {
      ReplacedByRepresentative(repos, keep, depth, n, m);
      if IsReplacedBy(repos, keep, depth, n, m) {
        SharplyReplaced(repos, keep, depth, n, m);
      }
    }
  }

  method Merge(repos: Repos, keep: set<string>, depth: nat)
    returns (out: Repos, ghost renaming: Renaming, ghost updated: map<string, Reference>)
    requires AllRooted(repos, depth)
    ensures IsRenamingOf(repos, keep, depth, renaming) && IsRewritten(repos, depth, renaming, updated, out)
    ensures MergesSoFar(repos, keep, Sorted(repos.Keys), Unseparated(repos, depth),
                        Heads(Sorted(repos.Keys), Unseparated(repos, depth), 0), updated)
  {
    var classes := BisimilarRepos(repos, depth);
    var names, changes := ChooseAll(repos, keep, classes, Sorted(repos.Keys), Unseparated(repos, depth));
    renaming, updated := names, changes;
    assert IsRenamingOf(repos, keep, depth, names);
    RenamingIsReplacing(repos, keep, depth, names);
    AllFollowable(repos, depth);
    out := RewriteAll(repos, names, changes, depth);
  }

  // deduplicate. What is replaced by what is determined by the input. Repositories have the meaning
  // they had, under their new name, precisely if names are replaced by synonyms that stay and no
  // surviving repository has an expression root that is replaced. Names are replaced by synonyms that
  // stay wherever no missing name blurs a difference, in particular if all names exist.
  method Deduplicate(repos: Repos, main: Option<string>, userKeep: set<string>, depth: nat) returns (out: Repos)
    requires AllRooted(repos, depth)
    ensures forall n :: n in out <==> n in repos && !IsReplaced(repos, Keep(main, userKeep), depth, n)
    ensures forall n | n in repos && n in Keep(main, userKeep) :: n in out
    ensures forall n | n in out ::
              IsDescription(repos[n], out[n], NewNames(repos, Keep(main, userKeep), depth),
                            NewRootNames(repos, Keep(main, userKeep), depth))
    ensures MeaningGuaranteed(repos, Keep(main, userKeep), depth, out)
    ensures LinksGuaranteed(repos, Keep(main, userKeep), depth, out)
    ensures !Blurred(ComparedView(repos, depth)) ==>
              && ReplacesByRepresentative(repos, Keep(main, userKeep), depth)
              && IsFaithful(repos, Keep(main, userKeep), depth)
              && PragmasGuaranteed(repos, Keep(main, userKeep), depth, out)
    ensures Linked(repos) ==> !Blurred(ComparedView(repos, depth))
  {
    ghost var renaming, updated;
    var keep := Keep(main, userKeep);
    out, renaming, updated := Merge(repos, keep, depth);
    RenamingIsReplacing(repos, keep, depth, renaming);
    DescriptionsRewritten(repos, keep, depth, renaming, updated, out);
    MeaningIsGuaranteed(repos, keep, depth, renaming, updated, out);
    LinksAreGuaranteed(repos, keep, depth, renaming, updated, out);
    hide MeaningGuaranteed, LinksGuaranteed, IsFaithful, Blurred, IsDescription, NewNames, NewRootNames, IsReplaced,
        IsReplacedBy, IsNewName, IsRenamingOf,
        Renamed, Linked;
    if !Blurred(ComparedView(repos, depth)) {
      SharpIsFaithful(repos, keep, depth);
      RepresentativeReplaces(repos, keep, depth);
      PragmasAreGuaranteed(repos, keep, depth, renaming, updated, out);
    }
    if Linked(repos) {
      LinkedIsSharp(repos, depth);
    }
  }
}
