// The last loop of deduplicate (bin/jst-lock.py:2803-2846): references to replaced names are
// redirected, which preserves what the repositories mean.
module JstRewriting {
  import opened Wrappers
  import opened Bisimulation
  import opened PairMarking
  import opened OpenSystems
  import opened JstRepos
  import opened JstBisimilar
  import opened JstRepresentatives

  // ---- Rewriting ----

  // final_root_reference: the renamed name of the repository with the proper root.
  function FinalRootReference(repos: Repos, renaming: Renaming, name: string, depth: nat): string
    requires GetRoot(repos, name, depth).Some?
    decreases depth
  {
    if repos[name].repository.Given? then Renamed(renaming, name)
    else FinalRootReference(repos, renaming, repos[name].repository.name, depth - 1)
  }

  function RootReference(repos: Repos, renaming: Renaming, name: string, depth: nat): string
    requires GetRoot(repos, name, depth).Some?
  {
    if name in renaming then FinalRootReference(repos, renaming, name, depth) else name
  }

  function RewriteName(repos: Repos, renaming: Renaming, name: Option<string>, depth: nat): Option<string>
    requires name.Some? ==> GetRoot(repos, name.value, depth).Some?
  {
    if name.None? then None else Some(RootReference(repos, renaming, name.value, depth))
  }

  // The base repository of a computed or tree-structure root is redirected.
  function RewriteRoot(renaming: Renaming, root: Root): Root {
    match root.source
    case Computed(repo, target, config) => root.(source := Computed(Renamed(renaming, repo), target, config))
    case TreeStructure(repo) => root.(source := TreeStructure(Renamed(renaming, repo)))
    case _ => root
  }

  function RewriteReference(repos: Repos, renaming: Renaming, ref: Reference, depth: nat): Reference
    requires ref.Named? ==> GetRoot(repos, ref.name, depth).Some?
  {
    match ref
    case Named(name) => Named(RootReference(repos, renaming, name, depth))
    case Given(root) => Given(RewriteRoot(renaming, root))
  }

  // The references of n that are rewritten can be followed.
  predicate Followable(repos: Repos, n: string, depth: nat) {
    && n in repos
    && (repos[n].repository.Named? ==> GetRoot(repos, repos[n].repository.name, depth).Some?)
    && (repos[n].targetRoot.Some? ==> GetRoot(repos, repos[n].targetRoot.value, depth).Some?)
    && (repos[n].ruleRoot.Some? ==> GetRoot(repos, repos[n].ruleRoot.value, depth).Some?)
  }

  // The description of a surviving repository; the expression root stays as it is.
  function Rewrite(repos: Repos, renaming: Renaming, updated: map<string, Reference>, n: string, depth: nat): Repo
    requires Followable(repos, n, depth)
    requires n in updated && updated[n].Named? ==> updated[n] == repos[n].repository
  {
    var desc := if n in updated then repos[n].(repository := updated[n]) else repos[n];
    desc.(
      bindings := map l | l in desc.bindings :: Renamed(renaming, desc.bindings[l]),
      repository := RewriteReference(repos, renaming, desc.repository, depth),
      targetRoot := RewriteName(repos, renaming, desc.targetRoot, depth),
      ruleRoot := RewriteName(repos, renaming, desc.ruleRoot, depth))
  }

  function RewriteAll(repos: Repos, renaming: Renaming, updated: map<string, Reference>, depth: nat): Repos
    requires forall n | n in repos :: Followable(repos, n, depth)
    requires forall n | n in updated && n in repos && updated[n].Named? :: updated[n] == repos[n].repository
  {
    map n | n in repos && n !in renaming :: Rewrite(repos, renaming, updated, n, depth)
  }

  lemma AllFollowable(repos: Repos, depth: nat)
    requires AllRooted(repos, depth)
    ensures forall n | n in repos :: Followable(repos, n, depth)
  {
    forall n | n in repos ensures Followable(repos, n, depth) {
      assert RootAt(repos, n, 0, depth).Some? && RootAt(repos, n, 1, depth).Some? && RootAt(repos, n, 2, depth).Some?;
      if repos[n].repository.Named? {
        GetRootDeeper(repos, repos[n].repository.name, depth - 1);
      }
    }
  }

  // ---- Meaning ----

  lemma ComparedMeaning(x: Root, y: Root)
    requires Compared(x) == Compared(y)
    ensures Meaning(x) == Meaning(y)
  {
  }

  // Repositories that jst-lock cannot tell apart mean the same.
  lemma ViewsCoarser(repos: Repos, depth: nat)
    ensures IsCoarser(ComparedView(repos, depth), MeaningView(repos, depth))
  {
    var C, M := ComparedView(repos, depth), MeaningView(repos, depth);
    forall a | a in C ensures M[a].next == C[a].next {
      StateCompared(repos, depth, a);
    }
    forall a, b | a in C && b in C && C[a].content == C[b].content ensures M[a].content == M[b].content {
      StateCompared(repos, depth, a);
      StateCompared(repos, depth, b);
      var xs, ys := RootsOf(repos, a, depth), RootsOf(repos, b, depth);
      forall i: nat | i < 4 ensures Meaning(xs[i]) == Meaning(ys[i]) {
        ComparedMeaning(xs[i], ys[i]);
      }
      assert M[a].content.roots == M[b].content.roots;
    }
  }

  lemma AlikeCoarser(C: View, M: View, a: string, b: string)
    requires IsCoarser(C, M) && (a, b) in Alike(C)
    ensures (a, b) in Alike(M)
  {
    forall k: nat ensures Same(k, M, a, b) {
      CoarserSame(k, C, M, a, b);
    }
  }

  lemma StateCompared(repos: Repos, depth: nat, a: string)
    requires a in ComparedView(repos, depth)
    ensures Rooted(repos, a, depth)
    ensures
      var xs, c, m := RootsOf(repos, a, depth), ComparedView(repos, depth)[a], MeaningView(repos, depth)[a];
      && m.next == c.next && m.content == c.content.(roots := m.content.roots)
      && |c.content.roots| == 4 == |m.content.roots|
      && forall i: nat | i < 4 :: c.content.roots[i] == Compared(xs[i]) && m.content.roots[i] == Meaning(xs[i])
  {
    var xs := RootsOf(repos, a, depth);
    assert ComparedView(repos, depth)[a] == StateOf(repos[a], xs, Compared);
    assert MeaningView(repos, depth)[a] == StateOf(repos[a], xs, Meaning);
    var c, m := StateOf(repos[a], xs, Compared).content.roots, StateOf(repos[a], xs, Meaning).content.roots;
    forall i: nat | i < 4 ensures c[i] == Compared(xs[i]) && m[i] == Meaning(xs[i]) {
      assert i == 0 || i == 1 || i == 2 || i == 3;
    }
  }

  lemma MeaningRepos(x: Root, y: Root)
    requires Meaning(x) == Meaning(y)
    ensures RepoOf(x).Some? <==> RepoOf(y).Some?
  {
  }

  lemma OnlyNamesMean(repos: Repos, depth: nat, n: string)
    ensures n in MeaningView(repos, depth) ==> n in repos
  {
  }

  lemma MeaningStates(repos: Repos, depth: nat)
    requires AllRooted(repos, depth)
    ensures MeaningView(repos, depth).Keys == repos.Keys
  {
    forall n | n in repos ensures n in MeaningView(repos, depth) {
      ViewState(repos, depth, Meaning, n);
    }
  }

  // Alike with what they mean.
  ghost function Synonyms(repos: Repos, depth: nat): Relation {
    Alike(MeaningView(repos, depth))
  }

  // ---- Following rewritten references ----

  // Names are replaced by names of repositories that have a proper root if the replaced one has.
  ghost predicate IsReplacement(repos: Repos, renaming: Renaming) {
    forall n | n in renaming :: n in repos && renaming[n] in repos
        && (HasRoot(repos, n) ==> HasRoot(repos, renaming[n]))
  }

  // Names are replaced by related ones, which are not replaced themselves.
  ghost predicate IsFaithfulTo(R: Relation, renaming: Renaming) {
    forall n | n in renaming :: renaming[n] !in renaming && (n, renaming[n]) in R
  }

  // x, found in the output, stands for y in the input: equal in meaning, and computed from a
  // repository that is not replaced, and related to the one y is computed from.
  ghost predicate Matches(renaming: Renaming, R: Relation, x: Root, y: Root) {
    && Meaning(x) == Meaning(y)
    && (RepoOf(x).Some? <==> RepoOf(y).Some?)
    && (RepoOf(x).Some? ==> RepoOf(x).value !in renaming && (RepoOf(x).value, RepoOf(y).value) in R)
  }

  lemma RenamedRelated(R: Relation, renaming: Renaming, n: string)
    requires IsEquivalence(R) && IsFaithfulTo(R, renaming)
    ensures Renamed(renaming, n) !in renaming && (Renamed(renaming, n), n) in R
  {
  }

  // A rewritten root matches the old one, whatever becomes of the pragma.
  lemma RewrittenRootMatches(R: Relation, renaming: Renaming, root: Root, root': Root)
    requires IsEquivalence(R) && IsFaithfulTo(R, renaming) && SamePragmaless(root', root)
    ensures Matches(renaming, R, RewriteRoot(renaming, root'), root)
  {
    if RepoOf(root).Some? {
      RenamedRelated(R, renaming, RepoOf(root).value);
    }
  }

  // Synonymous repositories with proper roots have matching roots.
  lemma RelatedRoots(repos: Repos, depth: nat, renaming: Renaming, f: string, g: string, x: Root)
    requires Rooted(repos, f, depth) && Rooted(repos, g, depth) && (f, g) in Synonyms(repos, depth)
    requires repos[f].repository.Given? && repos[g].repository.Given?
    requires Matches(renaming, Synonyms(repos, depth), x, repos[g].repository.root)
    ensures Matches(renaming, Synonyms(repos, depth), x, repos[f].repository.root)
  {
    var sys := MeaningView(repos, depth);
    AlikeIsEquivalence(sys);
    var rf, rg := repos[f].repository.root, repos[g].repository.root;
    assert RootAt(repos, f, 0, depth) == Some(rf) && RootAt(repos, g, 0, depth) == Some(rg);
    ViewState(repos, depth, Meaning, f);
    ViewState(repos, depth, Meaning, g);
    assert Same(1, sys, f, g);
    assert sys[f].content.roots[0] == Meaning(rf) && sys[g].content.roots[0] == Meaning(rg);
    MeaningRepos(rf, rg);
    if RepoOf(rf).Some? {
      IndistinguishableStep(sys, f, g, RootRepo(0));
      assert (RepoOf(rg).value, RepoOf(rf).value) in Alike(sys);
    }
  }

  // What following references in the output relies on: each proper root of the input is matched by
  // the one that the new name of its repository has in the output, and names are redirected.
  ghost predicate Redirects(repos: Repos, depth: nat, R: Relation, renaming: Renaming, out: Repos) {
    && (forall n :: n in out <==> n in repos && n !in renaming)
    && (forall f | f in repos && repos[f].repository.Given? ::
          var g := Renamed(renaming, f);
          g in out && out[g].repository.Given? && Matches(renaming, R, out[g].repository.root,
              repos[f].repository.root))
    && (forall n | n in out && repos[n].repository.Named? ::
          && GetRoot(repos, repos[n].repository.name, depth).Some?
          && out[n].repository == Named(RootReference(repos, renaming, repos[n].repository.name, depth)))
  }

  lemma {:induction false} FinalRootMatches(repos: Repos, depth: nat, R: Relation, renaming: Renaming, out: Repos,
                                            m: string, d: nat)
    requires Redirects(repos, depth, R, renaming, out) && GetRoot(repos, m, d).Some?
    ensures
      var g := FinalRootReference(repos, renaming, m, d);
      g in out && out[g].repository.Given? && Matches(renaming, R, out[g].repository.root, GetRoot(repos, m, d).value)
    decreases d
  {
    if repos[m].repository.Named? {
      FinalRootMatches(repos, depth, R, renaming, out, repos[m].repository.name, d - 1);
    }
  }

  lemma {:induction false} FinalRootDepth(repos: Repos, renaming: Renaming, m: string, d: nat, d': nat)
    requires GetRoot(repos, m, d).Some? && GetRoot(repos, m, d').Some?
    ensures FinalRootReference(repos, renaming, m, d) == FinalRootReference(repos, renaming, m, d')
    decreases d
  {
    if repos[m].repository.Named? {
      FinalRootDepth(repos, renaming, repos[m].repository.name, d - 1, d' - 1);
    }
  }

  // Following a redirected name in the output finds a root that matches the one found before.
  lemma {:induction false} FollowedRootMatches(repos: Repos, depth: nat, R: Relation, renaming: Renaming, out: Repos,
                                               m: string, d: nat)
    requires Redirects(repos, depth, R, renaming, out) && GetRoot(repos, m, d).Some?
    ensures
      var x := GetRoot(out, RootReference(repos, renaming, m, d), d);
      x.Some? && Matches(renaming, R, x.value, GetRoot(repos, m, d).value)
    decreases d
  {
    if m in renaming {
      FinalRootMatches(repos, depth, R, renaming, out, m, d);
    } else if repos[m].repository.Named? {
      var x := repos[m].repository.name;
      FollowedRootMatches(repos, depth, R, renaming, out, x, d - 1);
      if x in renaming {
        FinalRootDepth(repos, renaming, x, d - 1, depth);
      }
      assert out[m].repository == Named(RootReference(repos, renaming, x, d - 1));
    }
  }

  lemma OwnRootRedirected(repos: Repos, depth: nat, renaming: Renaming, updated: map<string, Reference>, f: string)
    requires AllRooted(repos, depth) && IsReplacement(repos, renaming) && IsUpdate(repos, updated)
    requires IsFaithfulTo(Synonyms(repos, depth), renaming)
    requires f in repos && repos[f].repository.Given?
    requires Followable(repos, Renamed(renaming, f), depth)
    ensures
      var ref := Rewrite(repos, renaming, updated, Renamed(renaming, f), depth).repository;
      ref.Given? && Matches(renaming, Synonyms(repos, depth), ref.root, repos[f].repository.root)
  {
    var R, g := Synonyms(repos, depth), Renamed(renaming, f);
    AlikeIsEquivalence(MeaningView(repos, depth));
    RenamedRelated(R, renaming, f);
    assert (f, g) in R;
    var root' := if g in updated then updated[g].root else repos[g].repository.root;
    RewrittenRootMatches(R, renaming, repos[g].repository.root, root');
    RelatedRoots(repos, depth, renaming, f, g, RewriteRoot(renaming, root'));
  }

  lemma NamedRedirected(repos: Repos, depth: nat, renaming: Renaming, updated: map<string, Reference>, n: string)
    requires IsUpdate(repos, updated) && Followable(repos, n, depth) && repos[n].repository.Named?
    ensures Rewrite(repos, renaming, updated, n, depth).repository
            == Named(RootReference(repos, renaming, repos[n].repository.name, depth))
  {
  }

  // out is what the last loop of deduplicate makes of repos.
  ghost predicate IsRewritten(repos: Repos, depth: nat, renaming: Renaming, updated: map<string, Reference>,
                              out: Repos)
  {
    && AllRooted(repos, depth)
    && IsReplacement(repos, renaming)
    && IsUpdate(repos, updated)
    && (forall n | n in repos :: Followable(repos, n, depth))
    && (forall n :: n in out <==> n in repos && n !in renaming)
    && (forall n | n in out :: out[n] == Rewrite(repos, renaming, updated, n, depth))
  }

  lemma RedirectsHold(repos: Repos, depth: nat, renaming: Renaming, updated: map<string, Reference>, out: Repos)
    requires IsRewritten(repos, depth, renaming, updated, out) && IsFaithfulTo(Synonyms(repos, depth), renaming)
    ensures Redirects(repos, depth, Synonyms(repos, depth), renaming, out)
  {
    var R := Synonyms(repos, depth);
    forall f | f in repos && repos[f].repository.Given?
      ensures
        var g := Renamed(renaming, f);
        g in out && out[g].repository.Given? && Matches(renaming, R, out[g].repository.root, repos[f].repository.root)
    {
      OwnRootRedirected(repos, depth, renaming, updated, f);
    }
    forall n | n in out && repos[n].repository.Named?
      ensures out[n].repository == Named(RootReference(repos, renaming, repos[n].repository.name, depth))
    {
      NamedRedirected(repos, depth, renaming, updated, n);
    }
  }

  // ---- The roots of a surviving repository ----

  // The names of the other roots are redirected, but that of the expression root is not.
  ghost predicate RedirectsNames(repos: Repos, depth: nat, renaming: Renaming, out: Repos) {
    forall n | n in out && n in repos ::
      && Followable(repos, n, depth)
      && out[n].targetRoot == RewriteName(repos, renaming, repos[n].targetRoot, depth)
      && out[n].ruleRoot == RewriteName(repos, renaming, repos[n].ruleRoot, depth)
      && out[n].expressionRoot == repos[n].expressionRoot
      && out[n].targetFile == repos[n].targetFile && out[n].ruleFile == repos[n].ruleFile
      && out[n].expressionFile == repos[n].expressionFile
      && out[n].bindings == map l | l in repos[n].bindings :: Renamed(renaming, repos[n].bindings[l])
  }

  // The expression root of n, if named, is not renamed.
  predicate KeepsExpressionRoot(repos: Repos, renaming: Renaming, n: string)
    requires n in repos
  {
    repos[n].expressionRoot.Some? ==> repos[n].expressionRoot.value !in renaming
  }

  lemma NamesRedirected(repos: Repos, depth: nat, renaming: Renaming, out: Repos, n: string, i: nat)
    requires RedirectsNames(repos, depth, renaming, out)
    requires n in out && n in repos && n !in renaming && i < 4
    requires i == 3 ==> KeepsExpressionRoot(repos, renaming, n)
    requires RootAt(repos, n, i, depth).Some?
    ensures
      var given := repos[n].RootName(n, i);
      out[n].RootName(n, i) == if given.None? then None else Some(RootReference(repos, renaming, given.value, depth))
  {
  }

  lemma {:induction false} RootAtMatches(repos: Repos, depth: nat, R: Relation, renaming: Renaming, out: Repos,
                                         n: string, i: nat)
    requires Redirects(repos, depth, R, renaming, out) && RedirectsNames(repos, depth, renaming, out)
    requires n in out && i < 4 && Rooted(repos, n, depth)
    requires i == 3 ==> KeepsExpressionRoot(repos, renaming, n)
    ensures
      var x := RootAt(out, n, i, depth);
      x.Some? && Matches(renaming, R, x.value, RootAt(repos, n, i, depth).value)
  {
    var given := repos[n].RootName(n, i);
    assert RootAt(repos, n, i, depth).Some?;
    NamesRedirected(repos, depth, renaming, out, n, i);
    if given.Some? {
      FollowedRootMatches(repos, depth, R, renaming, out, given.value, depth);
    } else {
      RootAtMatches(repos, depth, R, renaming, out, n, i - 1);
    }
  }

  lemma RewriteNames(repos: Repos, depth: nat, renaming: Renaming, updated: map<string, Reference>, n: string)
    requires IsUpdate(repos, updated) && Followable(repos, n, depth)
    ensures
      var d := Rewrite(repos, renaming, updated, n, depth);
      && d.targetRoot == RewriteName(repos, renaming, repos[n].targetRoot, depth)
      && d.ruleRoot == RewriteName(repos, renaming, repos[n].ruleRoot, depth)
      && d.expressionRoot == repos[n].expressionRoot
      && d.targetFile == repos[n].targetFile && d.ruleFile == repos[n].ruleFile
            && d.expressionFile == repos[n].expressionFile
      && d.bindings == map l | l in repos[n].bindings :: Renamed(renaming, repos[n].bindings[l])
  {
  }

  lemma NamesRewritten(repos: Repos, depth: nat, renaming: Renaming, updated: map<string, Reference>, out: Repos)
    requires IsRewritten(repos, depth, renaming, updated, out)
    ensures RedirectsNames(repos, depth, renaming, out)
  {
    forall n | n in out
      ensures
        && out[n].targetRoot == RewriteName(repos, renaming, repos[n].targetRoot, depth)
        && out[n].ruleRoot == RewriteName(repos, renaming, repos[n].ruleRoot, depth)
        && out[n].expressionRoot == repos[n].expressionRoot
        && out[n].targetFile == repos[n].targetFile && out[n].ruleFile == repos[n].ruleFile
        && out[n].expressionFile == repos[n].expressionFile
        && out[n].bindings == map l | l in repos[n].bindings :: Renamed(renaming, repos[n].bindings[l])
    {
      RewriteNames(repos, depth, renaming, updated, n);
    }
  }

  // The output state of a surviving repository has the content of its input state, and leads to
  // names that are not replaced and related to those the input state leads to.
  ghost predicate Mirrors(s: State<Content, Edge, string>, t: State<Content, Edge, string>, renaming: Renaming,
                          R: Relation)
  {
    && s.content == t.content
    && s.next.Keys == t.next.Keys
    && forall e | e in s.next :: s.next[e] !in renaming && (s.next[e], t.next[e]) in R
  }

  lemma RootsMirror(repos: Repos, depth: nat, R: Relation, renaming: Renaming, out: Repos, n: string,
                    s: State<Content, Edge, string>, t: State<Content, Edge, string>, i: nat)
    requires Rooted(repos, n, depth) && Rooted(out, n, depth) && i < 4
    requires IsStateOf(s, out, depth, Meaning, n) && IsStateOf(t, repos, depth, Meaning, n)
    requires Matches(renaming, R, RootAt(out, n, i, depth).value, RootAt(repos, n, i, depth).value)
    ensures s.content.roots[i] == t.content.roots[i]
    ensures RootRepo(i) in s.next <==> RootRepo(i) in t.next
    ensures RootRepo(i) in s.next ==>
              s.next[RootRepo(i)] !in renaming && (s.next[RootRepo(i)], t.next[RootRepo(i)]) in R
  {
  }

  lemma StateMirrors(repos: Repos, depth: nat, R: Relation, renaming: Renaming, out: Repos, n: string,
                     s: State<Content, Edge, string>, t: State<Content, Edge, string>)
    requires Rooted(repos, n, depth) && Rooted(out, n, depth)
    requires IsStateOf(s, out, depth, Meaning, n) && IsStateOf(t, repos, depth, Meaning, n)
    requires forall i: nat | i < 4 ::
          Matches(renaming, R, RootAt(out, n, i, depth).value, RootAt(repos, n, i, depth).value)
    requires SameFileNames(out[n], repos[n]) && out[n].bindings.Keys == repos[n].bindings.Keys
    requires forall l | l in out[n].bindings ::
          out[n].bindings[l] !in renaming && (out[n].bindings[l], repos[n].bindings[l]) in R
    ensures Mirrors(s, t, renaming, R)
  {
    forall i: nat | i < 4
      ensures s.content.roots[i] == t.content.roots[i]
      ensures RootRepo(i) in s.next <==> RootRepo(i) in t.next
      ensures RootRepo(i) in s.next ==>
                s.next[RootRepo(i)] !in renaming && (s.next[RootRepo(i)], t.next[RootRepo(i)]) in R
    {
      RootsMirror(repos, depth, R, renaming, out, n, s, t, i);
    }
    assert s.content.roots == t.content.roots;
    EdgesMirror(s, t, renaming, R);
  }

  lemma EdgesMirror(s: State<Content, Edge, string>, t: State<Content, Edge, string>, renaming: Renaming, R: Relation)
    requires forall e: Edge | (e in s.next || e in t.next) && e.RootRepo? :: e.index < 4
    requires forall i: nat | i < 4 :: RootRepo(i) in s.next <==> RootRepo(i) in t.next
    requires forall i: nat | i < 4 && RootRepo(i) in s.next ::
          s.next[RootRepo(i)] !in renaming && (s.next[RootRepo(i)], t.next[RootRepo(i)]) in R
    requires forall l :: Binding(l) in s.next <==> Binding(l) in t.next
    requires forall l | Binding(l) in s.next ::
          s.next[Binding(l)] !in renaming && (s.next[Binding(l)], t.next[Binding(l)]) in R
    ensures s.next.Keys == t.next.Keys
    ensures forall e | e in s.next :: s.next[e] !in renaming && (s.next[e], t.next[e]) in R
  {
    forall e
      ensures e in s.next <==> e in t.next
      ensures e in s.next ==> s.next[e] !in renaming && (s.next[e], t.next[e]) in R
    {
      match e
      case Binding(l) =>
      case RootRepo(i) =>
    }
  }

  lemma BindingsRedirected(repos: Repos, depth: nat, R: Relation, renaming: Renaming, out: Repos, n: string)
    requires IsEquivalence(R) && IsFaithfulTo(R, renaming) && RedirectsNames(repos, depth, renaming, out)
    requires n in out && n in repos
    ensures out[n].bindings.Keys == repos[n].bindings.Keys
    ensures forall l | l in out[n].bindings ::
              out[n].bindings[l] !in renaming && (out[n].bindings[l], repos[n].bindings[l]) in R
  {
    forall l | l in repos[n].bindings
      ensures var m := Renamed(renaming, repos[n].bindings[l]); m !in renaming && (m, repos[n].bindings[l]) in R
    {
      RenamedRelated(R, renaming, repos[n].bindings[l]);
    }
  }

  lemma SurvivorMirrors(repos: Repos, depth: nat, renaming: Renaming, out: Repos, n: string)
    requires AllRooted(repos, depth) && IsFaithfulTo(Synonyms(repos, depth), renaming)
    requires Redirects(repos, depth, Synonyms(repos, depth), renaming, out)
    requires RedirectsNames(repos, depth, renaming, out)
    requires n in out && KeepsExpressionRoot(repos, renaming, n)
    ensures n in MeaningView(out, depth) && n in MeaningView(repos, depth)
    ensures Mirrors(MeaningView(out, depth)[n], MeaningView(repos, depth)[n], renaming, Synonyms(repos, depth))
  {
    var R := Synonyms(repos, depth);
    AlikeIsEquivalence(MeaningView(repos, depth));
    forall i: nat | i < 4
      ensures RootAt(out, n, i, depth).Some?
      ensures Matches(renaming, R, RootAt(out, n, i, depth).value, RootAt(repos, n, i, depth).value)
    {
      RootAtMatches(repos, depth, R, renaming, out, n, i);
    }
    ViewState(out, depth, Meaning, n);
    ViewState(repos, depth, Meaning, n);
    BindingsRedirected(repos, depth, R, renaming, out, n);
    StateMirrors(repos, depth, R, renaming, out, n, MeaningView(out, depth)[n], MeaningView(repos, depth)[n]);
  }

  // A surviving repository whose expression root is replaced loses it.
  lemma LostExpressionRoot(repos: Repos, depth: nat, renaming: Renaming, updated: map<string, Reference>, out: Repos,
                           n: string)
    requires IsRewritten(repos, depth, renaming, updated, out) && n in out && !KeepsExpressionRoot(repos, renaming, n)
    ensures !Rooted(out, n, depth) && n !in MeaningView(out, depth)
  {
    NamesRewritten(repos, depth, renaming, updated, out);
    assert RootAt(out, n, 3, depth) == GetRoot(out, repos[n].expressionRoot.value, depth) == None;
  }

  // ---- Meaning is preserved ----

  // Whatever is reached from n in the output keeps its expression root.
  ghost predicate KeptFrom(repos: Repos, depth: nat, renaming: Renaming, out: Repos, n: string)
    requires forall x | x in out :: x in repos
  {
    forall k: nat, x | Leads(k, MeaningView(out, depth), n, x) && x in out :: KeepsExpressionRoot(repos, renaming, x)
  }

  lemma KeptStep(repos: Repos, depth: nat, renaming: Renaming, out: Repos, n: string, e: Edge)
    requires forall x | x in out :: x in repos
    requires KeptFrom(repos, depth, renaming, out, n) && n in MeaningView(out, depth)
    requires e in MeaningView(out, depth)[n].next
    ensures KeptFrom(repos, depth, renaming, out, MeaningView(out, depth)[n].next[e])
  {
    var M' := MeaningView(out, depth);
    forall k: nat, x | Leads(k, M', M'[n].next[e], x) && x in out ensures KeepsExpressionRoot(repos, renaming, x) {
      assert Leads(k + 1, M', n, x);
    }
  }

  // The names that are not replaced, and from which only kept expression roots are reached.
  ghost function KeptNames(repos: Repos, depth: nat, renaming: Renaming, out: Repos): iset<string>
    requires forall x | x in out :: x in repos
  {
    iset n | n !in renaming && KeptFrom(repos, depth, renaming, out, n)
  }

  // On these, the output mirrors the input.
  lemma KeptNamesMirror(repos: Repos, depth: nat, renaming: Renaming, out: Repos, n: string)
    requires AllRooted(repos, depth) && IsFaithfulTo(Synonyms(repos, depth), renaming)
    requires Redirects(repos, depth, Synonyms(repos, depth), renaming, out)
    requires RedirectsNames(repos, depth, renaming, out)
    requires n in KeptNames(repos, depth, renaming, out)
    ensures MirrorAt(MeaningView(out, depth), MeaningView(repos, depth), KeptNames(repos, depth, renaming, out), n)
  {
    MeaningStates(repos, depth);
    var M' := MeaningView(out, depth);
    if n in repos {
      assert Leads(0, M', n, n);
      SurvivorMirrors(repos, depth, renaming, out, n);
      forall e | e in M'[n].next ensures M'[n].next[e] in KeptNames(repos, depth, renaming, out) {
        KeptStep(repos, depth, renaming, out, n, e);
      }
      assert forall e | e in M'[n].next ::
            (M'[n].next[e], MeaningView(repos, depth)[n].next[e]) in Synonyms(repos, depth);
    } else {
      OnlyNamesMean(out, depth, n);
    }
  }

  lemma OutputMirrors(repos: Repos, depth: nat, renaming: Renaming, out: Repos)
    requires AllRooted(repos, depth) && IsFaithfulTo(Synonyms(repos, depth), renaming)
    requires Redirects(repos, depth, Synonyms(repos, depth), renaming, out)
    requires RedirectsNames(repos, depth, renaming, out)
    ensures IsMirror(MeaningView(out, depth), MeaningView(repos, depth), KeptNames(repos, depth, renaming, out))
  {
    var M, M', S := MeaningView(repos, depth), MeaningView(out, depth), KeptNames(repos, depth, renaming, out);
    hide MeaningView, KeptNames, MirrorAt, Redirects, RedirectsNames, AllRooted, IsFaithfulTo;
    forall n | n in S ensures MirrorAt(M', M, S, n) {
      KeptNamesMirror(repos, depth, renaming, out, n);
    }
  }

  // Where names are replaced by synonyms that stay, a repository keeps its meaning under its new name
  // if and only if nothing that the new name leads to in the output loses its expression root.
  lemma MeaningKept(repos: Repos, depth: nat, renaming: Renaming, updated: map<string, Reference>, out: Repos,
                    n: string)
    requires IsRewritten(repos, depth, renaming, updated, out) && IsFaithfulTo(Synonyms(repos, depth), renaming)
    requires n in repos
    ensures SameMeaning(MeaningView(out, depth), Renamed(renaming, n), MeaningView(repos, depth), n)
            <==> KeptFrom(repos, depth, renaming, out, Renamed(renaming, n))
  {
    var M, M', m := MeaningView(repos, depth), MeaningView(out, depth), Renamed(renaming, n);
    AlikeIsEquivalence(M);
    RenamedRelated(Synonyms(repos, depth), renaming, n);
    if KeptFrom(repos, depth, renaming, out, m) {
      RedirectsHold(repos, depth, renaming, updated, out);
      NamesRewritten(repos, depth, renaming, updated, out);
      OutputMirrors(repos, depth, renaming, out);
      MirrorMeans(M', M, KeptNames(repos, depth, renaming, out), m, n);
    } else {
      LossShows(repos, depth, renaming, updated, out, n, m);
    }
  }

  lemma MirrorMeans(A: View, B: View, S: iset<string>, m: string, n: string)
    requires IsMirror(A, B, S) && m in S && (m, n) in Alike(B)
    ensures SameMeaning(A, m, B, n)
  {
    forall k: nat ensures OpenSim(k, A, m, B, n) {
      MirrorSim(k, A, B, S, m);
      OpenSimSame(k, A, m, B, m, n);
    }
  }

  lemma LossShows(repos: Repos, depth: nat, renaming: Renaming, updated: map<string, Reference>, out: Repos,
                  n: string, m: string)
    requires IsRewritten(repos, depth, renaming, updated, out) && !KeptFrom(repos, depth, renaming, out, m)
    ensures !SameMeaning(MeaningView(out, depth), m, MeaningView(repos, depth), n)
  {
    var M, M' := MeaningView(repos, depth), MeaningView(out, depth);
    var k: nat, x :| Leads(k, M', m, x) && x in out && !KeepsExpressionRoot(repos, renaming, x);
    LostExpressionRoot(repos, depth, renaming, updated, out, x);
    MeaningStates(repos, depth);
    forall y ensures !SameMeaning(M', x, M, y) {
      assert !OpenSim(1, M', x, M, y);
    }
    if SameMeaning(M', m, M, n) {
      PathMatched(k, M', m, M, n, x);
    }
  }

  // Every repository has kept its meaning under its new name precisely if names are replaced by
  // synonyms that stay, and no surviving repository has an expression root that is replaced.
  lemma MeaningPreserved(repos: Repos, depth: nat, renaming: Renaming, updated: map<string, Reference>, out: Repos)
    requires IsRewritten(repos, depth, renaming, updated, out)
    ensures (forall n | n in repos :: SameMeaning(MeaningView(out, depth), Renamed(renaming, n),
        MeaningView(repos, depth), n))
            <==> IsFaithfulTo(Synonyms(repos, depth), renaming) && forall n | n in out ::
                KeepsExpressionRoot(repos, renaming, n)
  {
    hide MeaningView, SameMeaning, IsUpdate, Followable, AllRooted, IsReplacement, IsFaithfulTo, KeepsExpressionRoot;
    var M, M' := MeaningView(repos, depth), MeaningView(out, depth);
    if forall n | n in repos :: SameMeaning(M', Renamed(renaming, n), M, n) {
      PreservedIsFaithful(repos, depth, renaming, updated, out);
      forall n | n in out ensures KeepsExpressionRoot(repos, renaming, n) {
        assert SameMeaning(M', Renamed(renaming, n), M, n);
        MeaningKept(repos, depth, renaming, updated, out, n);
        assert Leads(0, M', n, n);
      }
    }
    if IsFaithfulTo(Synonyms(repos, depth), renaming) && forall n | n in out ::
        KeepsExpressionRoot(repos, renaming, n) {
      forall n | n in repos ensures SameMeaning(M', Renamed(renaming, n), M, n) {
        MeaningKept(repos, depth, renaming, updated, out, n);
      }
    }
  }

  lemma PreservedIsFaithful(repos: Repos, depth: nat, renaming: Renaming, updated: map<string, Reference>, out: Repos)
    requires IsRewritten(repos, depth, renaming, updated, out)
    requires forall n | n in repos ::
          SameMeaning(MeaningView(out, depth), Renamed(renaming, n), MeaningView(repos, depth), n)
    ensures IsFaithfulTo(Synonyms(repos, depth), renaming)
  {
    hide IsRewritten, SameMeaning, MeaningView, IsReplacement, Synonyms, Renamed, Indistinguishable, HasRoot;
    forall n | n in renaming ensures renaming[n] !in renaming && (n, renaming[n]) in Synonyms(repos, depth) {
      RenamedExists(repos, depth, renaming, updated, out, n);
      ReplacedBySynonym(repos, depth, renaming, updated, out, n);
    }
  }

  lemma RenamedExists(repos: Repos, depth: nat, renaming: Renaming, updated: map<string, Reference>, out: Repos,
                      n: string)
    requires IsRewritten(repos, depth, renaming, updated, out) && n in renaming
    ensures n in repos && Renamed(renaming, n) in repos
  {
  }

  lemma ReplacedBySynonym(repos: Repos, depth: nat, renaming: Renaming, updated: map<string, Reference>, out: Repos,
                          n: string)
    requires IsRewritten(repos, depth, renaming, updated, out) && n in renaming
    requires SameMeaning(MeaningView(out, depth), Renamed(renaming, n), MeaningView(repos, depth), n)
    requires SameMeaning(MeaningView(out, depth), Renamed(renaming, Renamed(renaming, n)), MeaningView(repos, depth),
        Renamed(renaming, n))
    ensures renaming[n] !in renaming && (n, renaming[n]) in Synonyms(repos, depth)
  {
    var M, M', m := MeaningView(repos, depth), MeaningView(out, depth), renaming[n];
    MeaningStates(repos, depth);
    BothHaveStates(M', m, M, n);
    OnlyNamesMean(out, depth, m);
    SynonymsIfSameMeaning(M', m, M, n, m);
  }

  // ---- Nothing dangles ----

  lemma RewrittenRootClosed(repos: Repos, renaming: Renaming, out: Repos, root: Root)
    requires IsReplacement(repos, renaming) && RootClosed(repos, root)
    requires forall n | n in renaming :: renaming[n] !in renaming
    requires forall m :: m in out <==> m in repos && m !in renaming
    ensures RootClosed(out, RewriteRoot(renaming, root))
  {
  }

  // A surviving repository finds all its roots precisely if it keeps its expression root.
  lemma OutputRooted(repos: Repos, depth: nat, renaming: Renaming, updated: map<string, Reference>, out: Repos,
                     n: string)
    requires IsRewritten(repos, depth, renaming, updated, out) && IsFaithfulTo(Synonyms(repos, depth), renaming)
    requires n in out
    ensures Rooted(out, n, depth) <==> KeepsExpressionRoot(repos, renaming, n)
  {
    if KeepsExpressionRoot(repos, renaming, n) {
      RedirectsHold(repos, depth, renaming, updated, out);
      NamesRewritten(repos, depth, renaming, updated, out);
      SurvivorMirrors(repos, depth, renaming, out, n);
    } else {
      LostExpressionRoot(repos, depth, renaming, updated, out, n);
    }
  }

  lemma OutputLinked(repos: Repos, depth: nat, renaming: Renaming, updated: map<string, Reference>, out: Repos)
    requires IsRewritten(repos, depth, renaming, updated, out) && IsFaithfulTo(Synonyms(repos, depth), renaming)
    requires Linked(repos)
    ensures Linked(out)
  {
    NamesRewritten(repos, depth, renaming, updated, out);
    forall n | n in out
      ensures forall l | l in out[n].bindings :: out[n].bindings[l] in out
      ensures out[n].repository.Given? ==> RootClosed(out, out[n].repository.root)
    {
      OutputLinks(repos, depth, renaming, updated, out, n);
    }
  }

  lemma OutputLinks(repos: Repos, depth: nat, renaming: Renaming, updated: map<string, Reference>, out: Repos,
                    n: string)
    requires IsRewritten(repos, depth, renaming, updated, out) && RedirectsNames(repos, depth, renaming, out)
    requires forall x | x in renaming :: renaming[x] !in renaming
    requires Linked(repos) && n in out
    ensures forall l | l in out[n].bindings :: out[n].bindings[l] in out
    ensures out[n].repository.Given? ==> RootClosed(out, out[n].repository.root)
  {
    if repos[n].repository.Given? {
      var root := if n in updated then updated[n].root else repos[n].repository.root;
      assert RootClosed(repos, repos[n].repository.root);
      RewrittenRootClosed(repos, renaming, out, root);
    }
  }

  // All roots are found again precisely if no surviving repository has an expression root that is
  // replaced; what was linked stays linked.
  lemma NothingDangles(repos: Repos, depth: nat, renaming: Renaming, updated: map<string, Reference>, out: Repos)
    requires IsRewritten(repos, depth, renaming, updated, out) && IsFaithfulTo(Synonyms(repos, depth), renaming)
    ensures AllRooted(out, depth) <==> forall n | n in out :: KeepsExpressionRoot(repos, renaming, n)
    ensures Linked(repos) ==> Linked(out)
  {
    forall n | n in out ensures Rooted(out, n, depth) <==> KeepsExpressionRoot(repos, renaming, n) {
      OutputRooted(repos, depth, renaming, updated, out, n);
    }
    if Linked(repos) {
      OutputLinked(repos, depth, renaming, updated, out);
    }
  }

  // Every repository that n lists, being a distribution directory, exists.
  predicate ListsExist(repos: Repos, n: string)
    requires n in repos
  {
    repos[n].repository.Given? && repos[n].repository.root.source.Distdir? ==>
      forall r | r in repos[n].repository.root.source.repositories :: r in repos
  }

  // A distribution directory lists existing repositories again precisely if none of them is replaced.
  lemma DistdirsKept(repos: Repos, depth: nat, renaming: Renaming, updated: map<string, Reference>, out: Repos,
                     n: string)
    requires IsRewritten(repos, depth, renaming, updated, out) && n in out
    ensures ListsExist(out, n) <==> ListsExist(repos, n) && KeepsDistdir(repos, renaming, n)
  {
  }

  // The distribution directory that n may be, names no renamed repository.
  predicate KeepsDistdir(repos: Repos, renaming: Renaming, n: string)
    requires n in repos
  {
    repos[n].repository.Given? && repos[n].repository.root.source.Distdir? ==>
      forall r | r in repos[n].repository.root.source.repositories :: r !in renaming
  }
}
