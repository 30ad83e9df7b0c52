// When repositories of jst-lock agree, stated case by case on their descriptions as relations between
// names (bin/jst-lock.py:2612-2680, share/man/jst-repo-config.5.md), and that this is what the views
// show that the algorithms are proved against.
module JstAgreement {
  import opened Wrappers
  import opened Bisimulation
  import opened PairMarking
  import opened OpenSystems
  import opened JstRepos

  // ---- The roots of a repository ----

  // Each name on the path refers to the next one, and the last one has the root.
  ghost predicate IsChain(repos: Repos, path: seq<string>, root: Root)
    requires path != []
  {
    && (forall i | 0 <= i < |path| :: path[i] in repos)
    && (forall i | 0 <= i < |path| - 1 :: repos[path[i]].repository == Named(path[i + 1]))
    && repos[path[|path| - 1]].repository == Given(root)
  }

  ghost predicate LeadsToRoot(repos: Repos, name: string, depth: nat, root: Root) {
    exists path: seq<string> :: 0 < |path| <= depth && path[0] == name && IsChain(repos, path, root)
  }

  datatype Layers = Layers(workspace: Root, target: Root, rule: Root, expression: Root)

  // A layer is the root of the repository named for it, and the layer before if none is named.
  ghost predicate IsLayerOf(repos: Repos, depth: nat, named: Option<string>, before: Root, root: Root) {
    if named.Some? then LeadsToRoot(repos, named.value, depth, root) else root == before
  }

  ghost predicate HasLayers(repos: Repos, n: string, depth: nat, r: Layers) {
    && n in repos
    && LeadsToRoot(repos, n, depth, r.workspace)
    && IsLayerOf(repos, depth, repos[n].targetRoot, r.workspace, r.target)
    && IsLayerOf(repos, depth, repos[n].ruleRoot, r.target, r.rule)
    && IsLayerOf(repos, depth, repos[n].expressionRoot, r.rule, r.expression)
  }

  // ---- Agreement ----

  // Equal, where nothing given stands for the default.
  ghost predicate SameUpTo(default: string, o: Option<string>, p: Option<string>) {
    o == p || (o == None && p == Some(default)) || (o == Some(default) && p == None)
  }

  // Of types that are not understood, the descriptions have to be equal; if exact, with the pragmas.
  ghost predicate RootsAgree(x: Root, y: Root, R: Relation, exact: bool) {
    match (x.source, y.source)
    case (File(path), File(path')) => path == path'
    case (Archive(zip, content, subdir), Archive(zip', content', subdir')) =>
      zip == zip' && content == content' && SameUpTo(".", subdir, subdir')
    case (Git(commit, subdir), Git(commit', subdir')) => commit == commit' && SameUpTo(".", subdir, subdir')
    case (Computed(repo, target, config), Computed(repo', target', config')) =>
      target == target' && SameUpTo("{}", config, config') && (repo, repo') in R
    case (TreeStructure(repo), TreeStructure(repo')) => (repo, repo') in R
    case _ => x.source == y.source && x.others == y.others && (exact ==> x.pragma == y.pragma)
  }

  ghost predicate LayersAgree(r: Layers, s: Layers, R: Relation, exact: bool) {
    && RootsAgree(r.workspace, s.workspace, R, exact)
    && RootsAgree(r.target, s.target, R, exact)
    && RootsAgree(r.rule, s.rule, R, exact)
    && RootsAgree(r.expression, s.expression, R, exact)
  }

  // File names are equal, and so are the labels of the bindings, which lead to related names.
  ghost predicate LinksAgree(a: Repo, b: Repo, R: Relation) {
    && SameUpTo("TARGETS", a.targetFile, b.targetFile)
    && SameUpTo("RULES", a.ruleFile, b.ruleFile)
    && SameUpTo("EXPRESSIONS", a.expressionFile, b.expressionFile)
    && a.bindings.Keys == b.bindings.Keys
    && forall l | l in a.bindings :: (a.bindings[l], b.bindings[l]) in R
  }

  ghost predicate ReposAgree(A: Repos, a: string, B: Repos, b: string, depth: nat, R: Relation, exact: bool) {
    exists r, s :: HasLayers(A, a, depth, r) && HasLayers(B, b, depth, s) && LayersAgree(r, s, R, exact)
        && LinksAgree(A[a], B[b], R)
  }

  ghost predicate HasNoLayers(repos: Repos, n: string, depth: nat) {
    !exists r :: HasLayers(repos, n, depth, r)
  }

  // ---- The three relations ----

  ghost predicate IsExchange(repos: Repos, depth: nat, R: Relation, exact: bool) {
    forall p | p in R :: p.0 == p.1 || ReposAgree(repos, p.0, repos, p.1, depth, R, exact)
  }

  // Nothing that is met from the two tells them apart, and names that are missing are not like others.
  ghost predicate Interchangeable(repos: Repos, depth: nat, a: string, b: string, exact: bool) {
    exists R: Relation :: IsExchange(repos, depth, R, exact) && (a, b) in R
  }

  // The same, but a missing name is like any other.
  ghost predicate IsTolerance(repos: Repos, depth: nat, R: Relation) {
    forall p | p in R ::
      p.0 == p.1 || p.0 !in repos || p.1 !in repos || ReposAgree(repos, p.0, repos, p.1, depth, R, true)
  }

  ghost predicate NotToldApart(repos: Repos, depth: nat, a: string, b: string) {
    exists R: Relation :: IsTolerance(repos, depth, R) && (a, b) in R
  }

  // Across configurations; a repository without roots, or none at all, is like none of the same name.
  ghost predicate IsLikeness(A: Repos, B: Repos, depth: nat, R: Relation) {
    forall p | p in R ::
      || (p.0 == p.1 && HasNoLayers(A, p.0, depth) && HasNoLayers(B, p.1, depth))
      || ReposAgree(A, p.0, B, p.1, depth, R, false)
  }

  ghost predicate MeansTheSame(A: Repos, a: string, B: Repos, b: string, depth: nat) {
    exists R: Relation :: IsLikeness(A, B, depth, R) && (a, b) in R
  }

  ghost function Unseparated(repos: Repos, depth: nat): Relation {
    iset a, b | NotToldApart(repos, depth, a, b) :: (a, b)
  }

  ghost function Exchangeable(repos: Repos, depth: nat): Relation {
    iset a, b | Interchangeable(repos, depth, a, b, true) :: (a, b)
  }

  // ---- Roots are found at the end of chains ----

  lemma {:induction false} ChainIsFollowed(repos: Repos, path: seq<string>, depth: nat, root: Root)
    requires 0 < |path| <= depth && IsChain(repos, path, root)
    ensures GetRoot(repos, path[0], depth) == Some(root)
  {
    if |path| > 1 {
      assert IsChain(repos, path[1..], root);
      ChainIsFollowed(repos, path[1..], depth - 1, root);
    }
  }

  lemma {:induction false} FollowedIsChain(repos: Repos, name: string, depth: nat) returns (path: seq<string>)
    requires GetRoot(repos, name, depth).Some?
    ensures 0 < |path| <= depth && path[0] == name && IsChain(repos, path, GetRoot(repos, name, depth).value)
    decreases depth
  {
    if repos[name].repository.Given? {
      path := [name];
    } else {
      var rest := FollowedIsChain(repos, repos[name].repository.name, depth - 1);
      path := [name] + rest;
    }
  }

  lemma LeadsIsGetRoot(repos: Repos, name: string, depth: nat, root: Root)
    ensures LeadsToRoot(repos, name, depth, root) <==> GetRoot(repos, name, depth) == Some(root)
  {
    if GetRoot(repos, name, depth) == Some(root) {
      var path := FollowedIsChain(repos, name, depth);
    }
    if path: seq<string> :| 0 < |path| <= depth && path[0] == name && IsChain(repos, path, root) {
      ChainIsFollowed(repos, path, depth, root);
    }
  }

  function At(r: Layers, i: nat): Root
    requires i < 4
  {
    if i == 0 then r.workspace else if i == 1 then r.target else if i == 2 then r.rule else r.expression
  }

  lemma LayersAreRoots(repos: Repos, n: string, depth: nat, r: Layers)
    ensures HasLayers(repos, n, depth, r)
        <==> n in repos && forall i: nat | i < 4 :: RootAt(repos, n, i, depth) == Some(At(r, i))
  {
    hide LeadsToRoot;
    LeadsIsGetRoot(repos, n, depth, r.workspace);
    if n in repos {
      LayerIsRoot(repos, n, 1, depth, r.workspace, r.target);
      LayerIsRoot(repos, n, 2, depth, r.target, r.rule);
      LayerIsRoot(repos, n, 3, depth, r.rule, r.expression);
      assert RootAt(repos, n, 0, depth) == GetRoot(repos, n, depth);
      assert At(r, 0) == r.workspace && At(r, 1) == r.target && At(r, 2) == r.rule && At(r, 3) == r.expression;
    }
  }

  lemma LayerIsRoot(repos: Repos, n: string, i: nat, depth: nat, before: Root, root: Root)
    requires n in repos && 0 < i < 4
    ensures
      var named := if i == 1 then repos[n].targetRoot else if i == 2 then repos[n].ruleRoot
          else repos[n].expressionRoot;
      RootAt(repos, n, i - 1, depth) == Some(before) ==>
        (IsLayerOf(repos, depth, named, before, root) <==> RootAt(repos, n, i, depth) == Some(root))
  {
    hide LeadsToRoot;
    var named := repos[n].RootName(n, i);
    if named.Some? {
      LeadsIsGetRoot(repos, named.value, depth, root);
    }
  }

  lemma LayersExist(repos: Repos, n: string, depth: nat)
    ensures Rooted(repos, n, depth) <==> !HasNoLayers(repos, n, depth)
  {
    hide HasLayers;
    if Rooted(repos, n, depth) {
      var r := Layers(RootAt(repos, n, 0, depth).value, RootAt(repos, n, 1, depth).value,
                      RootAt(repos, n, 2, depth).value, RootAt(repos, n, 3, depth).value);
      forall i: nat | i < 4 ensures RootAt(repos, n, i, depth) == Some(At(r, i)) {
        assert i == 0 || i == 1 || i == 2 || i == 3;
      }
      LayersAreRoots(repos, n, depth, r);
    }
    if r :| HasLayers(repos, n, depth, r) {
      LayersAreRoots(repos, n, depth, r);
      assert forall i: nat | i < 4 :: RootAt(repos, n, i, depth) == Some(At(r, i));
    }
  }

  // ---- The views show when repositories agree ----

  function SummaryFor(exact: bool): Root -> Root {
    if exact then Compared else Meaning
  }

  lemma RootsAgreeInView(x: Root, y: Root, R: Relation, exact: bool)
    ensures RootsAgree(x, y, R, exact) <==>
            && SummaryFor(exact)(x) == SummaryFor(exact)(y)
            && (RepoOf(x).Some? && RepoOf(y).Some? ==> (RepoOf(x).value, RepoOf(y).value) in R)
    ensures SummaryFor(exact)(x) == SummaryFor(exact)(y) ==> (RepoOf(x).Some? <==> RepoOf(y).Some?)
  {
  }

  lemma RootsAgreeCompared(x: Root, y: Root, R: Relation)
    ensures RootsAgree(x, y, R, true) <==>
            && Compared(x) == Compared(y)
            && (RepoOf(x).Some? && RepoOf(y).Some? ==> (RepoOf(x).value, RepoOf(y).value) in R)
    ensures Compared(x) == Compared(y) ==> (RepoOf(x).Some? <==> RepoOf(y).Some?)
  {
    RootsAgreeInView(x, y, R, true);
  }

  lemma DefaultsAgree(default: string, o: Option<string>, p: Option<string>)
    ensures SameUpTo(default, o, p) <==> GetOr(o, default) == GetOr(p, default)
  {
  }

  // The states have equal content and labels, and lead to related names.
  ghost predicate SameStates(s: State<Content, Edge, string>, t: State<Content, Edge, string>, R: Relation) {
    && s.content == t.content && s.next.Keys == t.next.Keys
    && forall e | e in s.next :: (s.next[e], t.next[e]) in R
  }

  ghost predicate SameRootState(s: State<Content, Edge, string>, t: State<Content, Edge, string>, R: Relation, i: nat)
    requires i < |s.content.roots| && i < |t.content.roots|
  {
    && s.content.roots[i] == t.content.roots[i]
    && (RootRepo(i) in s.next <==> RootRepo(i) in t.next)
    && (RootRepo(i) in s.next ==> (s.next[RootRepo(i)], t.next[RootRepo(i)]) in R)
  }

  lemma SameStatesByParts(s: State<Content, Edge, string>, t: State<Content, Edge, string>, R: Relation)
    requires |s.content.roots| == 4 == |t.content.roots|
    requires forall e: Edge | (e in s.next || e in t.next) && e.RootRepo? :: e.index < 4
    ensures SameStates(s, t, R) <==>
            && (forall i: nat | i < 4 :: SameRootState(s, t, R, i))
            && s.content.targetFile == t.content.targetFile && s.content.ruleFile == t.content.ruleFile
            && s.content.expressionFile == t.content.expressionFile
            && (forall l :: Binding(l) in s.next <==> Binding(l) in t.next)
            && (forall l | Binding(l) in s.next :: (s.next[Binding(l)], t.next[Binding(l)]) in R)
  {
    if && (forall i: nat | i < 4 :: SameRootState(s, t, R, i))
       && s.content.targetFile == t.content.targetFile && s.content.ruleFile == t.content.ruleFile
       && s.content.expressionFile == t.content.expressionFile
       && (forall l :: Binding(l) in s.next <==> Binding(l) in t.next)
       && (forall l | Binding(l) in s.next :: (s.next[Binding(l)], t.next[Binding(l)]) in R)
    {
      forall i: nat | i < 4 ensures s.content.roots[i] == t.content.roots[i] {
        assert SameRootState(s, t, R, i);
      }
      assert s.content.roots == t.content.roots;
      forall e
        ensures e in s.next <==> e in t.next
        ensures e in s.next ==> (s.next[e], t.next[e]) in R
      {
        match e
        case Binding(l) =>
        case RootRepo(i) => assert i < 4 ==> SameRootState(s, t, R, i);
      }
    }
  }

  lemma RootShown(s: State<Content, Edge, string>, A: Repos, a: string, t: State<Content, Edge, string>, B: Repos,
                  b: string, depth: nat, R: Relation, exact: bool, i: nat, x: Root, y: Root)
    requires Rooted(A, a, depth) && Rooted(B, b, depth) && i < 4
    requires RootAt(A, a, i, depth) == Some(x) && RootAt(B, b, i, depth) == Some(y)
    requires IsStateOf(s, A, depth, SummaryFor(exact), a) && IsStateOf(t, B, depth, SummaryFor(exact), b)
    ensures SameRootState(s, t, R, i) <==> RootsAgree(x, y, R, exact)
  {
    RootsAgreeInView(x, y, R, exact);
    hide SummaryFor, RootsAgree;
  }

  lemma LinksShown(s: State<Content, Edge, string>, A: Repos, a: string, t: State<Content, Edge, string>, B: Repos,
                   b: string, depth: nat, R: Relation, exact: bool)
    requires Rooted(A, a, depth) && Rooted(B, b, depth)
    requires IsStateOf(s, A, depth, SummaryFor(exact), a) && IsStateOf(t, B, depth, SummaryFor(exact), b)
    ensures LinksAgree(A[a], B[b], R) <==>
            && s.content.targetFile == t.content.targetFile && s.content.ruleFile == t.content.ruleFile
            && s.content.expressionFile == t.content.expressionFile
            && (forall l :: Binding(l) in s.next <==> Binding(l) in t.next)
            && (forall l | Binding(l) in s.next :: (s.next[Binding(l)], t.next[Binding(l)]) in R)
  {
    hide SummaryFor, SameUpTo;
    DefaultsAgree("TARGETS", A[a].targetFile, B[b].targetFile);
    DefaultsAgree("RULES", A[a].ruleFile, B[b].ruleFile);
    DefaultsAgree("EXPRESSIONS", A[a].expressionFile, B[b].expressionFile);
  }

  lemma SameStatesShown(s: State<Content, Edge, string>, A: Repos, a: string, t: State<Content, Edge, string>, B: Repos,
                    b: string, depth: nat, R: Relation, exact: bool, r: Layers, r': Layers)
    requires Rooted(A, a, depth) && Rooted(B, b, depth)
    requires HasLayers(A, a, depth, r) && HasLayers(B, b, depth, r')
    requires IsStateOf(s, A, depth, SummaryFor(exact), a) && IsStateOf(t, B, depth, SummaryFor(exact), b)
    ensures SameStates(s, t, R) <==> LayersAgree(r, r', R, exact) && LinksAgree(A[a], B[b], R)
  {
    hide SummaryFor, SameStates, SameRootState, LinksAgree, RootsAgree, HasLayers, Rooted;
    LayersAreRoots(A, a, depth, r);
    LayersAreRoots(B, b, depth, r');
    LinksShown(s, A, a, t, B, b, depth, R, exact);
    SameStatesByParts(s, t, R);
    forall i: nat | i < 4 ensures SameRootState(s, t, R, i) <==> RootsAgree(At(r, i), At(r', i), R, exact) {
      RootShown(s, A, a, t, B, b, depth, R, exact, i, At(r, i), At(r', i));
    }
    assert At(r, 0) == r.workspace && At(r, 1) == r.target && At(r, 2) == r.rule && At(r, 3) == r.expression;
    assert At(r', 0) == r'.workspace && At(r', 1) == r'.target && At(r', 2) == r'.rule && At(r', 3) == r'.expression;
  }

  ghost function ShownBy(repos: Repos, depth: nat, exact: bool): View {
    ViewBy(repos, depth, SummaryFor(exact))
  }

  lemma OnlyRootedShown(repos: Repos, n: string, depth: nat, exact: bool)
    ensures n in ShownBy(repos, depth, exact) <==> Rooted(repos, n, depth)
  {
  }

  lemma StateShown(repos: Repos, n: string, depth: nat, exact: bool)
    requires Rooted(repos, n, depth)
    ensures n in ShownBy(repos, depth, exact)
    ensures IsStateOf(ShownBy(repos, depth, exact)[n], repos, depth, SummaryFor(exact), n)
  {
    ViewState(repos, depth, SummaryFor(exact), n);
  }

  lemma AgreeingStates(A: View, a: string, B: View, b: string, R: Relation)
    requires a in A && b in B
    ensures Agree(A, a, B, b, R) <==> SameStates(A[a], B[b], R)
  {
  }

  lemma ReposAgreeInView(A: Repos, a: string, B: Repos, b: string, depth: nat, R: Relation, exact: bool)
    ensures ReposAgree(A, a, B, b, depth, R, exact)
        <==> Agree(ShownBy(A, depth, exact), a, ShownBy(B, depth, exact), b, R)
  {
    hide ShownBy, SummaryFor, Rooted, HasLayers, LayersAgree, LinksAgree, IsStateOf, SameStates, Agree;
    OnlyRootedShown(A, a, depth, exact);
    OnlyRootedShown(B, b, depth, exact);
    LayersExist(A, a, depth);
    LayersExist(B, b, depth);
    if Rooted(A, a, depth) && Rooted(B, b, depth) {
      RootedIsThere(A, a, depth);
      RootedIsThere(B, b, depth);
      StateShown(A, a, depth, exact);
      StateShown(B, b, depth, exact);
      var s, t := ShownBy(A, depth, exact)[a], ShownBy(B, depth, exact)[b];
      AgreeingStates(ShownBy(A, depth, exact), a, ShownBy(B, depth, exact), b, R);
      forall r, r' | HasLayers(A, a, depth, r) && HasLayers(B, b, depth, r')
        ensures SameStates(s, t, R) <==> LayersAgree(r, r', R, exact) && LinksAgree(A[a], B[b], R)
      {
        SameStatesShown(s, A, a, t, B, b, depth, R, exact, r, r');
      }
    } else {
      AgreeingNeedsStates(ShownBy(A, depth, exact), a, ShownBy(B, depth, exact), b, R);
    }
  }

  lemma AgreeingNeedsStates(A: View, a: string, B: View, b: string, R: Relation)
    ensures Agree(A, a, B, b, R) ==> a in A && b in B
  {
  }

  // ---- The three relations are those of the views ----

  lemma ExchangeInView(repos: Repos, depth: nat, R: Relation, exact: bool, X: Relation)
    requires forall n, m :: (n, m) in X <==> n == m
    ensures IsBisimulationUpTo(ShownBy(repos, depth, exact), ShownBy(repos, depth, exact), X, R)
        <==> IsExchange(repos, depth, R, exact)
  {
    hide ShownBy, ReposAgree, Agree;
    forall p | p in R
      ensures ReposAgree(repos, p.0, repos, p.1, depth, R, exact)
          <==> Agree(ShownBy(repos, depth, exact), p.0, ShownBy(repos, depth, exact), p.1, R)
      ensures p in X <==> p.0 == p.1
    {
      ReposAgreeInView(repos, p.0, repos, p.1, depth, R, exact);
      assert p == (p.0, p.1);
    }
  }

  lemma InterchangeableIsAlike(repos: Repos, depth: nat, a: string, b: string, exact: bool)
    ensures Interchangeable(repos, depth, a, b, exact) <==> Indistinguishable(ShownBy(repos, depth, exact), a, b)
  {
    hide ShownBy, IsExchange, IsBisimulationUpTo, Indistinguishable;
    var X := iset n: string, m: string | n == m :: (n, m);
    IndistinguishableIffRelated(ShownBy(repos, depth, exact), a, b, X);
    forall R: Relation
      ensures IsBisimulationUpTo(ShownBy(repos, depth, exact), ShownBy(repos, depth, exact), X, R)
          <==> IsExchange(repos, depth, R, exact)
    {
      ExchangeInView(repos, depth, R, exact, X);
    }
  }

  lemma ToleranceInView(repos: Repos, depth: nat, R: Relation, X: Relation)
    requires AllRooted(repos, depth) && forall n, m :: (n, m) in X <==> n == m || n !in repos || m !in repos
    ensures IsBisimulationUpTo(ShownBy(repos, depth, true), ShownBy(repos, depth, true), X, R)
        <==> IsTolerance(repos, depth, R)
  {
    hide ShownBy, ReposAgree, Agree, AllRooted;
    forall p | p in R
      ensures ReposAgree(repos, p.0, repos, p.1, depth, R, true)
          <==> Agree(ShownBy(repos, depth, true), p.0, ShownBy(repos, depth, true), p.1, R)
      ensures p in X <==> p.0 == p.1 || p.0 !in repos || p.1 !in repos
    {
      ReposAgreeInView(repos, p.0, repos, p.1, depth, R, true);
      assert p == (p.0, p.1);
    }
  }

  lemma AllShown(repos: Repos, depth: nat, exact: bool)
    requires AllRooted(repos, depth)
    ensures ShownBy(repos, depth, exact).Keys == repos.Keys
  {
    hide Rooted;
    forall n ensures n in ShownBy(repos, depth, exact) <==> n in repos {
      OnlyRootedShown(repos, n, depth, exact);
      assert n in repos ==> Rooted(repos, n, depth);
      RootedIsThere(repos, n, depth);
    }
  }

  lemma RootedIsThere(repos: Repos, n: string, depth: nat)
    ensures Rooted(repos, n, depth) ==> n in repos
  {
  }

  lemma NotToldApartIsInseparable(repos: Repos, depth: nat, a: string, b: string)
    requires AllRooted(repos, depth)
    ensures NotToldApart(repos, depth, a, b) <==> Inseparable(ShownBy(repos, depth, true), a, b)
  {
    hide ShownBy, IsTolerance, IsBisimulationUpTo, Inseparable, AllRooted;
    AllShown(repos, depth, true);
    var X := iset n: string, m: string | n == m || n !in repos || m !in repos :: (n, m);
    InseparableIffRelated(ShownBy(repos, depth, true), a, b, X);
    forall R: Relation
      ensures IsBisimulationUpTo(ShownBy(repos, depth, true), ShownBy(repos, depth, true), X, R)
          <==> IsTolerance(repos, depth, R)
    {
      ToleranceInView(repos, depth, R, X);
    }
  }

  lemma LikenessInView(A: Repos, B: Repos, depth: nat, R: Relation, X: Relation)
    requires forall n, m ::
        (n, m) in X <==> n == m && n !in ShownBy(A, depth, false) && m !in ShownBy(B, depth, false)
    ensures IsBisimulationUpTo(ShownBy(A, depth, false), ShownBy(B, depth, false), X, R) <==> IsLikeness(A, B, depth, R)
  {
    hide ShownBy, ReposAgree, Agree, HasNoLayers;
    forall p | p in R
      ensures ReposAgree(A, p.0, B, p.1, depth, R, false)
          <==> Agree(ShownBy(A, depth, false), p.0, ShownBy(B, depth, false), p.1, R)
      ensures p in X <==> p.0 == p.1 && HasNoLayers(A, p.0, depth) && HasNoLayers(B, p.1, depth)
    {
      ReposAgreeInView(A, p.0, B, p.1, depth, R, false);
      OnlyRootedShown(A, p.0, depth, false);
      OnlyRootedShown(B, p.1, depth, false);
      LayersExist(A, p.0, depth);
      LayersExist(B, p.1, depth);
      assert p == (p.0, p.1);
    }
  }

  lemma MeansTheSameInView(A: Repos, a: string, B: Repos, b: string, depth: nat)
    ensures MeansTheSame(A, a, B, b, depth) <==> SameMeaning(ShownBy(A, depth, false), a, ShownBy(B, depth, false), b)
  {
    hide ShownBy, IsLikeness, IsBisimulationUpTo, SameMeaning;
    var X := iset n: string, m: string
        | n == m && n !in ShownBy(A, depth, false) && m !in ShownBy(B, depth, false) :: (n, m);
    SameMeaningIffRelated(ShownBy(A, depth, false), a, ShownBy(B, depth, false), b, X);
    forall R: Relation
      ensures IsBisimulationUpTo(ShownBy(A, depth, false), ShownBy(B, depth, false), X, R)
          <==> IsLikeness(A, B, depth, R)
    {
      LikenessInView(A, B, depth, R, X);
    }
  }

  lemma ExchangeableIsAlike(repos: Repos, depth: nat)
    ensures Exchangeable(repos, depth) == Alike(ComparedView(repos, depth))
  {
    hide Interchangeable, Indistinguishable;
    forall a, b ensures Interchangeable(repos, depth, a, b, true) <==>
                        Indistinguishable(ComparedView(repos, depth), a, b)
    {
      InterchangeableIsAlike(repos, depth, a, b, true);
    }
  }
}
