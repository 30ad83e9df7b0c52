// Repository configurations as jst-lock sees them, and the system of states its bisimulation is
// about (bin/jst-lock.py, share/man/jst-repo-config.5.md).
module JstRepos {
  import opened Wrappers
  import opened Bisimulation

  datatype Pragma = Pragma(absent: Option<bool>, toGit: Option<bool>, others: string)

  // What a workspace root is, by type. Distribution directories and all types not listed are
  // compared in full.
  datatype Source =
    | File(path: string)
    | Archive(zip: bool, content: string, subdir: Option<string>)
    | Git(commit: string, subdir: Option<string>)
    | Computed(repo: string, target: string, config: Option<string>)
    | TreeStructure(repo: string)
    | Distdir(repositories: seq<string>)
    | Unknown(kind: string, body: string)

  // others stands for the fields that do not determine the content, such as where to fetch from.
  datatype Root = Root(source: Source, others: string, pragma: Option<Pragma>)

  datatype Reference = Named(name: string) | Given(root: Root)

  datatype Repo = Repo(
    repository: Reference,
    targetRoot: Option<string>, ruleRoot: Option<string>, expressionRoot: Option<string>,
    targetFile: Option<string>, ruleFile: Option<string>, expressionFile: Option<string>,
    bindings: map<string, string>)
  {
    // The name given for the i-th of the four roots; the workspace root is the repository's own.
    function RootName(self: string, i: nat): Option<string> {
      if i == 0 then Some(self) else if i == 1 then targetRoot else if i == 2 then ruleRoot else expressionRoot
    }
  }

  type Repos = map<string, Repo>

  function GetOr(o: Option<string>, default: string): string {
    if o.Some? then o.value else default
  }

  // get_root: follow names until a proper root is found, at most depth of them. Without a proper
  // root at the end of the chain the program fails.
  function GetRoot(repos: Repos, name: string, depth: nat): Option<Root>
    decreases depth
  {
    if depth == 0 || name !in repos then None
    else if repos[name].repository.Given? then Some(repos[name].repository.root)
    else GetRoot(repos, repos[name].repository.name, depth - 1)
  }

  lemma {:induction false} GetRootDeeper(repos: Repos, name: string, depth: nat)
    requires GetRoot(repos, name, depth).Some?
    ensures GetRoot(repos, name, depth + 1) == GetRoot(repos, name, depth)
    decreases depth
  {
    if repos[name].repository.Named? {
      GetRootDeeper(repos, repos[name].repository.name, depth - 1);
    }
  }

  // The i-th root of a repository; one that is not given is the previous one.
  function RootAt(repos: Repos, name: string, i: nat, depth: nat): Option<Root>
    requires name in repos && i < 4
  {
    var given := repos[name].RootName(name, i);
    if given.Some? then GetRoot(repos, given.value, depth) else RootAt(repos, name, i - 1, depth)
  }

  // All four roots are found.
  predicate Rooted(repos: Repos, name: string, depth: nat) {
    name in repos && forall i: nat | i < 4 :: RootAt(repos, name, i, depth).Some?
  }

  // The repository a root is computed from, if any.
  function RepoOf(root: Root): Option<string> {
    match root.source
    case Computed(repo, _, _) => Some(repo)
    case TreeStructure(repo) => Some(repo)
    case _ => None
  }

  // What roots are compared by, apart from the repositories they are computed from.
  function Compared(root: Root): Root {
    match root.source
    case File(path) => Root(File(path), "", None)
    case Archive(zip, content, subdir) => Root(Archive(zip, content, Some(GetOr(subdir, "."))), "", None)
    case Git(commit, subdir) => Root(Git(commit, Some(GetOr(subdir, "."))), "", None)
    case Computed(_, target, config) => Root(Computed("", target, Some(GetOr(config, "{}"))), "", None)
    case TreeStructure(_) => Root(TreeStructure(""), "", None)
    case _ => root
  }

  // What a root means: what it is compared by, and never its pragma.
  function Meaning(root: Root): Root {
    Compared(root).(pragma := None)
  }

  // ---- The system of states ----

  datatype Content = Content(roots: seq<Root>, targetFile: string, ruleFile: string, expressionFile: string)

  datatype Edge = Binding(name: string) | RootRepo(index: nat)

  type View = System<Content, Edge, string>

  function RootsOf(repos: Repos, name: string, depth: nat): (roots: seq<Root>)
    requires Rooted(repos, name, depth)
    ensures |roots| == 4 && forall i: nat | i < 4 :: roots[i] == RootAt(repos, name, i, depth).value
  {
    [RootAt(repos, name, 0, depth).value, RootAt(repos, name, 1, depth).value,
     RootAt(repos, name, 2, depth).value, RootAt(repos, name, 3, depth).value]
  }

  function StateOf(repo: Repo, roots: seq<Root>, summary: Root -> Root): State<Content, Edge, string>
    requires |roots| == 4
  {
    State(
      Content([summary(roots[0]), summary(roots[1]), summary(roots[2]), summary(roots[3])],
              GetOr(repo.targetFile, "TARGETS"), GetOr(repo.ruleFile, "RULES"),
                  GetOr(repo.expressionFile, "EXPRESSIONS")),
      (map l | l in repo.bindings :: Binding(l) := repo.bindings[l])
      + (map i | 0 <= i < 4 && RepoOf(roots[i]).Some? :: RootRepo(i) := RepoOf(roots[i]).value))
  }

  // The states of the repositories all of whose roots are found.
  function ViewBy(repos: Repos, depth: nat, summary: Root -> Root): View {
    map n | n in repos && Rooted(repos, n, depth) :: StateOf(repos[n], RootsOf(repos, n, depth), summary)
  }

  // The view jst-lock compares by.
  function ComparedView(repos: Repos, depth: nat): View {
    ViewBy(repos, depth, Compared)
  }

  // What the repositories mean.
  function MeaningView(repos: Repos, depth: nat): View {
    ViewBy(repos, depth, Meaning)
  }

  // All roots of all repositories are found.
  ghost predicate AllRooted(repos: Repos, depth: nat) {
    forall n | n in repos :: Rooted(repos, n, depth)
  }

  // Every repository named by a binding or as the base of a root exists.
  ghost predicate Linked(repos: Repos) {
    forall n | n in repos ::
      && (forall l | l in repos[n].bindings :: repos[n].bindings[l] in repos)
      && (repos[n].repository.Given? ==> RootClosed(repos, repos[n].repository.root))
  }

  ghost predicate WellFormed(repos: Repos, depth: nat) {
    AllRooted(repos, depth) && Linked(repos)
  }

  predicate RootClosed(repos: Repos, root: Root) {
    RepoOf(root).Some? ==> RepoOf(root).value in repos
  }

  lemma {:induction false} GetRootClosed(repos: Repos, name: string, depth: nat)
    requires GetRoot(repos, name, depth).Some?
    requires forall n | n in repos && repos[n].repository.Given? :: RootClosed(repos, repos[n].repository.root)
    ensures RootClosed(repos, GetRoot(repos, name, depth).value)
    decreases depth
  {
    if !repos[name].repository.Given? {
      GetRootClosed(repos, repos[name].repository.name, depth - 1);
    }
  }

  lemma {:induction false} RootAtClosed(repos: Repos, name: string, i: nat, depth: nat)
    requires name in repos && i < 4 && RootAt(repos, name, i, depth).Some?
    requires forall n | n in repos && repos[n].repository.Given? :: RootClosed(repos, repos[n].repository.root)
    ensures RootClosed(repos, RootAt(repos, name, i, depth).value)
  {
    var given := repos[name].RootName(name, i);
    if given.Some? {
      GetRootClosed(repos, given.value, depth);
    } else {
      RootAtClosed(repos, name, i - 1, depth);
    }
  }

  // In a well-formed configuration all edges lead to states.
  lemma ViewClosed(repos: Repos, depth: nat, summary: Root -> Root, n: string, e: Edge)
    requires WellFormed(repos, depth) && n in repos
    requires e in ViewBy(repos, depth, summary)[n].next
    ensures ViewBy(repos, depth, summary)[n].next[e] in repos
  {
    if e.RootRepo? {
      RootAtClosed(repos, n, e.index, depth);
    }
  }

  // s is the state of repository n.
  ghost predicate IsStateOf(s: State<Content, Edge, string>, repos: Repos, depth: nat, summary: Root -> Root, n: string)
    requires Rooted(repos, n, depth)
  {
    && |s.content.roots| == 4
    && (forall i: nat | i < 4 :: s.content.roots[i] == summary(RootAt(repos, n, i, depth).value))
    && (forall i: nat | i < 4 :: RootRepo(i) in s.next <==> RepoOf(RootAt(repos, n, i, depth).value).Some?)
    && (forall i: nat | i < 4 && RootRepo(i) in s.next ::
          s.next[RootRepo(i)] == RepoOf(RootAt(repos, n, i, depth).value).value)
    && (forall e: Edge | e in s.next && e.RootRepo? :: e.index < 4)
    && (forall l :: Binding(l) in s.next <==> l in repos[n].bindings)
    && (forall l | l in repos[n].bindings :: s.next[Binding(l)] == repos[n].bindings[l])
    && s.content.targetFile == GetOr(repos[n].targetFile, "TARGETS")
    && s.content.ruleFile == GetOr(repos[n].ruleFile, "RULES")
    && s.content.expressionFile == GetOr(repos[n].expressionFile, "EXPRESSIONS")
  }

  lemma StateEdges(repo: Repo, roots: seq<Root>, summary: Root -> Root)
    requires |roots| == 4
    ensures
      var s := StateOf(repo, roots, summary);
      && (forall i: nat | i < 4 :: RootRepo(i) in s.next <==> RepoOf(roots[i]).Some?)
      && (forall i: nat | i < 4 && RootRepo(i) in s.next :: s.next[RootRepo(i)] == RepoOf(roots[i]).value)
      && (forall e: Edge | e in s.next && e.RootRepo? :: e.index < 4)
      && (forall l :: Binding(l) in s.next <==> l in repo.bindings)
      && (forall l | l in repo.bindings :: s.next[Binding(l)] == repo.bindings[l])
  {
  }

  lemma ViewState(repos: Repos, depth: nat, summary: Root -> Root, n: string)
    requires Rooted(repos, n, depth)
    ensures n in ViewBy(repos, depth, summary)
    ensures IsStateOf(ViewBy(repos, depth, summary)[n], repos, depth, summary, n)
  {
    var roots := RootsOf(repos, n, depth);
    var s := StateOf(repos[n], roots, summary);
    assert ViewBy(repos, depth, summary)[n] == s;
    StateEdges(repos[n], roots, summary);
    assert s.content.roots[0] == summary(roots[0]) && s.content.roots[1] == summary(roots[1])
        && s.content.roots[2] == summary(roots[2]) && s.content.roots[3] == summary(roots[3]);
  }

  // ---- What remains of a description when names are replaced ----

  // y is the root x, but for the pragma and the repository it is computed from, which is replaced.
  ghost predicate IsRedirected(x: Root, y: Root, N: iset<(string, string)>) {
    y.others == x.others &&
    match x.source
    case Computed(repo, target, config) =>
      y.source.Computed? && y.source.target == target && y.source.config == config && (repo, y.source.repo) in N
    case TreeStructure(repo) => y.source.TreeStructure? && (repo, y.source.repo) in N
    case _ => y.source == x.source
  }

  ghost predicate IsNameReplaced(x: Option<string>, y: Option<string>, N: iset<(string, string)>) {
    if x.Some? then y.Some? && (x.value, y.value) in N else y == None
  }

  ghost predicate HasFilesOf(a: Repo, b: Repo) {
    b.targetFile == a.targetFile && b.ruleFile == a.ruleFile && b.expressionFile == a.expressionFile
  }

  ghost predicate AreBindingsReplaced(a: Repo, b: Repo, N: iset<(string, string)>) {
    b.bindings.Keys == a.bindings.Keys && forall l | l in a.bindings :: (a.bindings[l], b.bindings[l]) in N
  }
}
