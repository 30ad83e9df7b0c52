// How the descriptions of imported repositories are rewritten (bin/jst-lock.py:994-1036) and added
// (bin/jst-lock.py:1107-1127).
module ImportRewriting {
  import opened Wrappers
  import opened Prefixes
  import opened JstRepos
  import opened PairMarking
  import opened JstImports

  // ---- The names in a description ----

  predicate InDistdir(repo: Repo, x: string) {
    repo.repository.Given? && repo.repository.root.source.Distdir? && x in repo.repository.root.source.repositories
  }

  // The names that rewrite_repo looks up.
  ghost predicate LooksUp(repo: Repo, asLayer: bool, x: string) {
    || StringRoot(repo) == Some(x)
    || (repo.repository.Given? && RepoOf(repo.repository.root) == Some(x))
    || InDistdir(repo, x)
    || (!asLayer && (IsLayer(repo, x) || IsBinding(repo, x)))
  }

  // How descriptions of file roots are adapted to where the import comes from, and how pragmas are
  // updated.
  datatype Remote = Remote(rewriteFile: Root -> Root, updatePragmas: Root -> Root)
  {
    ghost predicate Valid() {
      && (forall root :: updatePragmas(root).source == root.source && updatePragmas(root).others == root.others)
      && (forall root :: RepoOf(rewriteFile(root)).None? && !rewriteFile(root).source.Distdir?)
    }
  }

  type Assignment = map<string, string>

  predicate Assigns(assign: Assignment, x: Option<string>) {
    x.Some? ==> x.value in assign
  }

  function Assigned(assign: Assignment, x: Option<string>): Option<string>
    requires Assigns(assign, x)
  {
    if x.Some? then Some(assign[x.value]) else None
  }

  // ---- What a rewritten description is ----

  // The names assigned.
  ghost function NamesBy(assign: Assignment): Relation {
    iset x: string, y: string | x in assign && assign[x] == y :: (x, y)
  }

  // y is what becomes of the root x, with the repository it is computed from replaced as N says and those
  // of a distribution directory as L says, before the pragma is updated.
  ghost predicate IsRewrittenRoot(x: Root, y: Root, N: Relation, L: Relation, remote: Remote) {
    match x.source
    case File(_) => y == remote.rewriteFile(x)
    case Distdir(repositories) =>
      && y.pragma == x.pragma && y.others == x.others
      && y.source.Distdir? && |y.source.repositories| == |repositories|
      && forall k | 0 <= k < |repositories| :: (repositories[k], y.source.repositories[k]) in L
    case _ => y.pragma == x.pragma && IsRedirected(x, y, N)
  }

  ghost predicate IsImportedRoot(x: Root, y: Root, N: Relation, L: Relation, remote: Remote) {
    exists r :: IsRewrittenRoot(x, r, N, L, remote) && y == remote.updatePragmas(r)
  }

  // A layer is imported with its root only.
  ghost predicate HasRootOnly(repo: Repo) {
    && repo.targetRoot == None && repo.ruleRoot == None && repo.expressionRoot == None
    && repo.targetFile == None && repo.ruleFile == None && repo.expressionFile == None
    && repo.bindings == map[]
  }

  // b is the description a with all names replaced, and each of them in its place.
  ghost predicate IsImportOf(a: Repo, b: Repo, N: Relation, remote: Remote, asLayer: bool) {
    && (match a.repository
        case Named(x) => b.repository.Named? && (x, b.repository.name) in N
        case Given(root) => b.repository.Given? && IsImportedRoot(root, b.repository.root, N, N, remote))
    && if asLayer then HasRootOnly(b)
       else
         && IsNameReplaced(a.targetRoot, b.targetRoot, N)
         && IsNameReplaced(a.ruleRoot, b.ruleRoot, N)
         && IsNameReplaced(a.expressionRoot, b.expressionRoot, N)
         && HasFilesOf(a, b)
         && AreBindingsReplaced(a, b, N)
  }

  // ---- Rewriting ----

  function RewriteRoot(root: Root, assign: Assignment, remote: Remote): (r: Option<Root>)
    ensures r.Some? <==> (forall x | LooksUpRoot(root, x) :: x in assign)
    ensures r.Some? ==> IsRewrittenRoot(root, r.value, NamesBy(assign), NamesBy(assign), remote)
  {
    match root.source
    case File(_) => Some(remote.rewriteFile(root))
    case Distdir(repositories) =>
      if forall x | x in repositories :: x in assign then
        Some(root.(source := Distdir(seq(|repositories|, i
            requires 0 <= i < |repositories| => assign[repositories[i]]))))
      else
        (assert exists x :: LooksUpRoot(root, x) && x !in assign by {
           var x :| x in repositories && x !in assign;
           assert LooksUpRoot(root, x);
         }
         None)
    case Computed(repo, target, config) =>
      assert LooksUpRoot(root, repo);
      if repo in assign then Some(root.(source := Computed(assign[repo], target, config))) else None
    case TreeStructure(repo) =>
      assert LooksUpRoot(root, repo);
      if repo in assign then Some(root.(source := TreeStructure(assign[repo]))) else None
    case _ => Some(root)
  }

  ghost predicate LooksUpRoot(root: Root, x: string) {
    RepoOf(root) == Some(x) || (root.source.Distdir? && x in root.source.repositories)
  }

  function RewriteReference(ref: Reference, assign: Assignment, remote: Remote): Option<Reference> {
    match ref
    case Named(name) => if name in assign then Some(Named(assign[name])) else None
    case Given(root) =>
      var rewritten := RewriteRoot(root, assign, remote);
      if rewritten.Some? then Some(Given(remote.updatePragmas(rewritten.value))) else None
  }

  // rewrite_repo; None stands for the exception on a name that is not assigned.
  function RewriteRepo(repo: Repo, assign: Assignment, remote: Remote, asLayer: bool): (r: Option<Repo>)
    ensures r.Some? ==> IsImportOf(repo, r.value, NamesBy(assign), remote, asLayer)
  {
    var ref := RewriteReference(repo.repository, assign, remote);
    if ref.None? then None
    else if asLayer then Some(Repo(ref.value, None, None, None, None, None, None, map[]))
    else if !Assigns(assign, repo.targetRoot) || !Assigns(assign, repo.ruleRoot)
        || !Assigns(assign, repo.expressionRoot) then None
    else if exists l | l in repo.bindings :: repo.bindings[l] !in assign then None
    else Some(Repo(ref.value,
                   Assigned(assign, repo.targetRoot), Assigned(assign, repo.ruleRoot),
                       Assigned(assign, repo.expressionRoot),
                   repo.targetFile, repo.ruleFile, repo.expressionFile,
                   map l | l in repo.bindings :: assign[repo.bindings[l]]))
  }

  // Rewriting succeeds if and only if all names looked up are assigned.
  lemma RewritingSucceeds(repo: Repo, assign: Assignment, remote: Remote, asLayer: bool)
    ensures RewriteRepo(repo, assign, remote, asLayer).Some? <==> CanRewrite(repo, assign, asLayer)
  {
    if CanRewrite(repo, assign, asLayer) {
      if repo.repository.Given? {
        forall x | LooksUpRoot(repo.repository.root, x) ensures x in assign {
          assert LooksUp(repo, asLayer, x);
        }
      }
      if !asLayer {
        forall x | IsLayer(repo, x) || IsBinding(repo, x) ensures x in assign {
          assert LooksUp(repo, asLayer, x);
        }
        forall l | l in repo.bindings ensures repo.bindings[l] in assign {
          assert IsBinding(repo, repo.bindings[l]);
        }
      }
    } else {
      var x :| LooksUp(repo, asLayer, x) && x !in assign;
      assert InDistdir(repo, x) ==> LooksUpRoot(repo.repository.root, x);
      assert repo.repository.Given? && RepoOf(repo.repository.root) == Some(x) ==> LooksUpRoot(repo.repository.root, x);
    }
  }

  ghost predicate CanRewrite(repo: Repo, assign: Assignment, asLayer: bool) {
    forall x | LooksUp(repo, asLayer, x) :: x in assign
  }

  // What is rewritten refers to assigned names only.
  lemma RewrittenRefers(repo: Repo, rewritten: Repo, N: Relation, remote: Remote, asLayer: bool, x: string)
    requires remote.Valid() && IsImportOf(repo, rewritten, N, remote, asLayer) && LooksUp(rewritten, false, x)
    ensures exists y :: LooksUp(repo, asLayer, y) && (y, x) in N
  {
    if IsLayer(rewritten, x) {
      var y := if rewritten.targetRoot == Some(x) then repo.targetRoot.value
               else if rewritten.ruleRoot == Some(x) then repo.ruleRoot.value else repo.expressionRoot.value;
      assert LooksUp(repo, asLayer, y) && (y, x) in N;
    } else if IsBinding(rewritten, x) {
      var l :| l in rewritten.bindings && rewritten.bindings[l] == x;
      assert IsBinding(repo, repo.bindings[l]) && LooksUp(repo, asLayer, repo.bindings[l]);
    } else {
      ReferenceRefers(repo, rewritten, N, remote, asLayer, x);
    }
  }

  lemma ReferenceRefers(repo: Repo, rewritten: Repo, N: Relation, remote: Remote, asLayer: bool, x: string)
    requires remote.Valid() && IsImportOf(repo, rewritten, N, remote, asLayer) && LooksUp(rewritten, true, x)
    ensures exists y :: LooksUp(repo, asLayer, y) && (y, x) in N
  {
    if repo.repository.Named? {
      assert LooksUp(repo, asLayer, repo.repository.name);
    } else {
      var root := repo.repository.root;
      var r :| IsRewrittenRoot(root, r, N, N, remote) && rewritten.repository.root == remote.updatePragmas(r);
      assert !root.source.File?;
      if root.source.Distdir? {
        var k :| 0 <= k < |r.source.repositories| && r.source.repositories[k] == x;
        assert LooksUp(repo, asLayer, root.source.repositories[k]);
      } else {
        assert LooksUp(repo, asLayer, RepoOf(root).value);
      }
    }
  }

  // ---- Adding what is imported ----

  // repo is what the foreign repository x becomes, under the name n.
  ghost predicate IsImportedAs(foreign: Repos, assign: Assignment, total: Assignment, remote: Remote, asLayer: bool,
                               x: string, n: string, repo: Repo)
  {
    x in foreign && x in assign && assign[x] == n && IsImportOf(foreign[x], repo, NamesBy(total), remote, asLayer)
  }

  // Under each name given there is one of the repositories of that name; all else is as before.
  ghost predicate IsAdded(before: Repos, foreign: Repos, order: seq<string>, assign: Assignment, total: Assignment,
                          remote: Remote, asLayer: bool, after: Repos)
  {
    && (forall n :: n in after <==> n in before || IsGiven(order, assign, n))
    && (forall n | n in before && !IsGiven(order, assign, n) :: after[n] == before[n])
    && (forall n | n in after && IsGiven(order, assign, n) ::
          exists x :: x in order && IsImportedAs(foreign, assign, total, remote, asLayer, x, n, after[n]))
  }

  ghost predicate IsGiven(order: seq<string>, assign: Assignment, n: string) {
    exists x :: x in order && x in assign && assign[x] == n
  }

  // The loop over a list of repositories to import.
  method AddImported(before: Repos, foreign: Repos, order: seq<string>, assign: Assignment, total: Assignment,
                     remote: Remote, asLayer: bool)
    returns (after: Option<Repos>)
    requires forall x | x in order :: x in foreign && x in assign
    ensures after.Some? <==> forall x | x in order :: CanRewrite(foreign[x], total, asLayer)
    ensures after.Some? ==> IsAdded(before, foreign, order, assign, total, remote, asLayer, after.value)
  {
    hide RewriteRepo, IsAdded, CanRewrite, IsImportOf;
    var repos := before;
    NothingAdded(before, foreign, assign, total, remote, asLayer);
    for i := 0 to |order|
      invariant forall x | x in order[..i] :: CanRewrite(foreign[x], total, asLayer)
      invariant IsAdded(before, foreign, order[..i], assign, total, remote, asLayer, repos)
    {
      PrefixStep(order, i);
      RewritingSucceeds(foreign[order[i]], total, remote, asLayer);
      var rewritten := RewriteRepo(foreign[order[i]], total, remote, asLayer);
      if rewritten.None? {
        return None;
      }
      AddedNext(before, foreign, order[..i], assign, total, remote, asLayer, repos, order[i], rewritten.value);
      repos := repos[assign[order[i]] := rewritten.value];
    }
    PrefixAll(order);
    after := Some(repos);
  }

  lemma NothingAdded(before: Repos, foreign: Repos, assign: Assignment, total: Assignment, remote: Remote,
                     asLayer: bool)
    ensures IsAdded(before, foreign, [], assign, total, remote, asLayer, before)
  {
  }

  lemma AddedNext(before: Repos, foreign: Repos, order: seq<string>, assign: Assignment, total: Assignment,
                  remote: Remote, asLayer: bool, after: Repos, x: string, repo: Repo)
    requires IsAdded(before, foreign, order, assign, total, remote, asLayer, after)
    requires x in foreign && x in assign && IsImportOf(foreign[x], repo, NamesBy(total), remote, asLayer)
    ensures IsAdded(before, foreign, order + [x], assign, total, remote, asLayer, after[assign[x] := repo])
  {
    var after', all := after[assign[x] := repo], order + [x];
    hide IsImportOf;
    forall n ensures IsGiven(all, assign, n) <==> IsGiven(order, assign, n) || n == assign[x] {
      assert x in all && forall y | y in order :: y in all;
    }
    forall n | n in after' && IsGiven(all, assign, n)
      ensures exists y :: y in all && IsImportedAs(foreign, assign, total, remote, asLayer, y, n, after'[n])
    {
      if n == assign[x] {
        assert x in all && IsImportedAs(foreign, assign, total, remote, asLayer, x, n, repo);
      } else {
        var y :| y in order && IsImportedAs(foreign, assign, total, remote, asLayer, y, n, after[n]);
        assert y in all;
      }
    }
  }

  // ---- The outcome ----

  // What is imported fully and otherwise, and under which names.
  datatype Imported = Imported(full: set<string>, extra: set<string>, assign: Assignment)

  // Every imported repository is found under its own name.
  ghost predicate IsFoundIn(foreign: Repos, importMap: Assignment, remote: Remote, i: Imported, repos: Repos) {
    forall x | x in i.assign ::
      && i.assign[x] in repos
      && IsImportedAs(foreign, i.assign, i.assign + importMap, remote, x in i.extra, x, i.assign[x], repos[i.assign[x]])
  }
}
