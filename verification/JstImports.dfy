// Which repositories an import needs (bin/jst-lock.py:788-848, bin/jst-import-git.py): those to be
// imported fully, with their bindings, and those needed only as layers or for a workspace root.
module JstImports {
  import opened Wrappers
  import opened JstRepos

  // ---- What a repository refers to ----

  function StringRoot(repo: Repo): Option<string> {
    if repo.repository.Named? then Some(repo.repository.name) else None
  }

  // get_base_repo_if_computed: the repository that a root is computed from, at the end of the names.
  function BaseOf(repos: Repos, ref: Reference, depth: nat): Option<string> {
    var root := if ref.Given? then Some(ref.root) else GetRoot(repos, ref.name, depth);
    if root.Some? then RepoOf(root.value) else None
  }

  predicate IsBinding(repo: Repo, x: string) {
    exists l :: l in repo.bindings && repo.bindings[l] == x
  }

  predicate IsLayer(repo: Repo, x: string) {
    repo.targetRoot == Some(x) || repo.ruleRoot == Some(x) || repo.expressionRoot == Some(x)
  }

  // x has to be imported fully for any use of the repository: its own root or one of its layers is
  // computed from x.
  ghost predicate IsBase(repos: Repos, repo: Repo, depth: nat, x: string) {
    || (repo.repository.Given? && RepoOf(repo.repository.root) == Some(x))
    || exists l :: IsLayer(repo, l) && l in repos && BaseOf(repos, repos[l].repository, depth) == Some(x)
  }

  // ---- What an import needs ----

  // Reached from entry within n references, without going through known names: fully, or for its
  // workspace root only.
  ghost predicate NeedsFull(repos: Repos, known: set<string>, entry: string, depth: nat, x: string, n: nat)
    decreases n
  {
    x !in known &&
    (x == entry || (n > 0 && exists y ::
      (NeedsFull(repos, known, entry, depth, y, n - 1) || NeedsRoot(repos, known, entry, depth, y, n - 1)) && y in repos
      && (IsBase(repos, repos[y], depth, x) || (NeedsFull(repos, known, entry, depth, y, n - 1)
            && IsBinding(repos[y], x)))))
  }

  ghost predicate NeedsRoot(repos: Repos, known: set<string>, entry: string, depth: nat, x: string, n: nat)
    decreases n
  {
    x !in known && n > 0 && exists y ::
      (NeedsFull(repos, known, entry, depth, y, n - 1) || NeedsRoot(repos, known, entry, depth, y, n - 1)) && y in repos
      && StringRoot(repos[y]) == Some(x)
  }

  // The number of names to follow up to a proper root.
  function Height(repos: Repos, name: string, depth: nat): nat
    requires GetRoot(repos, name, depth).Some?
    decreases depth
  {
    if repos[name].repository.Given? then 0 else 1 + Height(repos, repos[name].repository.name, depth - 1)
  }

  lemma {:induction false} HeightBelow(repos: Repos, name: string, depth: nat, depth': nat)
    requires GetRoot(repos, name, depth).Some? && GetRoot(repos, name, depth').Some?
    ensures Height(repos, name, depth) == Height(repos, name, depth')
    ensures GetRoot(repos, name, depth) == GetRoot(repos, name, depth')
    decreases depth
  {
    if !repos[name].repository.Given? {
      HeightBelow(repos, repos[name].repository.name, depth - 1, depth' - 1);
    }
  }

  // An import within a configuration: the repositories named in an import map are known.
  datatype Import = Import(repos: Repos, known: set<string>, entry: string, depth: nat)
  {
    ghost predicate Full(x: string) {
      exists n: nat :: NeedsFull(repos, known, entry, depth, x, n)
    }

    ghost predicate Root(x: string) {
      exists n: nat :: NeedsRoot(repos, known, entry, depth, x, n)
    }

    // Some needed repository has x as a layer.
    ghost predicate Layer(x: string) {
      x !in known && exists y :: (Full(y) || Root(y)) && y in repos && IsLayer(repos[y], x)
    }
  }

  lemma {:induction false} NeedsMore(im: Import, x: string, n: nat, m: nat)
    requires n <= m
    ensures NeedsFull(im.repos, im.known, im.entry, im.depth, x, n) ==>
              NeedsFull(im.repos, im.known, im.entry, im.depth, x, m)
    ensures NeedsRoot(im.repos, im.known, im.entry, im.depth, x, n) ==>
              NeedsRoot(im.repos, im.known, im.entry, im.depth, x, m)
    decreases n
  {
    if n > 0 {
      var n', m': nat := n - 1, m - 1;
      forall y
        ensures NeedsFull(im.repos, im.known, im.entry, im.depth, y, n') ==>
                  NeedsFull(im.repos, im.known, im.entry, im.depth, y, m')
        ensures NeedsRoot(im.repos, im.known, im.entry, im.depth, y, n') ==>
                  NeedsRoot(im.repos, im.known, im.entry, im.depth, y, m')
      {
        NeedsMore(im, y, n', m');
      }
    }
  }

  // How needs spread from a repository y that is needed.
  lemma NeedsSpread(im: Import, y: string, x: string)
    requires y in im.repos && x !in im.known
    ensures im.Full(y) && IsBinding(im.repos[y], x) ==> im.Full(x)
    ensures (im.Full(y) || im.Root(y)) && IsBase(im.repos, im.repos[y], im.depth, x) ==> im.Full(x)
    ensures (im.Full(y) || im.Root(y)) && StringRoot(im.repos[y]) == Some(x) ==> im.Root(x)
  {
    if im.Full(y) {
      var n: nat :| NeedsFull(im.repos, im.known, im.entry, im.depth, y, n);
      SpreadOne(im, y, x, n);
    }
    if im.Root(y) {
      var n: nat :| NeedsRoot(im.repos, im.known, im.entry, im.depth, y, n);
      SpreadOne(im, y, x, n);
    }
  }

  lemma SpreadOne(im: Import, y: string, x: string, n: nat)
    requires y in im.repos && x !in im.known
    requires NeedsFull(im.repos, im.known, im.entry, im.depth, y, n)
        || NeedsRoot(im.repos, im.known, im.entry, im.depth, y, n)
    ensures NeedsFull(im.repos, im.known, im.entry, im.depth, y, n) && IsBinding(im.repos[y], x) ==> im.Full(x)
    ensures IsBase(im.repos, im.repos[y], im.depth, x) ==> im.Full(x)
    ensures StringRoot(im.repos[y]) == Some(x) ==> im.Root(x)
  {
    assert NeedsFull(im.repos, im.known, im.entry, im.depth, y, n) && IsBinding(im.repos[y], x) ==>
          NeedsFull(im.repos, im.known, im.entry, im.depth, x, n + 1);
    assert IsBase(im.repos, im.repos[y], im.depth, x) ==> NeedsFull(im.repos, im.known, im.entry, im.depth, x, n + 1);
    assert StringRoot(im.repos[y]) == Some(x) ==> NeedsRoot(im.repos, im.known, im.entry, im.depth, x, n + 1);
  }

  // ---- What is closed ----

  // The repositories imported fully, those visited for their root, and those added as layers.
  datatype Lists = Lists(full: set<string>, roots: set<string>, layers: set<string>)
  {
    predicate IsWithin(other: Lists) {
      full <= other.full && roots <= other.roots && layers <= other.layers
    }
  }

  predicate IsImported(im: Import, ls: Lists, x: string) {
    x in ls.full || x in im.known
  }

  predicate IsAvailable(im: Import, ls: Lists, x: string) {
    x in ls.full || x in ls.roots || x in ls.layers || x in im.known
  }

  ghost predicate SourceDone(im: Import, ls: Lists, y: string) {
    y in im.repos
    && (forall x | StringRoot(im.repos[y]) == Some(x) :: IsImported(im, ls, x) || x in ls.roots)
    && (forall x | im.repos[y].repository.Given? && RepoOf(im.repos[y].repository.root) == Some(x) ::
          IsImported(im, ls, x))
  }

  ghost predicate LayerDone(im: Import, ls: Lists, l: string) {
    IsAvailable(im, ls, l)
    && (l in im.repos ==> forall x | BaseOf(im.repos, im.repos[l].repository, im.depth) == Some(x) ::
          IsImported(im, ls, x))
  }

  // All that the root and the layers of y need is there.
  ghost predicate PartDone(im: Import, ls: Lists, y: string) {
    SourceDone(im, ls, y) && forall l | IsLayer(im.repos[y], l) :: LayerDone(im, ls, l)
  }

  ghost predicate FullDone(im: Import, ls: Lists, y: string) {
    PartDone(im, ls, y) && forall x | IsBinding(im.repos[y], x) :: IsImported(im, ls, x)
  }

  lemma DoneStays(im: Import, before: Lists, after: Lists, y: string)
    requires before.IsWithin(after)
    ensures SourceDone(im, before, y) ==> SourceDone(im, after, y)
    ensures LayerDone(im, before, y) ==> LayerDone(im, after, y)
    ensures PartDone(im, before, y) ==> PartDone(im, after, y)
    ensures FullDone(im, before, y) ==> FullDone(im, after, y)
  {
    if PartDone(im, before, y) {
      forall l | IsLayer(im.repos[y], l) ensures LayerDone(im, after, l) {
        assert LayerDone(im, before, l);
      }
    }
  }

  // More is listed, and all that is new is closed.
  ghost predicate Progress(im: Import, before: Lists, after: Lists) {
    && before.IsWithin(after)
    && (forall y | y in after.full && y !in before.full :: FullDone(im, after, y))
    && (forall y | y in after.roots && y !in before.roots :: PartDone(im, after, y))
  }

  lemma ProgressAtAll(im: Import, a: Lists, b: Lists)
    ensures Progress(im, a, a) && (Progress(im, a, b) ==> a.IsWithin(b))
  {
  }

  lemma ProgressContinues(im: Import, a: Lists, b: Lists, c: Lists)
    requires Progress(im, a, b) && Progress(im, b, c)
    ensures Progress(im, a, c)
  {
    forall y | y in c.full && y !in a.full ensures FullDone(im, c, y) {
      DoneStays(im, b, c, y);
    }
    forall y | y in c.roots && y !in a.roots ensures PartDone(im, c, y) {
      DoneStays(im, b, c, y);
    }
  }

  // y has just been listed as fully imported, and is done now.
  lemma ProgressFully(im: Import, a: Lists, y: string, c: Lists)
    requires Progress(im, a.(full := a.full + {y}), c) && FullDone(im, c, y)
    ensures Progress(im, a, c)
  {
  }

  lemma ProgressRoot(im: Import, a: Lists, y: string, c: Lists)
    requires Progress(im, a.(roots := a.roots + {y}), c) && PartDone(im, c, y)
    ensures Progress(im, a, c)
  {
  }

  lemma ProgressLayer(im: Import, a: Lists, l: string)
    ensures Progress(im, a, a.(layers := a.layers + {l}))
  {
  }

  ghost predicate Closed(im: Import, ls: Lists) {
    IsImported(im, ls, im.entry) && Progress(im, Lists({}, {}, {}), ls)
  }

  // What is closed holds all that is needed.
  lemma {:induction false} ClosedHasAll(im: Import, ls: Lists, x: string, n: nat)
    requires Closed(im, ls)
    ensures NeedsFull(im.repos, im.known, im.entry, im.depth, x, n) ==> x in ls.full
    ensures NeedsRoot(im.repos, im.known, im.entry, im.depth, x, n) ==> x in ls.full || x in ls.roots
    decreases n
  {
    hide Closed, IsBase, IsBinding, StringRoot, BaseOf;
    if n == 0 {
      EntryIsImported(im, ls);
    } else {
      EntryIsImported(im, ls);
      forall y
        ensures NeedsFull(im.repos, im.known, im.entry, im.depth, y, n - 1) ==> y in ls.full
        ensures NeedsRoot(im.repos, im.known, im.entry, im.depth, y, n - 1) ==> y in ls.full || y in ls.roots
      {
        ClosedHasAll(im, ls, y, n - 1);
      }
      forall y | (y in ls.full || y in ls.roots) && y in im.repos
        ensures IsBase(im.repos, im.repos[y], im.depth, x) ==> IsImported(im, ls, x)
        ensures y in ls.full && IsBinding(im.repos[y], x) ==> IsImported(im, ls, x)
        ensures StringRoot(im.repos[y]) == Some(x) ==> IsImported(im, ls, x) || x in ls.roots
      {
        ClosedStep(im, ls, y, x);
      }
    }
  }

  lemma EntryIsImported(im: Import, ls: Lists)
    requires Closed(im, ls)
    ensures IsImported(im, ls, im.entry)
  {
  }

  lemma ClosedStep(im: Import, ls: Lists, y: string, x: string)
    requires Closed(im, ls) && (y in ls.full || y in ls.roots) && y in im.repos
    ensures IsBase(im.repos, im.repos[y], im.depth, x) ==> IsImported(im, ls, x)
    ensures y in ls.full && IsBinding(im.repos[y], x) ==> IsImported(im, ls, x)
    ensures StringRoot(im.repos[y]) == Some(x) ==> IsImported(im, ls, x) || x in ls.roots
  {
    assert y in ls.full ==> FullDone(im, ls, y);
    assert PartDone(im, ls, y);
    hide Closed;
    if IsBase(im.repos, im.repos[y], im.depth, x) {
      BaseImported(im, ls, y, x);
    }
  }

  lemma BaseImported(im: Import, ls: Lists, y: string, x: string)
    requires PartDone(im, ls, y) && y in im.repos && IsBase(im.repos, im.repos[y], im.depth, x)
    ensures IsImported(im, ls, x)
  {
    if !(im.repos[y].repository.Given? && RepoOf(im.repos[y].repository.root) == Some(x)) {
      var l :| IsLayer(im.repos[y], l) && l in im.repos
          && BaseOf(im.repos, im.repos[l].repository, im.depth) == Some(x);
      assert LayerDone(im, ls, l);
    }
  }

  // ---- What is listed ----

  // Anything that holds all needs.
  datatype Needs = Needs(full: iset<string>, root: iset<string>, layer: iset<string>)

  predicate Needed(w: Needs, y: string) {
    y in w.full || y in w.root
  }

  // The needs of y are in w.
  ghost predicate SpreadsFrom(im: Import, w: Needs, y: string)
    requires y in im.repos
  {
    && (y in w.full ==> forall x | IsBinding(im.repos[y], x) :: x in im.known || x in w.full)
    && (forall x | IsBase(im.repos, im.repos[y], im.depth, x) :: x in im.known || x in w.full)
    && (forall x | StringRoot(im.repos[y]) == Some(x) :: x in im.known || x in w.root)
    && (forall x | IsLayer(im.repos[y], x) :: x in im.known || x in w.layer)
  }

  ghost predicate HoldsNeeds(im: Import, w: Needs) {
    && (im.entry in im.known || im.entry in w.full)
    && (forall y | y in im.repos && Needed(w, y) :: SpreadsFrom(im, w, y))
  }

  ghost function AllNeeds(im: Import): Needs {
    Needs(iset x | im.Full(x), iset x | im.Root(x), iset x | im.Layer(x))
  }

  // What is needed holds all needs itself: with every repository that is needed fully, its bindings
  // and all that its root and its layers are computed from are needed fully or known, and its root
  // and its layers are needed or known.
  lemma AllNeedsHolds(im: Import)
    ensures HoldsNeeds(im, AllNeeds(im))
  {
    var w := AllNeeds(im);
    if im.entry !in im.known {
      assert NeedsFull(im.repos, im.known, im.entry, im.depth, im.entry, 0);
    }
    forall y | y in im.repos && Needed(w, y) ensures SpreadsFrom(im, w, y) {
      assert im.Full(y) || im.Root(y);
      forall x | x !in im.known
        ensures im.Full(y) && IsBinding(im.repos[y], x) ==> im.Full(x)
        ensures IsBase(im.repos, im.repos[y], im.depth, x) ==> im.Full(x)
        ensures StringRoot(im.repos[y]) == Some(x) ==> im.Root(x)
        ensures IsLayer(im.repos[y], x) ==> im.Layer(x)
      {
        NeedsSpread(im, y, x);
      }
    }
  }

  // And nothing that holds all needs has less.
  lemma {:induction false} NeedsAreHeld(im: Import, w: Needs, x: string, n: nat)
    requires HoldsNeeds(im, w)
    ensures NeedsFull(im.repos, im.known, im.entry, im.depth, x, n) ==> x in w.full
    ensures NeedsRoot(im.repos, im.known, im.entry, im.depth, x, n) ==> x in w.root
    decreases n
  {
    if n > 0 {
      forall y
        ensures NeedsFull(im.repos, im.known, im.entry, im.depth, y, n - 1) ==> y in w.full
        ensures NeedsRoot(im.repos, im.known, im.entry, im.depth, y, n - 1) ==> y in w.root
      {
        NeedsAreHeld(im, w, y, n - 1);
      }
    }
  }

  lemma AllNeedsAreHeld(im: Import, w: Needs)
    requires HoldsNeeds(im, w)
    ensures forall x | im.Full(x) :: x in w.full
    ensures forall x | im.Root(x) :: x in w.root
    ensures forall x | im.Layer(x) :: x in w.layer
  {
    forall x
      ensures im.Full(x) ==> x in w.full
      ensures im.Root(x) ==> x in w.root
    {
      if n: nat :| NeedsFull(im.repos, im.known, im.entry, im.depth, x, n) {
        NeedsAreHeld(im, w, x, n);
      }
      if n: nat :| NeedsRoot(im.repos, im.known, im.entry, im.depth, x, n) {
        NeedsAreHeld(im, w, x, n);
      }
    }
    forall x | im.Layer(x) ensures x in w.layer {
      var y :| (im.Full(y) || im.Root(y)) && y in im.repos && IsLayer(im.repos[y], x);
      assert SpreadsFrom(im, w, y);
    }
  }

  // Only what is needed is listed, once.
  ghost predicate IsSound(im: Import, w: Needs, ls: Lists, extra: set<string>) {
    && ls.full <= im.repos.Keys && ls.roots <= im.repos.Keys && ls.layers <= im.repos.Keys
    && ls.full !! extra && ls.full !! im.known && ls.roots !! im.known && ls.layers !! im.known
    && extra <= ls.roots + ls.layers
    && (forall x | x in ls.full :: x in w.full)
    && (forall x | x in ls.roots :: x in w.root)
    && (forall x | x in ls.layers :: x in w.layer)
  }

  // Whatever was needed is in one of the results, except for the hole.
  ghost predicate IsListed(ls: Lists, extra: set<string>, hole: set<string>) {
    ls.roots + ls.layers <= ls.full + extra + hole
  }
}
