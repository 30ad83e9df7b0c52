// repos_to_import (bin/jst-lock.py:797-848, bin/jst-import-git.py): two sets are filled by a
// depth-first search.
module ReposToImport {
  import opened Wrappers
  import opened Sets
  import opened JstRepos
  import opened JstImports

  class Importer {
    const im: Import
    ghost const w: Needs
    var toImport: set<string>
    var extraImports: set<string>
    ghost var roots: set<string>    // those visited for their workspace root
    ghost var layers: set<string>   // those added as a layer

    ghost function Now(): Lists
      reads this
    {
      Lists(toImport, roots, layers)
    }

    ghost predicate Valid(hole: set<string>)
      reads this
    {
      && WellFormed(im.repos, im.depth) && HoldsNeeds(im, w)
      && IsSound(im, w, Now(), extraImports) && IsListed(Now(), extraImports, hole)
    }

    // Names not yet to be imported; visiting terminates because they become less, or the visit of an
    // extra import leads to a full visit, or along the chain of names to a proper root.
    ghost function Left(): nat
      reads this
    {
      |im.repos.Keys - toImport|
    }

    constructor (im: Import, ghost w: Needs)
      requires WellFormed(im.repos, im.depth) && HoldsNeeds(im, w)
      ensures Valid({}) && this.im == im && this.w == w && Now() == Lists({}, {}, {}) && extraImports == {}
    {
      this.im, this.w := im, w;
      toImport, extraImports, roots, layers := {}, {}, {}, {};
    }

    // visit
    method Visit(name: string)
      requires Valid({name}) && name in im.repos
      requires if name in extraImports then name in roots else name in im.known || name in w.full
      modifies this
      ensures Valid({}) && Progress(im, old(Now()), Now())
      ensures if old(name in extraImports) then PartDone(im, Now(), name) else IsImported(im, Now(), name)
      decreases Left(), if name in extraImports then 1 else 0, HeightOf(im, name), 3
    {
      if name in im.known || name in toImport {
        return;
      }
      if name !in extraImports {
        VisitFully(name);
      } else {
        VisitParts(name);
      }
    }

    method VisitFully(name: string)
      requires Valid({name}) && name in im.repos && name !in extraImports && name !in toImport && name !in im.known
      requires name in w.full
      modifies this
      ensures Valid({}) && Progress(im, old(Now()), Now()) && IsImported(im, Now(), name)
      decreases Left(), 0, HeightOf(im, name), 2
    {
      hide WellFormed, HoldsNeeds, Progress, PartDone, HeightOf, BaseOf;
      LeftShrinks(im.repos.Keys, toImport, toImport + {name});
      toImport := toImport + {name};
      ghost var a := Now();
      VisitBindings(name);
      ghost var b := Now();
      ProgressAtAll(im, a, b);
      LeftShrinks(im.repos.Keys, a.full, b.full);
      VisitParts(name);
      ProgressAtAll(im, b, Now());
      DoneStays(im, b, Now(), name);
      ProgressContinues(im, a, b, Now());
      ProgressFully(im, old(Now()), name, Now());
    }

    // The root and the layers.
    method VisitParts(name: string)
      requires Valid({}) && name in im.repos && Needed(w, name)
      modifies this
      ensures Valid({}) && Progress(im, old(Now()), Now()) && PartDone(im, Now(), name)
      decreases Left(), 1, HeightOf(im, name), 2
    {
      VisitSource(name);
      ghost var a := Now();
      LeftShrinks(im.repos.Keys, old(Now()).full, a.full);
      VisitLayers(name);
      DoneStays(im, a, Now(), name);
      ProgressContinues(im, old(Now()), a, Now());
    }

    // A repository is imported fully, from now on.
    method Promote(name: string)
      requires Valid({}) && name in im.repos && (name in im.known || name in w.full)
      modifies this
      ensures Valid({}) && Progress(im, old(Now()), Now()) && IsImported(im, Now(), name)
      decreases Left(), 0, HeightOf(im, name), 4
    {
      extraImports := extraImports - {name};
      Visit(name);
    }

    method VisitBindings(name: string)
      requires Valid({}) && name in toImport
      modifies this
      ensures Valid({}) && Progress(im, old(Now()), Now())
      ensures forall x | IsBinding(im.repos[name], x) :: IsImported(im, Now(), x)
      decreases Left(), 1, HeightOf(im, name), 0
    {
      var bindings := im.repos[name].bindings;
      var todo := bindings.Keys;
      while todo != {}
        invariant Valid({}) && Progress(im, old(Now()), Now()) && todo <= bindings.Keys
        invariant BindingsDone(im, Now(), bindings, todo)
      {
        var l :| l in todo;
        ghost var a := Now();
        LeftShrinks(im.repos.Keys, old(Now()).full, a.full);
        BindingIsNeeded(im, w, name, l);
        Promote(bindings[l]);
        ProgressContinues(im, old(Now()), a, Now());
        BindingsStay(im, a, Now(), bindings, todo, l);
        todo := todo - {l};
      }
    }

    // The workspace root: a referred repository, or the base of a computed root.
    method VisitSource(name: string)
      requires Valid({}) && name in im.repos && Needed(w, name)
      modifies this
      ensures Valid({}) && Progress(im, old(Now()), Now()) && SourceDone(im, Now(), name)
      decreases Left(), 1, HeightOf(im, name), 1
    {
      var repo := im.repos[name].repository;
      if repo.Named? {
        VisitRoot(name, repo.name);
      } else {
        var base := GetBaseRepoIfComputed(im, repo);
        if base.Some? {
          RootBaseIsNeeded(im, w, name, base.value);
          Promote(base.value);
        }
      }
    }

    method VisitRoot(name: string, root: string)
      requires Valid({}) && name in im.repos && Needed(w, name) && im.repos[name].repository == Named(root)
      modifies this
      ensures Valid({}) && Progress(im, old(Now()), Now()) && (IsImported(im, Now(), root) || root in roots)
      decreases Left(), 1, HeightOf(im, name), 0
    {
      hide WellFormed, HoldsNeeds, IsSound, IsListed, Progress, PartDone, HeightOf, BaseOf;
      NextName(im, name);
      ProgressAtAll(im, Now(), Now());
      if root !in im.known && root !in toImport {
        AddRoot(name, root);
        ghost var a := Now();
        Visit(root);
        ProgressAtAll(im, a, Now());
        ProgressRoot(im, old(Now()), root, Now());
      }
    }

    method AddRoot(name: string, root: string)
      requires Valid({}) && name in im.repos && Needed(w, name) && im.repos[name].repository == Named(root)
      requires root in im.repos && root !in im.known && root !in toImport
      modifies this
      ensures Valid({root}) && root in extraImports && Now() == old(Now()).(roots := old(Now()).roots + {root})
    {
      assert SpreadsFrom(im, w, name);
      extraImports := extraImports + {root};
      roots := roots + {root};
    }

    method VisitLayer(name: string, l: string)
      requires Valid({}) && name in im.repos && Needed(w, name) && IsLayer(im.repos[name], l)
      modifies this
      ensures Valid({}) && Progress(im, old(Now()), Now()) && LayerDone(im, Now(), l)
      decreases Left(), 1, HeightOf(im, name), 0
    {
      LayerExists(im, name, l);
      AddLayer(name, l);
      NextName(im, l);
      var base := GetBaseRepoIfComputed(im, im.repos[l].repository);
      if base.Some? {
        ghost var a := Now();
        LayerBaseIsNeeded(im, w, name, l, base.value);
        Promote(base.value);
        ProgressContinues(im, old(Now()), a, Now());
      }
    }

    method AddLayer(name: string, l: string)
      requires Valid({}) && name in im.repos && Needed(w, name) && IsLayer(im.repos[name], l) && l in im.repos
      modifies this
      ensures Valid({}) && Progress(im, old(Now()), Now()) && IsAvailable(im, Now(), l) && toImport == old(toImport)
    {
      if l !in im.known && l !in toImport {
        assert SpreadsFrom(im, w, name);
        extraImports := extraImports + {l};
        layers := layers + {l};
        ProgressLayer(im, old(Now()), l);
      }
    }

    method VisitLayers(name: string)
      requires Valid({}) && name in im.repos && Needed(w, name)
      modifies this
      ensures Valid({}) && Progress(im, old(Now()), Now())
      ensures forall l | IsLayer(im.repos[name], l) :: LayerDone(im, Now(), l)
      decreases Left(), 1, HeightOf(im, name), 1
    {
      var given := AltDirs(im.repos[name]);
      for i := 0 to 3
        invariant Valid({}) && Progress(im, old(Now()), Now())
        invariant LayersDone(im, Now(), given, i)
      {
        if given[i].Some? {
          AltDirsAll(im.repos[name]);
          ghost var a := Now();
          LeftShrinks(im.repos.Keys, old(Now()).full, a.full);
          VisitLayer(name, given[i].value);
          ProgressContinues(im, old(Now()), a, Now());
          LayersStay(im, a, Now(), given, i);
        }
      }
      AltDirsAll(im.repos[name]);
    }
  }

  // ALT_DIRS
  function AltDirs(repo: Repo): (given: seq<Option<string>>)
    ensures |given| == 3
  {
    [repo.targetRoot, repo.ruleRoot, repo.expressionRoot]
  }

  lemma AltDirsAll(repo: Repo)
    ensures forall i | 0 <= i < 3 && AltDirs(repo)[i].Some? :: IsLayer(repo, AltDirs(repo)[i].value)
    ensures forall l | IsLayer(repo, l) :: exists i :: 0 <= i < 3 && AltDirs(repo)[i] == Some(l)
  {
    assert AltDirs(repo)[0] == repo.targetRoot && AltDirs(repo)[1] == repo.ruleRoot
        && AltDirs(repo)[2] == repo.expressionRoot;
  }

  ghost predicate BindingsDone(im: Import, ls: Lists, bindings: map<string, string>, todo: set<string>) {
    forall l | l in bindings && l !in todo :: IsImported(im, ls, bindings[l])
  }

  lemma BindingsStay(im: Import, before: Lists, after: Lists, bindings: map<string, string>, todo: set<string>,
                     l: string)
    requires BindingsDone(im, before, bindings, todo) && before.IsWithin(after) && l in bindings
    requires IsImported(im, after, bindings[l])
    ensures BindingsDone(im, after, bindings, todo - {l})
  {
  }

  ghost predicate LayersDone(im: Import, ls: Lists, given: seq<Option<string>>, i: nat) {
    i <= |given| && forall j | 0 <= j < i && given[j].Some? :: LayerDone(im, ls, given[j].value)
  }

  lemma LayersStay(im: Import, before: Lists, after: Lists, given: seq<Option<string>>, i: nat)
    requires LayersDone(im, before, given, i) && before.IsWithin(after)
    requires i < |given| && given[i].Some? && LayerDone(im, after, given[i].value)
    ensures LayersDone(im, after, given, i + 1)
  {
    forall j | 0 <= j < i && given[j].Some? ensures LayerDone(im, after, given[j].value) {
      DoneStays(im, before, after, given[j].value);
    }
  }

  lemma BindingIsNeeded(im: Import, w: Needs, name: string, l: string)
    requires WellFormed(im.repos, im.depth) && HoldsNeeds(im, w) && name in im.repos && name in w.full
    requires l in im.repos[name].bindings
    ensures im.repos[name].bindings[l] in im.repos
    ensures im.repos[name].bindings[l] in im.known || im.repos[name].bindings[l] in w.full
  {
    assert SpreadsFrom(im, w, name);
    assert IsBinding(im.repos[name], im.repos[name].bindings[l]);
  }

  lemma RootBaseIsNeeded(im: Import, w: Needs, name: string, x: string)
    requires HoldsNeeds(im, w) && name in im.repos && Needed(w, name)
    requires im.repos[name].repository.Given? && RepoOf(im.repos[name].repository.root) == Some(x)
    ensures x in im.known || x in w.full
  {
    assert SpreadsFrom(im, w, name);
  }

  lemma LayerBaseIsNeeded(im: Import, w: Needs, name: string, l: string, x: string)
    requires HoldsNeeds(im, w) && name in im.repos && Needed(w, name) && IsLayer(im.repos[name], l) && l in im.repos
    requires BaseOf(im.repos, im.repos[l].repository, im.depth) == Some(x)
    ensures x in im.known || x in w.full
  {
    assert SpreadsFrom(im, w, name) && IsBase(im.repos, im.repos[name], im.depth, x);
  }

  lemma LeftShrinks(all: set<string>, before: set<string>, after: set<string>)
    requires before <= after
    ensures |all - after| <= |all - before|
    ensures (exists x :: x in all && x in after && x !in before) ==> |all - after| < |all - before|
  {
    SubsetSize(all - after, all - before);
    if x :| x in all && x in after && x !in before {
      SubsetSize(all - after, all - before - {x});
    }
  }

  // get_base_repo_if_computed
  method GetBaseRepoIfComputed(im: Import, ref: Reference) returns (base: Option<string>)
    requires WellFormed(im.repos, im.depth) && (ref.Named? ==> ref.name in im.repos)
    requires ref.Given? ==> RootClosed(im.repos, ref.root)
    ensures base == BaseOf(im.repos, ref, im.depth) && (base.Some? ==> base.value in im.repos)
  {
    var repo := ref;
    while repo.Named?
      invariant repo.Named? ==> repo.name in im.repos
      invariant BaseOf(im.repos, repo, im.depth) == BaseOf(im.repos, ref, im.depth)
      invariant repo.Given? ==> RootClosed(im.repos, repo.root)
      decreases if repo.Named? then 1 + HeightOf(im, repo.name) else 0
    {
      NextName(im, repo.name);
      repo := im.repos[repo.name].repository;
    }
    base := RepoOf(repo.root);
  }

  ghost function HeightOf(im: Import, name: string): nat
    requires WellFormed(im.repos, im.depth) && name in im.repos
  {
    assert Rooted(im.repos, name, im.depth) && RootAt(im.repos, name, 0, im.depth).Some?;
    Height(im.repos, name, im.depth)
  }

  lemma NextName(im: Import, name: string)
    requires WellFormed(im.repos, im.depth) && name in im.repos
    ensures
      var repo := im.repos[name].repository;
      && BaseOf(im.repos, Named(name), im.depth) == BaseOf(im.repos, repo, im.depth)
      && (repo.Named? ==> repo.name in im.repos && HeightOf(im, repo.name) < HeightOf(im, name))
  {
    assert Rooted(im.repos, name, im.depth) && RootAt(im.repos, name, 0, im.depth).Some?;
    var repo := im.repos[name].repository;
    if repo.Named? {
      assert GetRoot(im.repos, repo.name, im.depth - 1).Some?;
      assert Rooted(im.repos, repo.name, im.depth) && RootAt(im.repos, repo.name, 0, im.depth).Some?;
      HeightBelow(im.repos, repo.name, im.depth, im.depth - 1);
    }
  }

  lemma LayerExists(im: Import, name: string, l: string)
    requires WellFormed(im.repos, im.depth) && name in im.repos && IsLayer(im.repos[name], l)
    ensures l in im.repos
  {
    var i: nat := if im.repos[name].targetRoot == Some(l) then 1 else if im.repos[name].ruleRoot == Some(l) then 2
        else 3;
    assert im.repos[name].RootName(name, i) == Some(l);
    assert Rooted(im.repos, name, im.depth) && RootAt(im.repos, name, i, im.depth).Some?;
  }

  // repos_to_import: exactly what is needed fully, and exactly what is needed for a root or as a layer
  // only.
  method ReposToImport(im: Import) returns (toImport: set<string>, extraImports: set<string>)
    requires WellFormed(im.repos, im.depth) && im.entry in im.repos
    ensures forall x :: x in toImport <==> im.Full(x)
    ensures forall x :: x in extraImports <==> (im.Root(x) || im.Layer(x)) && !im.Full(x)
    ensures toImport + extraImports <= im.repos.Keys
  {
    AllNeedsHolds(im);
    var importer := new Importer(im, AllNeeds(im));
    importer.Visit(im.entry);
    toImport, extraImports := importer.toImport, importer.extraImports;
    AllIsListed(im, importer.Now());
  }

  lemma AllIsListed(im: Import, ls: Lists)
    requires Closed(im, ls)
    ensures forall x | im.Full(x) :: x in ls.full
    ensures forall x | im.Root(x) :: x in ls.full || x in ls.roots
    ensures forall x | im.Layer(x) :: (x in ls.full || x in ls.roots || x in ls.layers) && LayerDone(im, ls, x)
  {
    forall x
      ensures im.Full(x) ==> x in ls.full
      ensures im.Root(x) ==> x in ls.full || x in ls.roots
    {
      if im.Full(x) {
        var n: nat :| NeedsFull(im.repos, im.known, im.entry, im.depth, x, n);
        ClosedHasAll(im, ls, x, n);
      }
      if im.Root(x) {
        var n: nat :| NeedsRoot(im.repos, im.known, im.entry, im.depth, x, n);
        ClosedHasAll(im, ls, x, n);
      }
    }
    forall x | im.Layer(x) ensures (x in ls.full || x in ls.roots || x in ls.layers) && LayerDone(im, ls, x) {
      var y :| (im.Full(y) || im.Root(y)) && y in im.repos && IsLayer(im.repos[y], x);
      assert PartDone(im, ls, y);
      assert LayerDone(im, ls, x);
    }
  }
}
