// handle_import (bin/jst-lock.py:1089-1131): the repositories to import are given names, their
// descriptions are rewritten, and they are added.
module HandleImport {
  import opened Wrappers
  import opened ByteOrder
  import opened Prefixes
  import opened PairMarking
  import opened JstRepos
  import opened JstImports
  import opened ReposToImport
  import opened ImportNames
  import opened ImportRewriting
  import opened ImportMeaning

  // ---- When an import succeeds ----

  ghost predicate Available(im: Import, x: string) {
    im.Full(x) || im.Root(x) || im.Layer(x) || x in im.known
  }

  // y refers to x in a way that repos_to_import does not follow: in the list of a distribution
  // directory, or, being needed as a layer only, for its root.
  ghost predicate NotFollowed(im: Import, y: string, x: string)
    requires y in im.repos
  {
    || InDistdir(im.repos[y], x)
    || (!im.Full(y) && !im.Root(y) && StringRoot(im.repos[y]) == Some(x))
  }

  // All names are available that are not followed. If the repository to import is known, it is the
  // only one that is imported.
  ghost predicate CanImport(im: Import)
    requires im.entry in im.repos
  {
    if im.entry in im.known then
      forall x | LooksUp(im.repos[im.entry], false, x) :: x in im.known || x == im.entry
    else
      forall y, x | y in im.repos && (im.Full(y) || im.Root(y) || im.Layer(y)) && NotFollowed(im, y, x) ::
          Available(im, x)
  }

  // What is followed is available.
  lemma FollowedIsAvailable(im: Import, y: string, x: string)
    requires y in im.repos && (im.Full(y) || im.Root(y) || im.Layer(y))
    ensures NotFollowed(im, y, x) ==> LooksUp(im.repos[y], !im.Full(y), x)
    ensures LooksUp(im.repos[y], !im.Full(y), x) ==> Available(im, x) || NotFollowed(im, y, x)
  {
    hide Import.Full, Import.Root;
    var w := AllNeeds(im);
    AllNeedsHolds(im);
    if im.Full(y) || im.Root(y) {
      assert SpreadsFrom(im, w, y);
    } else if im.repos[y].repository.Given? && RepoOf(im.repos[y].repository.root) == Some(x) {
      var z :| (im.Full(z) || im.Root(z)) && z in im.repos && IsLayer(im.repos[z], y);
      assert SpreadsFrom(im, w, z);
      assert BaseOf(im.repos, im.repos[y].repository, im.depth) == Some(x);
      assert IsBase(im.repos, im.repos[z], im.depth, x);
    }
  }

  // A known repository is not needed, and nothing is needed for it.
  lemma NothingForKnown(im: Import)
    requires im.entry in im.known
    ensures forall x :: !im.Full(x) && !im.Root(x) && !im.Layer(x)
  {
    AllNeedsAreHeld(im, Needs(iset{}, iset{}, iset{}));
  }

  // Every repository to import can be rewritten precisely if the names not followed are available.
  lemma AllRewrite(im: Import, assign: Assignment, full: set<string>, extra: set<string>)
    requires im.entry in im.repos && full + extra <= im.repos.Keys
    requires forall x :: x in full <==> im.Full(x)
    requires forall x :: x in extra <==> (im.Root(x) || im.Layer(x)) && !im.Full(x)
    requires forall x :: x in assign <==> x in full || x in extra || x == im.entry || x in im.known
    ensures CanImport(im) <==>
            && (forall y, x | y in full + {im.entry} && LooksUp(im.repos[y], false, x) :: x in assign)
            && (forall y, x | y in extra && LooksUp(im.repos[y], true, x) :: x in assign)
  {
    hide Import.Full, Import.Root, Import.Layer, LooksUp, NotFollowed;
    if im.entry in im.known {
      NothingForKnown(im);
      assert full == {} == extra && full + {im.entry} == {im.entry};
      assert forall x :: x in assign <==> x in im.known || x == im.entry;
    } else {
      EntryIsFull(im);
      assert full + {im.entry} == full && full !! extra;
      assert forall x :: x in assign <==> Available(im, x);
      forall y, x | y in im.repos && (im.Full(y) || im.Root(y) || im.Layer(y))
        ensures NotFollowed(im, y, x) ==> LooksUp(im.repos[y], y in extra, x)
        ensures LooksUp(im.repos[y], y in extra, x) ==> Available(im, x) || NotFollowed(im, y, x)
      {
        FollowedIsAvailable(im, y, x);
      }
    }
  }

  lemma EntryIsFull(im: Import)
    requires im.entry !in im.known
    ensures im.Full(im.entry)
  {
    assert NeedsFull(im.repos, im.known, im.entry, im.depth, im.entry, 0);
  }

  // ---- The import ----

  function ImportNaming(full: set<string>, extra: set<string>, core: Repos, entry: string, name: string): Naming {
    Naming([entry] + Sorted(full - {entry}) + Sorted(extra), core.Keys, name, Some(entry))
  }

  // Exactly what is needed is imported, and named.
  ghost predicate ImportsNeeded(im: Import, core: Repos, name: string, i: Imported) {
    && (forall x :: x in i.full <==> im.Full(x))
    && (forall x :: x in i.extra <==> (im.Root(x) || im.Layer(x)) && !im.Full(x))
    && ImportNaming(i.full, i.extra, core, im.entry, name).Named(i.assign)
  }

  // handle_import, from the source configuration on: which repositories are imported and what they are
  // called, when that succeeds, and what the configuration is afterwards.
  method ImportRepos(core: Repos, foreign: Repos, depth: nat, entry: string, importMap: Assignment, name: string,
                     remote: Remote)
    returns (repos: Option<Repos>, ghost i: Imported)
    requires WellFormed(foreign, depth) && entry in foreign && remote.Valid()
    ensures repos.Some? <==> CanImport(Import(foreign, importMap.Keys, entry, depth))
    ensures ImportsNeeded(Import(foreign, importMap.Keys, entry, depth), core, name, i)
    ensures repos.Some? ==> IsImportInto(core, foreign, importMap, remote, i, repos.value)
    ensures Injective(i.assign) <==> !exists a, b, k :: ImportNaming(i.full, i.extra, core, entry, name).Clash(a, b, k)
    ensures repos.Some? && Injective(i.assign) ==> IsFoundIn(foreign, importMap, remote, i, repos.value)
    ensures repos.Some? && Injective(i.assign) ==> AreCopied(foreign, depth, importMap, remote, i, repos.value)
  {
    hide Import.Full, Import.Root, Import.Layer, Naming.Named, CanImport, IsAdded, IsImportInto, AreLists,
        WellFormed;
    hide Naming.Clash, Injective, Sorted, Remote.Valid, IsFoundIn, AreCopied;
    var im := Import(foreign, importMap.Keys, entry, depth);
    var full, extra := ReposToImport.ReposToImport(im);
    var ordered, extras := [entry] + Sorted(full - {entry}), Sorted(extra);
    var assign := NameImports(ImportNaming(full, extra, core, entry, name));
    i := Imported(full, extra, assign);
    var total := assign + importMap;
    ImportPrepared(im, core, name, i, total, ordered, extras);
    var partly := AddImported(core, foreign, ordered, assign, total, remote, false);
    if partly.None? {
      return None, i;
    }
    repos := AddImported(partly.value, foreign, extras, assign, total, remote, true);
    if repos.Some? {
      ImportedInto(core, foreign, importMap, remote, i, ordered, extras, partly.value, repos.value);
      if Injective(assign) {
        AllAreFound(core, foreign, importMap, remote, i, repos.value);
        AllAreCopied(im, core, name, importMap, remote, i, repos.value);
      }
    }
  }

  // What the two loops rely on, and when they succeed.
  lemma ImportPrepared(im: Import, core: Repos, name: string, i: Imported, total: Assignment,
                       ordered: seq<string>, extras: seq<string>)
    requires im.entry in im.repos && i.full + i.extra <= im.repos.Keys && ImportsNeeded(im, core, name, i)
    requires ordered == [im.entry] + Sorted(i.full - {im.entry}) && extras == Sorted(i.extra)
    requires total.Keys == i.assign.Keys + im.known
    ensures forall x | x in ordered || x in extras :: x in im.repos && x in i.assign
    ensures forall x :: x in ordered || x in extras <==> x in i.assign
    ensures (forall x :: x in extras <==> x in i.extra) && (forall x | x in i.extra :: x !in ordered)
    ensures CanImport(im) <==>
            && (forall x | x in ordered :: CanRewrite(im.repos[x], total, false))
            && (forall x | x in extras :: CanRewrite(im.repos[x], total, true))
  {
    hide Import.Full, Import.Root, Import.Layer, Naming.Named, CanImport, AreLists, Sorted;
    NamesGiven(im, i, ImportNaming(i.full, i.extra, core, im.entry, name), ordered, extras);
    ListsAreImported(im, i, ordered, extras);
    ImportSucceeds(im, i, total, ordered, extras);
  }

  // The two lists have all that is imported; nothing is in both.
  ghost predicate AreLists(im: Import, i: Imported, ordered: seq<string>, extras: seq<string>) {
    && (forall x :: x in ordered <==> x in i.full || x == im.entry)
    && (forall x :: x in extras <==> x in i.extra)
    && (forall x | x in i.extra :: x !in ordered)
    && (forall x :: x in i.assign <==> x in i.full || x in i.extra || x == im.entry)
    && (forall x | x in i.assign :: x in im.repos)
  }

  lemma ListsAreImported(im: Import, i: Imported, ordered: seq<string>, extras: seq<string>)
    requires AreLists(im, i, ordered, extras) && i.full + i.extra <= im.repos.Keys
    ensures forall x | x in ordered || x in extras :: x in im.repos && x in i.assign
    ensures forall x :: x in ordered || x in extras <==> x in i.assign
    ensures (forall x :: x in extras <==> x in i.extra) && (forall x | x in i.extra :: x !in ordered)
  {
  }

  lemma NamesGiven(im: Import, i: Imported, n: Naming, ordered: seq<string>, extras: seq<string>)
    requires im.entry in im.repos && i.full + i.extra <= im.repos.Keys
    requires forall x :: x in i.full <==> im.Full(x)
    requires forall x :: x in i.extra <==> (im.Root(x) || im.Layer(x)) && !im.Full(x)
    requires ordered == [im.entry] + Sorted(i.full - {im.entry}) && extras == Sorted(i.extra)
    requires n.repos == ordered + extras && n.main == Some(im.entry) && n.Named(i.assign)
    ensures AreLists(im, i, ordered, extras)
  {
    hide Import.Full, Import.Root, Import.Layer, Naming.Named, Naming.IsMain, Sorted;
    NamedNames(n, i.assign);
    ListMembers(im.entry, i.full);
    assert im.entry in ordered;
    EntryIsNoExtra(im);
    forall x ensures x in i.assign <==> x in ordered || x in extras {
      InEither(ordered, extras, x);
      MainIsEntry(n, x);
    }
  }

  lemma InEither(a: seq<string>, b: seq<string>, x: string)
    ensures x in a + b <==> x in a || x in b
  {
  }

  lemma EntryIsNoExtra(im: Import)
    ensures !((im.Root(im.entry) || im.Layer(im.entry)) && !im.Full(im.entry))
  {
    if im.entry in im.known {
      NothingForKnown(im);
    } else {
      EntryIsFull(im);
    }
  }

  lemma MainIsEntry(n: Naming, x: string)
    ensures n.IsMain(x) ==> n.main == Some(x)
  {
  }

  lemma ListMembers(entry: string, full: set<string>)
    ensures forall x :: x in [entry] + Sorted(full - {entry}) <==> x in full || x == entry
  {
  }

  // Rewriting succeeds for all of them if and only if the import can succeed.
  lemma ImportSucceeds(im: Import, i: Imported, total: Assignment, ordered: seq<string>, extras: seq<string>)
    requires im.entry in im.repos && i.full + i.extra <= im.repos.Keys && AreLists(im, i, ordered, extras)
    requires forall x :: x in i.full <==> im.Full(x)
    requires forall x :: x in i.extra <==> (im.Root(x) || im.Layer(x)) && !im.Full(x)
    requires total.Keys == i.assign.Keys + im.known
    ensures CanImport(im) <==>
            && (forall x | x in ordered :: CanRewrite(im.repos[x], total, false))
            && (forall x | x in extras :: CanRewrite(im.repos[x], total, true))
  {
    hide LooksUp, NotFollowed, CanImport;
    AllRewrite(im, total, i.full, i.extra);
  }

  lemma NameIsGiven(assign: Assignment, ordered: seq<string>, extras: seq<string>, n: string)
    requires forall x :: x in ordered || x in extras <==> x in assign
    ensures IsNameOf(assign, n) <==> IsGiven(ordered, assign, n) || IsGiven(extras, assign, n)
  {
  }

  lemma CoreIsNotNamed(core: Repos, assign: Assignment, n: string)
    requires n in core && forall x | x in assign :: assign[x] !in core
    ensures !IsNameOf(assign, n)
  {
  }

  // What a rewritten description refers to is imported or known.
  lemma RewrittenNames(foreign: Repos, assign: Assignment, importMap: Assignment, remote: Remote, asLayer: bool,
                       y: string, n: string, repo: Repo, x: string)
    requires remote.Valid() && IsImportedAs(foreign, assign, assign + importMap, remote, asLayer, y, n, repo)
    requires LooksUp(repo, false, x)
    ensures IsNameOf(assign, x) || IsNameOf(importMap, x)
  {
    hide LooksUp;
    var total := assign + importMap;
    RewrittenRefers(foreign[y], repo, NamesBy(total), remote, asLayer, x);
    var z :| (z, x) in NamesBy(total);
    assert if z in importMap then IsNameOf(importMap, x) else IsNameOf(assign, x);
  }

  lemma ImportedInto(core: Repos, foreign: Repos, importMap: Assignment, remote: Remote, i: Imported,
                     ordered: seq<string>, extras: seq<string>, partly: Repos, repos: Repos)
    requires remote.Valid() && (forall x | x in i.assign :: i.assign[x] !in core)
    requires forall x :: x in ordered || x in extras <==> x in i.assign
    requires (forall x :: x in extras <==> x in i.extra) && (forall x | x in i.extra :: x !in ordered)
    requires IsAdded(core, foreign, ordered, i.assign, i.assign + importMap, remote, false, partly)
    requires IsAdded(partly, foreign, extras, i.assign, i.assign + importMap, remote, true, repos)
    ensures IsImportInto(core, foreign, importMap, remote, i, repos)
  {
    hide LooksUp, IsImportedAs, Remote.Valid, IsNameOf, IsGiven;
    var total := i.assign + importMap;
    forall n ensures n in repos <==> n in core || IsNameOf(i.assign, n) {
      NameIsGiven(i.assign, ordered, extras, n);
    }
    forall n | n in core ensures n in repos && repos[n] == core[n] {
      NameIsGiven(i.assign, ordered, extras, n);
      CoreIsNotNamed(core, i.assign, n);
    }
    forall n | n in repos && IsNameOf(i.assign, n)
      ensures exists x :: x in i.assign && IsImportedAs(foreign, i.assign, total, remote, x in i.extra, x, n, repos[n])
    {
      NameIsGiven(i.assign, ordered, extras, n);
      if IsGiven(extras, i.assign, n) {
        var x :| x in extras && IsImportedAs(foreign, i.assign, total, remote, true, x, n, repos[n]);
      } else {
        var x :| x in ordered && IsImportedAs(foreign, i.assign, total, remote, false, x, n, partly[n]);
      }
    }
    forall n, x | n in repos && IsNameOf(i.assign, n) && LooksUp(repos[n], false, x)
        ensures x in repos || IsNameOf(importMap, x)
    {
      var y :| y in i.assign && IsImportedAs(foreign, i.assign, total, remote, y in i.extra, y, n, repos[n]);
      RewrittenNames(foreign, i.assign, importMap, remote, y in i.extra, y, n, repos[n], x);
    }
  }

  ghost predicate IsNameOf(assign: Assignment, n: string) {
    exists x :: x in assign && assign[x] == n
  }

  // The configuration has its repositories as before, and under each name given one of the repositories
  // of that name, rewritten; so with different names all of them. What these refer to is there or known.
  ghost predicate IsImportInto(core: Repos, foreign: Repos, importMap: Assignment, remote: Remote, i: Imported,
                               repos: Repos)
  {
    && (forall n :: n in repos <==> n in core || IsNameOf(i.assign, n))
    && (forall n | n in core :: repos[n] == core[n])
    && (forall n | n in repos && IsNameOf(i.assign, n) ::
          exists x :: x in i.assign && IsImportedAs(foreign, i.assign, i.assign + importMap, remote, x in i.extra, x, n,
              repos[n]))
    && (forall n, x | n in repos && IsNameOf(i.assign, n) && LooksUp(repos[n], false, x) ::
          x in repos || IsNameOf(importMap, x))
  }

  // So it is, if the names are different.
  lemma AllAreFound(core: Repos, foreign: Repos, importMap: Assignment, remote: Remote, i: Imported, repos: Repos)
    requires IsImportInto(core, foreign, importMap, remote, i, repos) && Injective(i.assign)
    ensures IsFoundIn(foreign, importMap, remote, i, repos)
  {
    hide LooksUp;
    forall x | x in i.assign
      ensures i.assign[x] in repos
      ensures IsImportedAs(foreign, i.assign, i.assign + importMap, remote, x in i.extra, x, i.assign[x],
                          repos[i.assign[x]])
    {
      assert IsNameOf(i.assign, i.assign[x]);
    }
  }

  // Each repository imported fully is a copy of the foreign one, together with all that it leads to.
  ghost predicate AreCopied(foreign: Repos, depth: nat, importMap: Assignment, remote: Remote, i: Imported,
                            repos: Repos)
  {
    forall x | x in i.full ::
      && x in i.assign
      && IsCopy(foreign, importMap, x, repos, i.assign[x], depth, NamesBy(i.assign + importMap), remote)
  }

  lemma AllAreCopied(im: Import, core: Repos, name: string, importMap: Assignment, remote: Remote, i: Imported,
                     repos: Repos)
    requires WellFormed(im.repos, im.depth) && im.known == importMap.Keys && im.entry in im.repos
    requires i.full + i.extra <= im.repos.Keys && ImportsNeeded(im, core, name, i)
    requires IsFoundIn(im.repos, importMap, remote, i, repos)
    ensures AreCopied(im.repos, im.depth, importMap, remote, i, repos)
  {
    hide Import.Full, Import.Root, Import.Layer, Naming.Named, IsFoundIn, IsCopy, AllRooted, Linked, Sorted, NamesBy;
    NamesGiven(im, i, ImportNaming(i.full, i.extra, core, im.entry, name), [im.entry] + Sorted(i.full - {im.entry}),
               Sorted(i.extra));
    assert IsOutcome(im, importMap, remote, i, repos);
    forall x | x in i.full
      ensures x in i.assign
      ensures IsCopy(im.repos, importMap, x, repos, i.assign[x], im.depth, NamesBy(i.assign + importMap), remote)
    {
      ImportCopies(im, importMap, remote, i, repos, x);
    }
  }

  // ---- A layer whose root is missing ----

  // "rules" is needed as a layer of "main" only, and takes its root from "base".
  ghost predicate IsLayerExample(repos: Repos) {
    var root := Root(File("."), "", None);
    && repos.Keys == {"main", "rules", "base"}
    && repos["main"] == Repo(Given(root), None, Some("rules"), None, None, None, None, map[])
    && repos["rules"] == Repo(Named("base"), None, None, None, None, None, None, map[])
    && repos["base"] == Repo(Given(root), None, None, None, None, None, None, map[])
  }

  lemma LayerExampleWellFormed(repos: Repos)
    requires IsLayerExample(repos)
    ensures WellFormed(repos, 2)
  {
    var root := Root(File("."), "", None);
    assert GetRoot(repos, "base", 1) == Some(root) && GetRoot(repos, "base", 2) == Some(root);
    assert GetRoot(repos, "rules", 2) == Some(root) && GetRoot(repos, "main", 2) == Some(root);
    forall n, i: nat | n in repos && i < 4 ensures RootAt(repos, n, i, 2).Some? {
      AnyRoot(repos, n, i, root);
    }
  }

  lemma {:induction false} AnyRoot(repos: Repos, n: string, i: nat, root: Root)
    requires n in repos && i < 4 && GetRoot(repos, n, 2) == Some(root)
    requires forall j: nat | j < 4 && repos[n].RootName(n, j).Some? ::
          GetRoot(repos, repos[n].RootName(n, j).value, 2) == Some(root)
    ensures RootAt(repos, n, i, 2).Some?
  {
    if repos[n].RootName(n, i).None? {
      AnyRoot(repos, n, i - 1, root);
    }
  }

  // "base" is not imported, and so "rules" cannot be rewritten.
  lemma LayerExampleFails(repos: Repos)
    requires IsLayerExample(repos)
    ensures !CanImport(Import(repos, {}, "main", 2))
  {
    var im := Import(repos, {}, "main", 2);
    var w := Needs(iset{"main"}, iset{}, iset{"rules"});
    assert SpreadsFrom(im, w, "main") by {
      assert GetRoot(repos, "base", 1) == Some(repos["base"].repository.root);
    }
    AllNeedsAreHeld(im, w);
    EntryIsFull(im);
    assert IsLayer(repos["main"], "rules") && im.Layer("rules");
    assert NotFollowed(im, "rules", "base") && !Available(im, "base");
  }

  method MissLayerRoot(core: Repos, foreign: Repos, remote: Remote) returns (repos: Option<Repos>)
    requires IsLayerExample(foreign) && "main" in foreign && remote.Valid()
    ensures repos == None
  {
    hide IsLayerExample, WellFormed, CanImport, IsImportInto, ImportsNeeded, Injective, Naming.Clash, IsFoundIn,
        AreCopied;
    LayerExampleWellFormed(foreign);
    LayerExampleFails(foreign);
    ghost var i;
    var none: Assignment := map[];
    assert none.Keys == {};
    repos, i := ImportRepos(core, foreign, 2, "main", none, "main", remote);
  }
}
