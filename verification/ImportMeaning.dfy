// What becomes of a repository and all it leads to when it is imported: the copies of the foreign
// repositories make up the same structure, up to the names that were known before.
module ImportMeaning {
  import opened Wrappers
  import opened PairMarking
  import opened JstRepos
  import opened JstAgreement
  import opened JstImports
  import opened ImportRewriting

  // The name is known, or one that it refers to on the way to its root.
  ghost predicate MeetsKnown(repos: Repos, known: set<string>, name: string, depth: nat)
    decreases depth
  {
    depth > 0 &&
    (name in known
     || (name in repos && repos[name].repository.Named?
         && MeetsKnown(repos, known, repos[name].repository.name, depth - 1)))
  }

  // The root that a leads to is there, rewritten, where b leads to.
  ghost predicate RootCopied(foreign: Repos, known: set<string>, a: string, out: Repos, b: string, depth: nat,
                             R: Relation, L: Relation, remote: Remote)
  {
    || MeetsKnown(foreign, known, a, depth)
    || exists x, y ::
         LeadsToRoot(foreign, a, depth, x) && LeadsToRoot(out, b, depth, y) && IsImportedRoot(x, y, R, L, remote)
  }

  ghost predicate LayerCopied(foreign: Repos, known: set<string>, a: Option<string>, out: Repos, b: Option<string>,
                              depth: nat, R: Relation, L: Relation, remote: Remote)
  {
    IsNameReplaced(a, b, L) && (a.Some? ==> RootCopied(foreign, known, a.value, out, b.value, depth, R, L, remote))
  }

  // All roots of x are there, each in its place, and bindings and the repositories that roots are
  // computed from lead to related names.
  ghost predicate RepoCopied(foreign: Repos, known: set<string>, x: string, out: Repos, y: string, depth: nat,
                             R: Relation, L: Relation, remote: Remote)
  {
    && x in foreign && y in out
    && RootCopied(foreign, known, x, out, y, depth, R, L, remote)
    && LayerCopied(foreign, known, foreign[x].targetRoot, out, out[y].targetRoot, depth, R, L, remote)
    && LayerCopied(foreign, known, foreign[x].ruleRoot, out, out[y].ruleRoot, depth, R, L, remote)
    && LayerCopied(foreign, known, foreign[x].expressionRoot, out, out[y].expressionRoot, depth, R, L, remote)
    && HasFilesOf(foreign[x], out[y])
    && AreBindingsReplaced(foreign[x], out[y], R)
  }

  // Related are known names with what they are mapped to, and repositories with their copies.
  ghost predicate IsCopying(foreign: Repos, importMap: Assignment, out: Repos, depth: nat, R: Relation, L: Relation,
                            remote: Remote)
  {
    forall p | p in R ::
      || (p.0 in importMap && importMap[p.0] == p.1)
      || RepoCopied(foreign, importMap.Keys, p.0, out, p.1, depth, R, L, remote)
  }

  // y is a copy of x together with all that x leads to.
  ghost predicate IsCopy(foreign: Repos, importMap: Assignment, x: string, out: Repos, y: string, depth: nat,
                         L: Relation, remote: Remote)
  {
    exists R: Relation :: IsCopying(foreign, importMap, out, depth, R, L, remote) && (x, y) in R
  }

  // ---- Every repository imported fully is copied ----

  ghost function Copies(i: Imported, importMap: Assignment): Relation {
    iset x: string, y: string | (x in importMap && importMap[x] == y)
                                || (x in i.full && x !in importMap && x in i.assign && i.assign[x] == y) :: (x, y)
  }

  lemma ReferenceFound(foreign: Repos, importMap: Assignment, remote: Remote, i: Imported, out: Repos, a: string)
    requires IsFoundIn(foreign, importMap, remote, i, out) && a in i.assign
    ensures a in foreign && i.assign[a] in out
    ensures
      var N, ref, ref' := NamesBy(i.assign + importMap), foreign[a].repository, out[i.assign[a]].repository;
      match ref
      case Named(z) => ref'.Named? && (z, ref'.name) in N
      case Given(root) => ref'.Given? && IsImportedRoot(root, ref'.root, N, N, remote)
  {
    hide IsImportedRoot, NamesBy;
  }

  // A name that is not known is given by the import.
  lemma UnknownIsAssigned(assign: Assignment, importMap: Assignment, z: string, w: string)
    requires (z, w) in NamesBy(assign + importMap) && z !in importMap
    ensures z in assign && assign[z] == w
  {
  }

  // Following names in the output finds the copy of the root.
  lemma {:induction false} RootFollows(foreign: Repos, importMap: Assignment, remote: Remote, i: Imported, out: Repos,
                                       a: string, depth: nat)
    requires IsFoundIn(foreign, importMap, remote, i, out) && a in i.assign
    requires GetRoot(foreign, a, depth).Some? && !MeetsKnown(foreign, importMap.Keys, a, depth)
    ensures
      var N := NamesBy(i.assign + importMap);
      var y := GetRoot(out, i.assign[a], depth);
      y.Some? && IsImportedRoot(GetRoot(foreign, a, depth).value, y.value, N, N, remote)
    decreases depth
  {
    hide IsImportedRoot, IsFoundIn, NamesBy;
    ReferenceFound(foreign, importMap, remote, i, out, a);
    if foreign[a].repository.Named? {
      var z := foreign[a].repository.name;
      UnknownIsAssigned(i.assign, importMap, z, out[i.assign[a]].repository.name);
      RootFollows(foreign, importMap, remote, i, out, z, depth - 1);
    }
  }

  // What a root on the way is computed from is imported fully, if it is not known.
  lemma {:induction false} BaseIsFull(im: Import, a: string, depth: nat)
    requires (im.Full(a) || im.Root(a)) && GetRoot(im.repos, a, depth).Some?
    requires !MeetsKnown(im.repos, im.known, a, depth) && RepoOf(GetRoot(im.repos, a, depth).value).Some?
    ensures
      var b := RepoOf(GetRoot(im.repos, a, depth).value).value;
      b in im.known || im.Full(b)
    decreases depth
  {
    hide Import.Full, Import.Root;
    var b := RepoOf(GetRoot(im.repos, a, depth).value).value;
    if im.repos[a].repository.Given? {
      if b !in im.known {
        NeedsSpread(im, a, b);
      }
    } else {
      var z := im.repos[a].repository.name;
      NeedsSpread(im, a, z);
      BaseIsFull(im, z, depth - 1);
    }
  }

  lemma LayerBaseIsFull(im: Import, x: string, l: string)
    requires im.Full(x) && x in im.repos && IsLayer(im.repos[x], l)
    requires GetRoot(im.repos, l, im.depth).Some? && RepoOf(GetRoot(im.repos, l, im.depth).value).Some?
    ensures
      var b := RepoOf(GetRoot(im.repos, l, im.depth).value).value;
      b in im.known || im.Full(b)
  {
    hide Import.Full, Import.Root;
    var b := RepoOf(GetRoot(im.repos, l, im.depth).value).value;
    if im.repos[l].repository.Named? {
      GetRootDeeper(im.repos, im.repos[l].repository.name, im.depth - 1);
    }
    assert BaseOf(im.repos, im.repos[l].repository, im.depth) == Some(b);
    if b !in im.known {
      NeedsSpread(im, x, b);
    }
  }

  // The copy of a root is computed from a copy, if what it is computed from is imported fully or known.
  lemma RootIsCopied(i: Imported, importMap: Assignment, remote: Remote, x: Root, y: Root)
    requires IsImportedRoot(x, y, NamesBy(i.assign + importMap), NamesBy(i.assign + importMap), remote)
    requires RepoOf(x).Some? ==> RepoOf(x).value in importMap || RepoOf(x).value in i.full
    ensures IsImportedRoot(x, y, Copies(i, importMap), NamesBy(i.assign + importMap), remote)
  {
    var N := NamesBy(i.assign + importMap);
    var r :| IsRewrittenRoot(x, r, N, N, remote) && y == remote.updatePragmas(r);
    assert IsRewrittenRoot(x, r, Copies(i, importMap), N, remote);
  }

  // The outcome of an import, as far as needed here.
  ghost predicate IsOutcome(im: Import, importMap: Assignment, remote: Remote, i: Imported, out: Repos) {
    && im.known == importMap.Keys
    && (forall x :: x in i.full <==> im.Full(x))
    && (forall x | x in i.full :: x !in i.extra)
    && (forall x | x in i.full :: x in i.assign)
    && IsFoundIn(im.repos, importMap, remote, i, out)
  }

  lemma RootOfCopy(im: Import, importMap: Assignment, remote: Remote, i: Imported, out: Repos, a: string, b: string)
    requires IsOutcome(im, importMap, remote, i, out) && (a, b) in NamesBy(i.assign + importMap)
    requires GetRoot(im.repos, a, im.depth).Some?
    requires
      var base := RepoOf(GetRoot(im.repos, a, im.depth).value);
      !MeetsKnown(im.repos, im.known, a, im.depth) && base.Some? ==> base.value in im.known || im.Full(base.value)
    ensures RootCopied(im.repos, im.known, a, out, b, im.depth, Copies(i, importMap), NamesBy(i.assign + importMap),
                       remote)
  {
    hide IsFoundIn, IsImportedRoot, Copies, Import.Full, LeadsToRoot;
    if !MeetsKnown(im.repos, im.known, a, im.depth) {
      RootFollows(im.repos, importMap, remote, i, out, a, im.depth);
      var x, y := GetRoot(im.repos, a, im.depth).value, GetRoot(out, b, im.depth).value;
      RootIsCopied(i, importMap, remote, x, y);
      LeadsIsGetRoot(im.repos, a, im.depth, x);
      LeadsIsGetRoot(out, b, im.depth, y);
    }
  }

  lemma LayerOfCopy(im: Import, importMap: Assignment, remote: Remote, i: Imported, out: Repos, x: string,
                    a: Option<string>, b: Option<string>)
    requires IsOutcome(im, importMap, remote, i, out) && IsNameReplaced(a, b, NamesBy(i.assign + importMap))
    requires im.Full(x) && x in im.repos && (a.Some? ==> IsLayer(im.repos[x], a.value))
    requires a.Some? ==> GetRoot(im.repos, a.value, im.depth).Some?
    ensures LayerCopied(im.repos, im.known, a, out, b, im.depth, Copies(i, importMap), NamesBy(i.assign + importMap),
                        remote)
  {
    hide IsOutcome, Import.Full, Copies, NamesBy, RootCopied;
    if a.Some? {
      if RepoOf(GetRoot(im.repos, a.value, im.depth).value).Some? {
        LayerBaseIsFull(im, x, a.value);
      }
      RootOfCopy(im, importMap, remote, i, out, a.value, b.value);
    }
  }

  lemma BindingsOfCopy(im: Import, importMap: Assignment, remote: Remote, i: Imported, out: Repos, x: string)
    requires IsOutcome(im, importMap, remote, i, out) && im.Full(x) && x in im.repos && i.assign[x] in out
    requires AreBindingsReplaced(im.repos[x], out[i.assign[x]], NamesBy(i.assign + importMap))
    ensures AreBindingsReplaced(im.repos[x], out[i.assign[x]], Copies(i, importMap))
  {
    hide IsFoundIn, Import.Full, Import.Root;
    forall l | l in im.repos[x].bindings
      ensures (im.repos[x].bindings[l], out[i.assign[x]].bindings[l]) in Copies(i, importMap)
    {
      var v := im.repos[x].bindings[l];
      assert IsBinding(im.repos[x], v);
      if v !in im.known {
        NeedsSpread(im, x, v);
      }
    }
  }

  lemma FullIsFound(im: Import, importMap: Assignment, remote: Remote, i: Imported, out: Repos, x: string)
    requires IsOutcome(im, importMap, remote, i, out) && im.Full(x)
    ensures x in im.repos && x in i.assign && i.assign[x] in out
    ensures IsImportOf(im.repos[x], out[i.assign[x]], NamesBy(i.assign + importMap), remote, false)
    ensures x !in im.known ==> (x, i.assign[x]) in NamesBy(i.assign + importMap)
  {
    hide IsImportOf, Import.Full;
    assert x in i.full;
  }

  lemma LayersAreFound(repos: Repos, x: string, depth: nat)
    requires AllRooted(repos, depth) && x in repos
    ensures GetRoot(repos, x, depth).Some?
    ensures forall l | IsLayer(repos[x], l) :: GetRoot(repos, l, depth).Some?
  {
    assert RootAt(repos, x, 0, depth).Some? && RootAt(repos, x, 1, depth).Some?;
    assert RootAt(repos, x, 2, depth).Some? && RootAt(repos, x, 3, depth).Some?;
  }

  lemma FullIsCopied(im: Import, importMap: Assignment, remote: Remote, i: Imported, out: Repos, x: string)
    requires AllRooted(im.repos, im.depth) && IsOutcome(im, importMap, remote, i, out) && im.Full(x)
    requires x !in im.known
    ensures x in i.assign
    ensures RepoCopied(im.repos, im.known, x, out, i.assign[x], im.depth, Copies(i, importMap),
                       NamesBy(i.assign + importMap), remote)
  {
    hide IsOutcome, Import.Full, AllRooted, Copies, NamesBy, MeetsKnown, RootCopied, LayerCopied, IsImportedRoot,
        IsLayer;
    hide AreBindingsReplaced, HasFilesOf, IsNameReplaced;
    FullIsFound(im, importMap, remote, i, out, x);
    LayersAreFound(im.repos, x, im.depth);
    NamedAreLayers(im.repos[x]);
    var a, b := im.repos[x], out[i.assign[x]];
    if !MeetsKnown(im.repos, im.known, x, im.depth) && RepoOf(GetRoot(im.repos, x, im.depth).value).Some? {
      BaseIsFull(im, x, im.depth);
    }
    RootOfCopy(im, importMap, remote, i, out, x, i.assign[x]);
    LayerOfCopy(im, importMap, remote, i, out, x, a.targetRoot, b.targetRoot);
    LayerOfCopy(im, importMap, remote, i, out, x, a.ruleRoot, b.ruleRoot);
    LayerOfCopy(im, importMap, remote, i, out, x, a.expressionRoot, b.expressionRoot);
    BindingsOfCopy(im, importMap, remote, i, out, x);
  }

  lemma NamedAreLayers(repo: Repo)
    ensures repo.targetRoot.Some? ==> IsLayer(repo, repo.targetRoot.value)
    ensures repo.ruleRoot.Some? ==> IsLayer(repo, repo.ruleRoot.value)
    ensures repo.expressionRoot.Some? ==> IsLayer(repo, repo.expressionRoot.value)
  {
  }

  // Nothing that is imported fully is known.
  lemma FullIsUnknown(im: Import, x: string)
    requires im.Full(x)
    ensures x !in im.known
  {
  }

  lemma ImportCopies(im: Import, importMap: Assignment, remote: Remote, i: Imported, out: Repos, x: string)
    requires AllRooted(im.repos, im.depth) && IsOutcome(im, importMap, remote, i, out) && im.Full(x)
    ensures x in i.assign
    ensures IsCopy(im.repos, importMap, x, out, i.assign[x], im.depth, NamesBy(i.assign + importMap), remote)
  {
    hide Import.Full, AllRooted, NamesBy, RepoCopied, IsFoundIn;
    var R := Copies(i, importMap);
    forall p | p in R && !(p.0 in importMap && importMap[p.0] == p.1)
      ensures RepoCopied(im.repos, im.known, p.0, out, p.1, im.depth, R, NamesBy(i.assign + importMap), remote)
    {
      FullIsCopied(im, importMap, remote, i, out, p.0);
    }
    FullIsUnknown(im, x);
    assert (x, i.assign[x]) in R;
  }
}
