// How deduplicate chooses one representative for each class of repositories, and which names are
// replaced by it (bin/jst-lock.py:2737-2801).
module JstRepresentatives {
  import opened Wrappers
  import opened ByteOrder
  import opened Prefixes
  import opened PairMarking
  import opened OpenSystems
  import opened JstRepos
  import opened JstAgreement
  import opened JstBisimilar

  // ---- Choosing a representative ----

  function Slashes(s: string): nat {
    if s == [] then 0 else (if s[0] == '/' then 1 else 0) + Slashes(s[1..])
  }

  lemma {:induction false} SlashesCounted(s: string)
    ensures Slashes(s) == |set i: nat | i < |s| && s[i] == '/'|
  {
    var places := set i: nat | i < |s| && s[i] == '/';
    if s != [] {
      SlashesCounted(s[1..]);
      var later := set i: nat | i < |s[1..]| && s[1..][i] == '/';
      ShiftedSize(later, set i: nat | i < |s| && s[i] == '/' && i > 0);
      var rest := set i: nat | i < |s| && s[i] == '/' && i > 0;
      assert places == rest + (if s[0] == '/' then {0} else {});
    }
  }

  lemma {:induction false} ShiftedSize(a: set<nat>, b: set<nat>)
    requires forall i: nat :: i in b <==> i > 0 && i - 1 in a
    ensures |a| == |b|
  {
    if a != {} {
      var i :| i in a;
      assert i + 1 in b;
      ShiftedSize(a - {i}, b - {i + 1});
    } else {
      assert b == {};
    }
  }

  // Sort key (number of slashes, length, name).
  predicate Preferred(a: string, b: string) {
    || Slashes(a) < Slashes(b)
    || (Slashes(a) == Slashes(b) && (|a| < |b| || (|a| == |b| && Less(a, b))))
  }

  // a has fewer slashes than b; with as many it is shorter, and with the same length it comes first.
  ghost predicate IsSimpler(a: string, b: string) {
    var m, n := |set i: nat | i < |a| && a[i] == '/'|, |set i: nat | i < |b| && b[i] == '/'|;
    m <= n && (m == n ==> |a| <= |b| && (|a| == |b| ==> a == b || Less(a, b)))
  }

  lemma PreferredIsSimpler(a: string, b: string)
    requires a == b || Preferred(a, b)
    ensures IsSimpler(a, b)
  {
    SlashesCounted(a);
    SlashesCounted(b);
  }

  lemma PreferredTransitive(a: string, b: string, c: string)
    requires Preferred(a, b) && Preferred(b, c)
    ensures Preferred(a, c)
  {
    if Less(a, b) && Less(b, c) {
      LessTransitive(a, b, c);
    }
  }

  method Filter(c: seq<string>, p: string -> bool) returns (r: seq<string>)
    ensures forall n :: n in r <==> n in c && p(n)
  {
    r := [];
    for i := 0 to |c|
      invariant forall n :: n in r <==> n in c[..i] && p(n)
    {
      PrefixStep(c, i);
      if p(c[i]) {
        r := r + [c[i]];
      }
    }
    PrefixAll(c);
  }

  method MostPreferred(c: seq<string>) returns (best: string)
    requires c != []
    ensures best in c && forall n | n in c :: n == best || Preferred(best, n)
  {
    best := c[0];
    for i := 1 to |c|
      invariant best in c && forall k | 0 <= k < i :: c[k] == best || Preferred(best, c[k])
    {
      if Preferred(c[i], best) {
        forall k | 0 <= k < i && c[k] != best ensures Preferred(c[i], c[k]) {
          PreferredTransitive(c[i], best, c[k]);
        }
        best := c[i];
      } else {
        LessTotal(c[i], best);
      }
    }
  }

  predicate HasRoot(repos: Repos, n: string) {
    n in repos && repos[n].repository.Given?
  }

  // A member with a proper root, if the class has any.
  predicate Eligible(repos: Repos, c: set<string>, n: string) {
    n in c && ((exists m | m in c :: HasRoot(repos, m)) ==> HasRoot(repos, n))
  }

  // Of those, one of the names to keep, if there are any.
  predicate IsCandidate(repos: Repos, keep: set<string>, c: set<string>, n: string) {
    Eligible(repos, c, n) && ((exists m | m in c :: Eligible(repos, c, m) && m in keep) ==> n in keep)
  }

  // The most preferred candidate.
  ghost predicate IsRepresentative(repos: Repos, keep: set<string>, c: set<string>, rep: string) {
    IsCandidate(repos, keep, c, rep) && forall n | IsCandidate(repos, keep, c, n) :: n == rep || Preferred(rep, n)
  }

  lemma RepresentativeUnique(repos: Repos, keep: set<string>, c: set<string>, m: string, n: string)
    requires IsRepresentative(repos, keep, c, m) && IsRepresentative(repos, keep, c, n)
    ensures m == n
  {
    LessTotal(m, n);
  }

  // Among finitely many names one is the most preferred.
  lemma {:induction false} MostPreferredExists(c: set<string>) returns (best: string)
    requires c != {}
    ensures best in c && forall n | n in c :: n == best || Preferred(best, n)
  {
    best :| best in c;
    if c != {best} {
      var other := MostPreferredExists(c - {best});
      LessTotal(best, other);
      if Preferred(other, best) {
        best := other;
      } else {
        forall n | n in c && n != best ensures Preferred(best, n) {
          if n != other {
            PreferredTransitive(best, other, n);
          }
        }
      }
    }
  }

  lemma RepresentativeExists(repos: Repos, keep: set<string>, c: set<string>) returns (rep: string)
    requires c != {}
    ensures IsRepresentative(repos, keep, c, rep)
  {
    var candidates := set n | n in c && IsCandidate(repos, keep, c, n);
    var x :| x in c;
    if m :| m in c && HasRoot(repos, m) {
      x := m;
    }
    assert Eligible(repos, c, x);
    if m :| m in c && Eligible(repos, c, m) && m in keep {
      x := m;
    }
    assert x in candidates;
    rep := MostPreferredExists(candidates);
  }

  method ChooseRepresentative(repos: Repos, keep: set<string>, c: seq<string>) returns (rep: string)
    requires c != []
    ensures IsRepresentative(repos, keep, Members(c), rep)
    ensures forall n | IsCandidate(repos, keep, Members(c), n) :: IsSimpler(rep, n)
  {
    var candidates := c;
    var withRoot := Filter(candidates, n => HasRoot(repos, n));
    if withRoot != [] {
      assert withRoot[0] in withRoot;
      candidates := withRoot;
    }
    var kept := Filter(candidates, n => n in keep);
    if kept != [] {
      assert kept[0] in kept;
      candidates := kept;
    }
    rep := MostPreferred(candidates);
    forall n | IsCandidate(repos, keep, Members(c), n) ensures IsSimpler(rep, n) {
      PreferredIsSimpler(rep, n);
    }
  }

  // ---- Merging pragmas ----

  function IsTrue(o: Option<bool>): bool {
    o == Some(true)
  }

  function PragmaOf(ref: Reference): Pragma {
    if ref.Given? && ref.root.pragma.Some? then ref.root.pragma.value else Pragma(None, None, "")
  }

  // merge_pragma: absent stays only if all merged proper roots have it, to_git is set if any has.
  function MergePragma(repos: Repos, rep: string, merged: seq<string>): Reference
    requires rep in repos && forall n | n in merged :: n in repos
  {
    var ref := repos[rep].repository;
    if ref.Named? then ref else
      var own := PragmaOf(ref);
      var absent := IsTrue(own.absent)
                    && forall n | n in merged :: repos[n].repository.Given?
                          ==> IsTrue(PragmaOf(repos[n].repository).absent);
      var toGit := IsTrue(own.toGit)
                   || exists n | n in merged :: repos[n].repository.Given?
                         && IsTrue(PragmaOf(repos[n].repository).toGit);
      var pragma := Pragma(if absent then Some(true) else None, if toGit then Some(true) else None, own.others);
      Given(ref.root.(pragma := if pragma == Pragma(None, None, "") then None else Some(pragma)))
  }

  ghost predicate IsAbsent(pragma: Option<Pragma>) {
    pragma.Some? && pragma.value.absent == Some(true)
  }

  ghost predicate IsToGit(pragma: Option<Pragma>) {
    pragma.Some? && pragma.value.toGit == Some(true)
  }

  ghost function OtherPragmas(pragma: Option<Pragma>): string {
    if pragma.Some? then pragma.value.others else ""
  }

  // The pragma of the class c, with the rest of own: absent if all of its proper roots are, to_git if
  // any is.
  ghost predicate IsMergedPragma(repos: Repos, c: set<string>, own: Option<Pragma>, pragma: Option<Pragma>) {
    && OtherPragmas(pragma) == OtherPragmas(own)
    && (IsAbsent(pragma) <==> forall n | n in c && n in repos && repos[n].repository.Given? ::
          IsAbsent(repos[n].repository.root.pragma))
    && (IsToGit(pragma) <==> exists n ::
          n in c && n in repos && repos[n].repository.Given? && IsToGit(repos[n].repository.root.pragma))
  }

  // What becomes of the root of rep when the class c is merged into it.
  ghost predicate IsMerged(repos: Repos, c: set<string>, rep: string, ref: Reference)
    requires rep in repos
  {
    var own := repos[rep].repository;
    if own.Named? then ref == own
    else
      && ref.Given? && SamePragmaless(ref.root, own.root)
      && IsMergedPragma(repos, c, own.root.pragma, ref.root.pragma)
  }

  lemma MergePragmaMerges(repos: Repos, rep: string, merged: seq<string>)
    requires rep in merged && forall n | n in merged :: n in repos
    ensures IsMerged(repos, Members(merged), rep, MergePragma(repos, rep, merged))
  {
    var c := Members(merged);
    assert forall n :: n in merged <==> n in c;
  }

  predicate SamePragmaless(x: Root, y: Root) {
    x.source == y.source && x.others == y.others
  }

  // Updates change the pragma of a proper root, nothing else.
  ghost predicate IsUpdate(repos: Repos, updated: map<string, Reference>) {
    forall n | n in updated ::
      && n in repos
      && (repos[n].repository.Named? ==> updated[n] == repos[n].repository)
      && (repos[n].repository.Given? ==> updated[n].Given? && SamePragmaless(updated[n].root, repos[n].repository.root))
  }

  // ---- Which names are replaced ----

  // In the class that names[h] starts, n is to be replaced by m.
  ghost predicate ReplacesIn(repos: Repos, keep: set<string>, names: seq<string>, R: Relation, h: nat, n: string,
                             m: string)
  {
    && h < |names|
    && n in ClassFrom(names, R, h) && n !in keep && n != m
    && IsRepresentative(repos, keep, ClassFrom(names, R, h), m)
  }

  // After the classes of the given heads, the last of them that replaces n replaces it by m.
  ghost predicate ReplacesLast(repos: Repos, keep: set<string>, names: seq<string>, R: Relation, heads: seq<nat>,
                               n: string, m: string)
  {
    exists k :: 0 <= k < |heads| && ReplacesIn(repos, keep, names, R, heads[k], n, m)
                && forall l, m' | k < l < |heads| :: !ReplacesIn(repos, keep, names, R, heads[l], n, m')
  }

  // deduplicate replaces n by m.
  ghost predicate IsReplacedBy(repos: Repos, keep: set<string>, depth: nat, n: string, m: string) {
    var names, R := Sorted(repos.Keys), Unseparated(repos, depth);
    ReplacesLast(repos, keep, names, R, Heads(names, R, 0), n, m)
  }

  ghost predicate IsReplaced(repos: Repos, keep: set<string>, depth: nat, n: string) {
    exists m :: IsReplacedBy(repos, keep, depth, n, m)
  }

  type Renaming = map<string, string>

  function Renamed(renaming: Renaming, n: string): string {
    if n in renaming then renaming[n] else n
  }

  // The names replaced, and by what.
  ghost predicate IsRenamingOf(repos: Repos, keep: set<string>, depth: nat, renaming: Renaming) {
    forall n, m :: (n in renaming && renaming[n] == m) <==> IsReplacedBy(repos, keep, depth, n, m)
  }

  // Rename the members of one class that need not be kept.
  method RenameClass(c: seq<string>, keep: set<string>, rep: string, renaming: Renaming) returns (renaming': Renaming)
    ensures renaming' == renaming + map n | n in c && n !in keep && n != rep :: rep
  {
    renaming' := renaming;
    for i := 0 to |c|
      invariant renaming' == renaming + map n | n in c[..i] && n !in keep && n != rep :: rep
    {
      PrefixStep(c, i);
      if c[i] !in keep && c[i] != rep {
        renaming' := renaming'[c[i] := rep];
      }
    }
    PrefixAll(c);
  }

  ghost predicate RenamesSoFar(repos: Repos, keep: set<string>, names: seq<string>, R: Relation, heads: seq<nat>,
                               renaming: Renaming)
  {
    forall n, m :: (n in renaming && renaming[n] == m) <==> ReplacesLast(repos, keep, names, R, heads, n, m)
  }

  // One more class: what it replaces is replaced, and the rest stays.
  lemma ReplacesNext(repos: Repos, keep: set<string>, names: seq<string>, R: Relation, heads: seq<nat>, h: nat,
                     n: string, m: string)
    ensures ReplacesLast(repos, keep, names, R, heads + [h], n, m)
            <==> ReplacesIn(repos, keep, names, R, h, n, m)
                 || (ReplacesLast(repos, keep, names, R, heads, n, m) && !exists m' ::
                       ReplacesIn(repos, keep, names, R, h, n, m'))
  {
    var all := heads + [h];
    assert forall k | 0 <= k < |heads| :: all[k] == heads[k];
    assert all[|heads|] == h;
    if ReplacesLast(repos, keep, names, R, heads, n, m) && !exists m' :: ReplacesIn(repos, keep, names, R, h, n, m') {
      var k :| 0 <= k < |heads| && ReplacesIn(repos, keep, names, R, heads[k], n, m)
               && forall l, m' | k < l < |heads| :: !ReplacesIn(repos, keep, names, R, heads[l], n, m');
      assert ReplacesIn(repos, keep, names, R, all[k], n, m);
    }
  }

  lemma RenameNext(repos: Repos, keep: set<string>, names: seq<string>, R: Relation, heads: seq<nat>, h: nat,
                   c: seq<string>, rep: string, renaming: Renaming)
    requires RenamesSoFar(repos, keep, names, R, heads, renaming)
    requires IsClassOf(names, R, h, c) && IsRepresentative(repos, keep, Members(c), rep)
    ensures RenamesSoFar(repos, keep, names, R, heads + [h], renaming + map n | n in c && n !in keep && n != rep :: rep)
  {
    ClassMembers(names, R, h, c);
    var renaming' := renaming + map n | n in c && n !in keep && n != rep :: rep;
    forall n, m ensures (n in renaming' && renaming'[n] == m)
        <==> ReplacesLast(repos, keep, names, R, heads + [h], n, m)
    {
      ReplacesNext(repos, keep, names, R, heads, h, n, m);
      RepresentsOnly(repos, keep, names, R, h, n, rep);
      assert (n in renaming && renaming[n] == m) <==> ReplacesLast(repos, keep, names, R, heads, n, m);
      assert n in c <==> n in Members(c);
      if n in c && n !in keep && n != rep {
        assert ReplacesIn(repos, keep, names, R, h, n, rep);
      }
    }
  }

  lemma RepresentsOnly(repos: Repos, keep: set<string>, names: seq<string>, R: Relation, h: nat, n: string, rep: string)
    requires h < |names| && IsRepresentative(repos, keep, ClassFrom(names, R, h), rep)
    ensures forall m :: ReplacesIn(repos, keep, names, R, h, n, m)
                        <==> m == rep && n in ClassFrom(names, R, h) && n !in keep && n != rep
  {
    forall m | ReplacesIn(repos, keep, names, R, h, n, m) ensures m == rep {
      RepresentativeUnique(repos, keep, ClassFrom(names, R, h), m, rep);
    }
  }

  method ChooseAll(repos: Repos, keep: set<string>, classes: seq<seq<string>>, ghost names: seq<string>,
                   ghost R: Relation)
    returns (renaming: Renaming, updated: map<string, Reference>)
    requires AreClassesFrom(names, R, 0, classes) && forall n | n in names :: n in repos
    ensures RenamesSoFar(repos, keep, names, R, Heads(names, R, 0), renaming)
    ensures MergesSoFar(repos, keep, names, R, Heads(names, R, 0), updated)
    ensures IsUpdate(repos, updated)
  {
    renaming, updated := map[], map[];
    ghost var heads := Heads(names, R, 0);
    for i := 0 to |classes|
      invariant RenamesSoFar(repos, keep, names, R, heads[..i], renaming)
      invariant MergesSoFar(repos, keep, names, R, heads[..i], updated)
      invariant IsUpdate(repos, updated)
    {
      var c := classes[i];
      PrefixStep(heads, i);
      assert IsClassOf(names, R, heads[i], c);
      if |c| == 1 {
        SingleClass(repos, keep, names, R, heads[..i], heads[i], c, renaming);
        MergeNone(repos, keep, names, R, heads[..i], heads[i], c, updated);
        continue;
      }
      var rep := ChooseRepresentative(repos, keep, c);
      RenameNext(repos, keep, names, R, heads[..i], heads[i], c, rep, renaming);
      ClassMembers(names, R, heads[i], c);
      MergePragmaMerges(repos, rep, c);
      MergeNext(repos, keep, names, R, heads[..i], heads[i], rep, MergePragma(repos, rep, c), updated);
      updated := updated[rep := MergePragma(repos, rep, c)];
      renaming := RenameClass(c, keep, rep, renaming);
    }
    PrefixAll(heads);
  }

  // The representatives of the classes of the given heads that have other members have been updated.
  ghost predicate MergesSoFar(repos: Repos, keep: set<string>, names: seq<string>, R: Relation, heads: seq<nat>,
                              updated: map<string, Reference>)
    requires forall n | n in names :: n in repos
  {
    && (forall m | m in updated :: exists k ::
          0 <= k < |heads| && Merges(repos, keep, names, R, heads[k], m, updated[m]))
    && (forall k, m | 0 <= k < |heads| && heads[k] < |names| && ClassFrom(names, R, heads[k]) != {m}
          && IsRepresentative(repos, keep, ClassFrom(names, R, heads[k]), m) :: m in updated)
  }

  ghost predicate Merges(repos: Repos, keep: set<string>, names: seq<string>, R: Relation, h: nat, m: string,
                         ref: Reference)
  {
    && h < |names| && m in repos
    && IsRepresentative(repos, keep, ClassFrom(names, R, h), m) && IsMerged(repos, ClassFrom(names, R, h), m, ref)
  }

  lemma MergeNext(repos: Repos, keep: set<string>, names: seq<string>, R: Relation, heads: seq<nat>, h: nat, m: string,
                  ref: Reference, updated: map<string, Reference>)
    requires forall n | n in names :: n in repos
    requires MergesSoFar(repos, keep, names, R, heads, updated) && Merges(repos, keep, names, R, h, m, ref)
    ensures MergesSoFar(repos, keep, names, R, heads + [h], updated[m := ref])
  {
    hide IsRepresentative, IsMerged, ClassFrom;
    var all, updated' := heads + [h], updated[m := ref];
    assert all[|heads|] == h && forall k | 0 <= k < |heads| :: all[k] == heads[k];
    forall x | x in updated' ensures exists k ::
        0 <= k < |all| && Merges(repos, keep, names, R, all[k], x, updated'[x])
    {
      if x == m {
        assert Merges(repos, keep, names, R, all[|heads|], x, updated'[x]);
      } else {
        var k :| 0 <= k < |heads| && Merges(repos, keep, names, R, heads[k], x, updated[x]);
        assert Merges(repos, keep, names, R, all[k], x, updated'[x]);
      }
    }
    forall k, x | 0 <= k < |all| && all[k] < |names| && ClassFrom(names, R, all[k]) != {x}
      && IsRepresentative(repos, keep, ClassFrom(names, R, all[k]), x)
      ensures x in updated'
    {
      if k == |heads| {
        RepresentativeUnique(repos, keep, ClassFrom(names, R, h), x, m);
      }
    }
  }

  // A class of one need not be merged.
  lemma MergeNone(repos: Repos, keep: set<string>, names: seq<string>, R: Relation, heads: seq<nat>, h: nat,
                  c: seq<string>, updated: map<string, Reference>)
    requires forall n | n in names :: n in repos
    requires MergesSoFar(repos, keep, names, R, heads, updated) && IsClassOf(names, R, h, c) && |c| == 1
    ensures MergesSoFar(repos, keep, names, R, heads + [h], updated)
  {
    ClassMembers(names, R, h, c);
    assert ClassFrom(names, R, h) == {c[0]};
    hide IsMerged, ClassFrom;
    var all := heads + [h];
    assert all[|heads|] == h && forall k | 0 <= k < |heads| :: all[k] == heads[k];
    forall m | m in updated ensures exists k :: 0 <= k < |all| && Merges(repos, keep, names, R, all[k], m, updated[m]) {
      var k :| 0 <= k < |heads| && Merges(repos, keep, names, R, heads[k], m, updated[m]);
      assert Merges(repos, keep, names, R, all[k], m, updated[m]);
    }
  }

  lemma SingleClass(repos: Repos, keep: set<string>, names: seq<string>, R: Relation, heads: seq<nat>, h: nat,
                    c: seq<string>, renaming: Renaming)
    requires RenamesSoFar(repos, keep, names, R, heads, renaming) && IsClassOf(names, R, h, c) && |c| == 1
    ensures RenamesSoFar(repos, keep, names, R, heads + [h], renaming)
  {
    ClassMembers(names, R, h, c);
    assert Members(c) == {c[0]};
    forall n, m ensures ReplacesLast(repos, keep, names, R, heads + [h], n, m)
        <==> ReplacesLast(repos, keep, names, R, heads, n, m)
    {
      ReplacesNext(repos, keep, names, R, heads, h, n, m);
    }
  }

  // A name is replaced by another one that has a proper root if it has one itself.
  lemma ReplacedByProper(repos: Repos, keep: set<string>, depth: nat, n: string, m: string)
    requires IsReplacedBy(repos, keep, depth, n, m)
    ensures n in repos && m in repos && n !in keep && n != m && (HasRoot(repos, n) ==> HasRoot(repos, m))
  {
  }

  // ---- Where the classes are those of the coarsest bisimulation ----

  // The repositories that n cannot be distinguished from.
  ghost function AlikeNames(repos: Repos, depth: nat, n: string): set<string> {
    set x | x in repos && (x, n) in Exchangeable(repos, depth)
  }

  // There, a name that need not be kept is replaced by the representative of its class.
  lemma ReplacedByRepresentative(repos: Repos, keep: set<string>, depth: nat, n: string, m: string)
    requires AllRooted(repos, depth) && !Blurred(ComparedView(repos, depth))
    ensures IsReplacedBy(repos, keep, depth, n, m)
            <==> n in repos && n !in keep && n != m && IsRepresentative(repos, keep, AlikeNames(repos, depth, n), m)
  {
    hide ComparedView, Blurred, Exchangeable, Unseparated, IsEquivalence, AgreeOn, AreDistinct, Heads, ClassFrom,
        AlikeNames;
    hide IsRepresentative, AllRooted, Rooted, IsStateOf;
    var names := Sorted(repos.Keys);
    NamesDistinct(names);
    SharpNames(repos, depth, names);
    ExchangeableIsEquivalence(repos, depth);
    if n in names {
      var h := ReplacedInOneClass(repos, keep, names, Unseparated(repos, depth), Exchangeable(repos, depth), n,
                                  m);
      ClassIsAlikeNames(repos, depth, names, h, n);
    } else if IsReplacedBy(repos, keep, depth, n, m) {
      ReplacedByProper(repos, keep, depth, n, m);
    }
  }

  lemma NamesDistinct(names: seq<string>)
    requires StrictlySorted(names)
    ensures AreDistinct(names)
  {
    SortedDistinct(names);
  }

  // Only the class of n can replace n.
  lemma ReplacedInOneClass(repos: Repos, keep: set<string>, names: seq<string>, R: Relation, Q: Relation, n: string,
                           m: string) returns (h: nat)
    requires IsEquivalence(Q) && AgreeOn(names, R, Q) && AreDistinct(names) && n in names
    ensures h in Heads(names, R, 0) && h < |names| && n in ClassFrom(names, R, h)
    ensures ReplacesLast(repos, keep, names, R, Heads(names, R, 0), n, m)
        <==> ReplacesIn(repos, keep, names, R, h, n, m)
  {
    var heads := Heads(names, R, 0);
    var k := HeadOf(names, R, n);
    h := heads[k];
    forall l, m' | 0 <= l < |heads| && l != k ensures !ReplacesIn(repos, keep, names, R, heads[l], n, m') {
      OtherClass(names, R, Q, k, l, n);
    }
  }

  // There, the representative of a class gets the merged pragma of the class, and no other repository
  // gets a different one.
  lemma MergedByClass(repos: Repos, keep: set<string>, depth: nat, updated: map<string, Reference>, m: string)
    requires AllRooted(repos, depth) && !Blurred(ComparedView(repos, depth)) && m in repos
    requires MergesSoFar(repos, keep, Sorted(repos.Keys), Unseparated(repos, depth),
                         Heads(Sorted(repos.Keys), Unseparated(repos, depth), 0), updated)
    ensures
      var ref := if m in updated then updated[m] else repos[m].repository;
      if IsRepresentative(repos, keep, AlikeNames(repos, depth, m), m)
          then IsMerged(repos, AlikeNames(repos, depth, m), m, ref)
      else ref == repos[m].repository
  {
    hide ComparedView, Blurred, Exchangeable, Unseparated, IsEquivalence, AgreeOn, AreDistinct, Heads, ClassFrom,
        AlikeNames;
    hide IsRepresentative, IsMerged, AllRooted, Rooted, IsStateOf;
    var names, R, Q := Sorted(repos.Keys), Unseparated(repos, depth), Exchangeable(repos, depth);
    NamesDistinct(names);
    SharpNames(repos, depth, names);
    ExchangeableIsEquivalence(repos, depth);
    var heads := Heads(names, R, 0);
    var k := HeadOf(names, R, m);
    HeadsAreIndices(names, R, k);
    ClassIsAlikeNames(repos, depth, names, heads[k], m);
    if m in updated {
      var l :| 0 <= l < |heads| && Merges(repos, keep, names, R, heads[l], m, updated[m]);
      RepresentativeIsMember(repos, keep, ClassFrom(names, R, heads[l]), m);
      if l != k {
        OtherClass(names, R, Q, k, l, m);
      }
    } else {
      SingleMerged(repos, m);
    }
  }

  lemma HeadsAreIndices(names: seq<string>, R: Relation, k: nat)
    requires k < |Heads(names, R, 0)|
    ensures Heads(names, R, 0)[k] in Heads(names, R, 0)
  {
  }

  lemma RepresentativeIsMember(repos: Repos, keep: set<string>, c: set<string>, m: string)
    requires IsRepresentative(repos, keep, c, m)
    ensures m in c
  {
  }

  // A class of one has its own pragma.
  lemma SingleMerged(repos: Repos, m: string)
    requires m in repos
    ensures IsMerged(repos, {m}, m, repos[m].repository)
  {
  }

  lemma HeadOf(names: seq<string>, R: Relation, n: string) returns (k: nat)
    requires n in names
    ensures k < |Heads(names, R, 0)| && n in ClassFrom(names, R, Heads(names, R, 0)[k])
  {
    var heads := Heads(names, R, 0);
    var i :| 0 <= i < |names| && names[i] == n;
    HeadsCover(names, R, 0, i);
    var h := if i in heads then i else var l :| l in heads && i < l && (names[i], names[l]) in R; l;
    k :| 0 <= k < |heads| && heads[k] == h;
    assert names[..h + 1][i] == n;
  }

  // The classes of an equivalence do not overlap.
  lemma OtherClass(names: seq<string>, R: Relation, Q: Relation, k: nat, l: nat, n: string)
    requires IsEquivalence(Q) && AgreeOn(names, R, Q) && AreDistinct(names)
    requires k < |Heads(names, R, 0)| && l < |Heads(names, R, 0)| && k != l
    requires n in names && n in ClassFrom(names, R, Heads(names, R, 0)[k])
    ensures n !in ClassFrom(names, R, Heads(names, R, 0)[l])
  {
    var heads := Heads(names, R, 0);
    assert heads[k] in heads && heads[l] in heads;
    HeadsApart(names, R, 0);
    ClassIsFull(names, R, Q, heads[k]);
    ClassIsFull(names, R, Q, heads[l]);
    ShareMember(Q, n, names[heads[l]], names[heads[k]]);
    ShareMember(Q, n, names[heads[k]], names[heads[l]]);
  }

  lemma ClassIsAlikeNames(repos: Repos, depth: nat, names: seq<string>, h: nat, n: string)
    requires (forall x :: x in names <==> x in repos) && AreDistinct(names)
    requires AgreeOn(names, Unseparated(repos, depth), Exchangeable(repos, depth))
    requires h in Heads(names, Unseparated(repos, depth), 0)
    requires n in names && n in ClassFrom(names, Unseparated(repos, depth), h)
    ensures ClassFrom(names, Unseparated(repos, depth), h) == AlikeNames(repos, depth, n)
  {
    var R, Q := Unseparated(repos, depth), Exchangeable(repos, depth);
    ExchangeableIsEquivalence(repos, depth);
    ClassIsFull(names, R, Q, h);
    forall x ensures x in ClassFrom(names, R, h) <==> x in AlikeNames(repos, depth, n) {
      ShareMember(Q, names[h], x, n);
      assert (n, names[h]) in Q && (names[h], n) in Q;
      assert (x, names[h]) in Q ==> (names[h], x) in Q;
      assert (x, n) in Q ==> (x, names[h]) in Q;
      assert x in ClassFrom(names, R, h) ==> x in names[..h + 1];
    }
  }
}
