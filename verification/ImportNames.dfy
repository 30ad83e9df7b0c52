// name_imports (bin/jst-lock.py:851-877, bin/jst-import-git.py): the names that imported repositories
// are given.
module ImportNames {
  import opened Wrappers
  import opened Sets
  import opened Numbers

  function Candidate(base: string, count: nat): string {
    if count == 0 then base else base + " (" + Print(count) + ")"
  }

  lemma CandidateInjective(base: string, k: nat, l: nat)
    requires Candidate(base, k) == Candidate(base, l)
    ensures k == l
  {
    if k > 0 && l > 0 {
      var a, b := Candidate(base, k), Candidate(base, l);
      assert a[|base| + 2..|a| - 1] == Print(k);
      assert b[|base| + 2..|b| - 1] == Print(l);
      PrintInjective(k, l);
    }
  }

  // find_name: the first candidate that is not taken.
  method FindName(taken: set<string>, base: string) returns (name: string, ghost count: nat)
    ensures name == Candidate(base, count) && name !in taken
    ensures name == base + (if count == 0 then "" else " (" + Print(count) + ")")
    ensures forall k | 0 <= k < count :: Candidate(base, k) in taken
  {
    name, count := base, 0;
    ghost var tried: set<string> := {};
    var c := 0;
    while name in taken
      invariant name == Candidate(base, c) && count == c
      invariant forall k | 0 <= k < c :: Candidate(base, k) in taken && Candidate(base, k) in tried
      invariant tried <= taken && |tried| == c && forall x | x in tried ::
            exists k :: 0 <= k < c && Candidate(base, k) == x
      decreases |taken| - c
    {
      TriedLess(tried, taken, base, c);
      tried := tried + {name};
      c, count := c + 1, count + 1;
      name := Candidate(base, c);
    }
  }

  lemma TriedLess(tried: set<string>, taken: set<string>, base: string, c: nat)
    requires tried <= taken && |tried| == c && Candidate(base, c) in taken
    requires forall x | x in tried :: exists k :: 0 <= k < c && Candidate(base, k) == x
    ensures Candidate(base, c) !in tried && c < |taken|
  {
    if Candidate(base, c) in tried {
      var k :| 0 <= k < c && Candidate(base, k) == Candidate(base, c);
      CandidateInjective(base, k, c);
    }
    SubsetSize(tried + {Candidate(base, c)}, taken);
  }

  // Candidates for different bases are equal only if one base is the other one with a number.
  lemma CandidatesMeet(x: string, k: nat, y: string, l: nat)
    requires Candidate(x, k) == Candidate(y, l) && x != y
    ensures (k > 0 && l == 0 && y == Candidate(x, k)) || (l > 0 && k == 0 && x == Candidate(y, l))
  {
    LastSpace(x, k);
    LastSpace(y, l);
    var a := Candidate(x, k);
    assert a[..|x|] == x && a[..|y|] == y;
  }

  // A number follows the last space.
  lemma LastSpace(x: string, k: nat)
    ensures var a := Candidate(x, k); k > 0 ==> |a| > |x| && a[|x|] == ' ' && forall p | |x| < p < |a| :: a[p] != ' '
  {
    if k > 0 {
      var a := Candidate(x, k);
      assert a[|x| + 2..|a| - 1] == Print(k);
      forall p | |x| + 2 <= p < |a| - 1 ensures a[p] != ' ' {
        assert a[p] == Print(k)[p - |x| - 2];
      }
    }
  }

  ghost predicate IsFirstFree(taken: set<string>, base: string, k: nat) {
    Candidate(base, k) !in taken && forall m | 0 <= m < k :: Candidate(base, m) in taken
  }

  lemma FirstFreeUnique(taken: set<string>, base: string, k: nat, l: nat)
    requires IsFirstFree(taken, base, k) && IsFirstFree(taken, base, l)
    ensures k == l
  {
    assert k < l ==> Candidate(base, k) in taken;
    assert l < k ==> Candidate(base, l) in taken;
  }

  // The arguments of name_imports; repos are those to import and the extra ones after them.
  datatype Naming = Naming(repos: seq<string>, existing: set<string>, baseName: string, main: Option<string>) {

    // The main repository gets the base name itself.
    function MainNamed(): set<string> {
      if main.Some? && baseName !in existing then {main.value} else {}
    }

    predicate IsMain(x: string) {
      x in MainNamed()
    }

    function Base(x: string): string {
      baseName + "/" + x
    }

    // What names are checked against at position i: the names that exist, and the repositories that
    // have been named, not the names these were given.
    ghost function Taken(i: nat): set<string>
      requires i <= |repos|
    {
      existing + MainNamed() + Before(i)
    }

    ghost function Before(i: nat): set<string>
      requires i <= |repos|
    {
      set x | x in repos[..i]
    }

    predicate LastBefore(j: nat, i: nat)
      requires j < |repos| && i <= |repos|
    {
      forall m | j < m < i :: repos[m] != repos[j]
    }

    // The repository at i is given its final name there.
    predicate NamedAt(i: nat) {
      i < |repos| && !IsMain(repos[i]) && LastBefore(i, |repos|)
    }

    ghost predicate Gives(i: nat, name: string)
      requires i < |repos|
    {
      exists k: nat :: IsFirstFree(Taken(i), Base(repos[i]), k) && name == Candidate(Base(repos[i]), k)
    }

    // The repositories before i have the names that they are given last.
    ghost predicate NamedBefore(i: nat, assign: map<string, string>)
      requires i <= |repos|
    {
      && assign.Keys == Before(i) + MainNamed()
      && (forall x | x in assign :: assign[x] !in existing && (IsMain(x) ==> assign[x] == baseName))
      && (forall j | 0 <= j < i && LastBefore(j, i) && !IsMain(repos[j]) :: Gives(j, assign[repos[j]]))
    }

    ghost predicate Named(assign: map<string, string>) {
      && assign.Keys == (set x | x in repos) + MainNamed()
      && (forall x | x in assign :: IsMain(x) ==> assign[x] == baseName)
      && (forall i | 0 <= i < |repos| && NamedAt(i) :: Gives(i, assign[repos[i]]))
    }

    // The repository at i needs the number k, and the one at j has that number in its own name, is
    // named without a further one, and so gets the same name.
    ghost predicate Clash(i: nat, j: nat, k: nat) {
      && NamedAt(i) && NamedAt(j) && k > 0 && repos[j] == Candidate(repos[i], k)
      && IsFirstFree(Taken(i), Base(repos[i]), k) && Base(repos[j]) !in Taken(j)
    }
  }

  lemma NamedNames(n: Naming, assign: map<string, string>)
    requires n.Named(assign)
    ensures forall x :: x in assign <==> x in n.repos || n.IsMain(x)
  {
  }

  ghost predicate Injective(assign: map<string, string>) {
    forall x, y | x in assign && y in assign && assign[x] == assign[y] :: x == y
  }

  // The name is that of the import, or that and the name of the repository, with a number if need be.
  ghost predicate IsNumbered(baseName: string, x: string, name: string) {
    || name == baseName
    || name == baseName + "/" + x
    || exists k: nat :: k > 0 && name == baseName + "/" + x + " (" + Print(k) + ")"
  }

  lemma NamesAreNumbered(n: Naming, assign: map<string, string>)
    requires n.Named(assign)
    ensures forall x | x in assign :: IsNumbered(n.baseName, x, assign[x])
  {
    forall x | x in assign ensures IsNumbered(n.baseName, x, assign[x]) {
      if !n.IsMain(x) {
        var i := LastAt(n, x);
        assert n.Gives(i, assign[x]);
      }
    }
  }

  // name_imports: every repository gets the first free name, and none of the names exists already.
  method NameImports(n: Naming) returns (assign: map<string, string>)
    ensures n.Named(assign)
    ensures forall x | x in assign :: assign[x] !in n.existing
    ensures forall x | x in assign :: IsNumbered(n.baseName, x, assign[x])
    ensures Injective(assign) <==> !exists i, j, k :: n.Clash(i, j, k)
  {
    assign := map[];
    if n.main.Some? && n.baseName !in n.existing {
      assign := assign[n.main.value := n.baseName];
    }
    for i := 0 to |n.repos|
      invariant n.NamedBefore(i, assign)
    {
      if n.IsMain(n.repos[i]) {
        NamedNext(n, i, assign, n.baseName);
        assert assign[n.repos[i] := n.baseName] == assign;
      } else {
        assert n.existing + assign.Keys == n.Taken(i);
        var name, count := FindName(n.existing + assign.Keys, n.Base(n.repos[i]));
        assert IsFirstFree(n.Taken(i), n.Base(n.repos[i]), count);
        NamedNext(n, i, assign, name);
        assign := assign[n.repos[i] := name];
      }
    }
    assert n.repos[..|n.repos|] == n.repos;
    NamesAreNumbered(n, assign);
    DistinctExactly(n, assign);
  }

  lemma NamedNext(n: Naming, i: nat, assign: map<string, string>, name: string)
    requires i < |n.repos| && n.NamedBefore(i, assign) && name !in n.existing
    requires if n.IsMain(n.repos[i]) then name == n.baseName else n.Gives(i, name)
    ensures n.NamedBefore(i + 1, assign[n.repos[i] := name])
  {
    hide Naming.Gives, Naming.Before;
    var repos := n.repos;
    var next := assign[repos[i] := name];
    KeysNext(n, i);
    forall j | 0 <= j < i + 1 && n.LastBefore(j, i + 1) && !n.IsMain(repos[j])
        ensures repos[j] in next && n.Gives(j, next[repos[j]])
    {
      GivesNext(n, i, assign, name, j);
    }
  }

  lemma KeysNext(n: Naming, i: nat)
    requires i < |n.repos|
    ensures n.Before(i + 1) == n.Before(i) + {n.repos[i]}
  {
    assert n.repos[..i + 1] == n.repos[..i] + [n.repos[i]];
  }

  lemma GivesNext(n: Naming, i: nat, assign: map<string, string>, name: string, j: nat)
    requires j <= i < |n.repos| && n.NamedBefore(i, assign) && n.LastBefore(j, i + 1) && !n.IsMain(n.repos[j])
    requires if n.IsMain(n.repos[i]) then name == n.baseName else n.Gives(i, name)
    ensures n.repos[j] in assign[n.repos[i] := name] && n.Gives(j, assign[n.repos[i] := name][n.repos[j]])
  {
    hide Naming.Gives;
    assert j < i ==> n.LastBefore(j, i) && n.repos[j] != n.repos[i] && n.repos[j] in n.repos[..i];
  }

  // The names are different from each other if and only if no repository that needs a number meets
  // one that has it in its name already.
  lemma DistinctExactly(n: Naming, assign: map<string, string>)
    requires n.Named(assign)
    ensures Injective(assign) <==> !exists i, j, k :: n.Clash(i, j, k)
  {
    if i: nat, j: nat, k: nat :| n.Clash(i, j, k) {
      ClashMeets(n, assign, i, j, k);
    }
    forall x, y | x in assign && y in assign && assign[x] == assign[y] && x != y
      ensures exists i, j, k :: n.Clash(i, j, k)
    {
      var i, j, k := MeetingClashes(n, assign, x, y);
    }
  }

  lemma ClashMeets(n: Naming, assign: map<string, string>, i: nat, j: nat, k: nat)
    requires n.Named(assign) && n.Clash(i, j, k)
    ensures n.repos[i] != n.repos[j] && assign[n.repos[i]] == assign[n.repos[j]]
  {
    var l: nat :| IsFirstFree(n.Taken(i), n.Base(n.repos[i]), l)
        && assign[n.repos[i]] == Candidate(n.Base(n.repos[i]), l);
    FirstFreeUnique(n.Taken(i), n.Base(n.repos[i]), k, l);
    assert IsFirstFree(n.Taken(j), n.Base(n.repos[j]), 0) by {
      assert Candidate(n.Base(n.repos[j]), 0) == n.Base(n.repos[j]);
    }
    var m: nat :| IsFirstFree(n.Taken(j), n.Base(n.repos[j]), m)
        && assign[n.repos[j]] == Candidate(n.Base(n.repos[j]), m);
    FirstFreeUnique(n.Taken(j), n.Base(n.repos[j]), 0, m);
    BaseOfCandidate(n, n.repos[i], k);
  }

  lemma BaseOfCandidate(n: Naming, x: string, k: nat)
    ensures Candidate(n.Base(x), k) == n.Base(Candidate(x, k))
  {
  }

  lemma LastAt(n: Naming, x: string) returns (i: nat)
    requires x in n.repos
    ensures i < |n.repos| && n.repos[i] == x && n.LastBefore(i, |n.repos|)
  {
    i := |n.repos| - 1;
    while n.repos[i] != x
      invariant i < |n.repos| && forall m | i < m < |n.repos| :: n.repos[m] != x
      decreases i
    {
      i := i - 1;
    }
  }

  lemma MeetingClashes(n: Naming, assign: map<string, string>, x: string, y: string) returns (i: nat, j: nat, k: nat)
    requires n.Named(assign) && x in assign && y in assign && assign[x] == assign[y] && x != y
    ensures n.Clash(i, j, k)
  {
    OnlyMainIsBase(n, assign, x);
    OnlyMainIsBase(n, assign, y);
    i := LastAt(n, x);
    j := LastAt(n, y);
    assert n.Gives(i, assign[x]) && n.Gives(j, assign[y]);
    k :| IsFirstFree(n.Taken(i), n.Base(x), k) && assign[x] == Candidate(n.Base(x), k);
    var l: nat :| IsFirstFree(n.Taken(j), n.Base(y), l) && assign[y] == Candidate(n.Base(y), l);
    BaseOfCandidate(n, x, k);
    BaseOfCandidate(n, y, l);
    assert n.Base(Candidate(x, k))[|n.baseName| + 1..] == Candidate(x, k);
    assert n.Base(Candidate(y, l))[|n.baseName| + 1..] == Candidate(y, l);
    CandidatesMeet(x, k, y, l);
    if k == 0 {
      i, j, k := j, i, l;
    }
  }

  lemma OnlyMainIsBase(n: Naming, assign: map<string, string>, x: string)
    requires n.Named(assign) && x in assign
    ensures n.IsMain(x) <==> assign[x] == n.baseName
  {
    if !n.IsMain(x) {
      var i := LastAt(n, x);
      assert n.Gives(i, assign[x]);
    }
  }

  // Two repositories do get the same name, although both names are free and different.
  lemma NamesCanClash() returns (n: Naming)
    ensures n.repos == ["main", "a", "a (1)"] && n.main == Some("main") && n.existing == {"lib/a"}
    ensures n.baseName == "lib"
    ensures forall assign | n.Named(assign) :: assign["a"] == "lib/a (1)" && assign["a (1)"] == "lib/a (1)"
  {
    n := Naming(["main", "a", "a (1)"], {"lib/a"}, "lib", Some("main"));
    assert Print(1) == "1";
    assert Candidate("a", 1) == "a (1)" && Candidate("lib/a", 1) == "lib/a (1)" && Candidate("lib/a", 0) == "lib/a";
    assert n.Base("a") == "lib/a" && n.Base("a (1)") == "lib/a (1)";
    assert n.NamedAt(1) && n.NamedAt(2);
    assert IsFirstFree(n.Taken(1), "lib/a", 1);
    assert Candidate("lib/a (1)", 0) == "lib/a (1)";
    assert IsFirstFree(n.Taken(2), "lib/a (1)", 0);
    forall assign | n.Named(assign) ensures assign["a"] == "lib/a (1)" && assign["a (1)"] == "lib/a (1)" {
      assert n.Gives(1, assign[n.repos[1]]) && n.Gives(2, assign[n.repos[2]]);
      var k: nat :| IsFirstFree(n.Taken(1), n.Base("a"), k) && assign["a"] == Candidate(n.Base("a"), k);
      FirstFreeUnique(n.Taken(1), "lib/a", 1, k);
      var l: nat :| IsFirstFree(n.Taken(2), n.Base("a (1)"), l) && assign["a (1)"] == Candidate(n.Base("a (1)"), l);
      FirstFreeUnique(n.Taken(2), "lib/a (1)", 0, l);
    }
  }
}
