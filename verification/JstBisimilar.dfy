// bisimilar_repos of bin/jst-lock.py:2585-2726 (and its copy in bin/jst-deduplicate-repos.py): all
// pairs of names are visited once; a pair found different is marked at once, and one that hinges
// on another pair is registered there, to be marked should that pair turn out different later.
module JstBisimilar {
  import opened Wrappers
  import opened ByteOrder
  import opened Prefixes
  import opened Bisimulation
  import opened PairMarking
  import opened OpenSystems
  import opened JstRepos
  import opened JstAgreement

  // The names whose comparison is settled as far as the pair p is concerned.
  ghost function SettledNames(pairs: set<Pair>, t: Marks, p: Pair): Relation {
    iset x: string, y: string | EdgeSettled(pairs, t, p, x, y) :: (x, y)
  }

  ghost function AnyNames(): Relation {
    iset x: string, y: string | true :: (x, y)
  }

  // Two roots have been found equal, as far as known.
  ghost predicate RootSeen(pairs: set<Pair>, t: Marks, p: Pair, x: Root, y: Root) {
    RootsAgree(x, y, SettledNames(pairs, t, p), true)
  }

  // The names x and y decide about the pair p: if they are in D, so is p.
  ghost predicate Decides(pairs: set<Pair>, D: iset<Pair>, p: Pair, x: string, y: string) {
    && (x != y ==> MkPair(x, y) in pairs)
    && (MkPair(x, y) in D ==> p in D)
  }

  ghost predicate RootDecides(pairs: set<Pair>, D: iset<Pair>, p: Pair, x: Root, y: Root) {
    && (RootsAgree(x, y, AnyNames(), true) || p in D)
    && (RepoOf(x).Some? && RepoOf(y).Some? ==> Decides(pairs, D, p, RepoOf(x).value, RepoOf(y).value))
  }

  // roots_equal: equality of two roots; that of the repositories they are computed from may be
  // pending, and is registered then.
  method RootsEqual(t: PairTable, a: Root, b: Root, p: Pair, ghost pairs: set<Pair>, ghost D: iset<Pair>)
    returns (eq: bool)
    requires Sound(t.marks, D) && RootDecides(pairs, D, p, a, b)
    modifies t
    ensures Sound(t.marks, D) && Evolves(old(t.marks), t.marks) && t.marks.marked == old(t.marks.marked)
    ensures eq ==> RootSeen(pairs, t.marks, p, a, b)
    ensures !eq ==> p in D
  {
    match (a.source, b.source) {
      case (File(path), File(path')) =>
        return path == path';
      case (Archive(zip, content, subdir), Archive(zip', content', subdir')) =>
        return zip == zip' && content == content' && GetOr(subdir, ".") == GetOr(subdir', ".");
      case (Git(commit, subdir), Git(commit', subdir')) =>
        return commit == commit' && GetOr(subdir, ".") == GetOr(subdir', ".");
      case (Computed(repo, target, config), Computed(repo', target', config')) =>
        if GetOr(config, "{}") != GetOr(config', "{}") || target != target' {
          return false;
        }
        eq := ReposEqual(t, repo, repo', p, pairs, D);
      case (TreeStructure(repo), TreeStructure(repo')) =>
        eq := ReposEqual(t, repo, repo', p, pairs, D);
      case _ =>
        return a == b;
    }
  }

  method ReposEqual(t: PairTable, x: string, y: string, p: Pair, ghost pairs: set<Pair>, ghost D: iset<Pair>)
    returns (eq: bool)
    requires Sound(t.marks, D) && Decides(pairs, D, p, x, y)
    modifies t
    ensures Sound(t.marks, D) && Evolves(old(t.marks), t.marks) && t.marks.marked == old(t.marks.marked)
    ensures eq ==> EdgeSettled(pairs, t.marks, p, x, y)
    ensures !eq ==> p in D
  {
    if x == y {
      return true;
    }
    if MkPair(x, y) in t.marks.marked {
      return false;
    }
    SoundRegister(t.marks, MkPair(x, y), p, D);
    t.RegisterDependency(MkPair(x, y), p);
    return true;
  }

  predicate SameFileNames(a: Repo, b: Repo) {
    && GetOr(a.targetFile, "TARGETS") == GetOr(b.targetFile, "TARGETS")
    && GetOr(a.ruleFile, "RULES") == GetOr(b.ruleFile, "RULES")
    && GetOr(a.expressionFile, "EXPRESSIONS") == GetOr(b.expressionFile, "EXPRESSIONS")
  }

  ghost predicate RootsSeen(pairs: set<Pair>, t: Marks, p: Pair, xs: seq<Root>, ys: seq<Root>, i: nat)
    requires |xs| == 4 == |ys|
  {
    forall j: nat | j < i && j < 4 :: RootSeen(pairs, t, p, xs[j], ys[j])
  }

  lemma RootsSeenKept(pairs: set<Pair>, t: Marks, t': Marks, p: Pair, xs: seq<Root>, ys: seq<Root>, i: nat)
    requires |xs| == 4 == |ys| && RootsSeen(pairs, t, p, xs, ys, i) && Evolves(t, t') && p !in t'.marked
    ensures RootsSeen(pairs, t', p, xs, ys, i)
  {
    forall j: nat | j < i && j < 4 ensures RootSeen(pairs, t', p, xs[j], ys[j]) {
      assert RootSeen(pairs, t, p, xs[j], ys[j]);
      RootsAgreeCompared(xs[j], ys[j], SettledNames(pairs, t, p));
      RootsAgreeCompared(xs[j], ys[j], SettledNames(pairs, t', p));
      if RepoOf(xs[j]).Some? {
        EdgeKept(pairs, t, t', p, RepoOf(xs[j]).value, RepoOf(ys[j]).value);
      }
    }
  }

  // repo_roots_equal: all four roots, and the file names.
  method RepoRootsEqual(t: PairTable, repos: Repos, depth: nat, a: string, b: string, p: Pair,
                        ghost pairs: set<Pair>, ghost D: iset<Pair>) returns (eq: bool)
    requires Rooted(repos, a, depth) && Rooted(repos, b, depth)
    requires Sound(t.marks, D) && p !in t.marks.marked
    requires forall j: nat | j < 4 :: RootDecides(pairs, D, p, RootsOf(repos, a, depth)[j], RootsOf(repos, b, depth)[j])
    requires !SameFileNames(repos[a], repos[b]) ==> p in D
    modifies t
    ensures Sound(t.marks, D) && Evolves(old(t.marks), t.marks) && t.marks.marked == old(t.marks.marked)
    ensures !eq ==> p in D
    ensures eq ==> SameFileNames(repos[a], repos[b])
    ensures eq ==> RootsSeen(pairs, t.marks, p, RootsOf(repos, a, depth), RootsOf(repos, b, depth), 4)
  {
    ghost var xs, ys := RootsOf(repos, a, depth), RootsOf(repos, b, depth);
    var rootA, rootB := None, None;
    for i := 0 to 4
      invariant Sound(t.marks, D) && Evolves(old(t.marks), t.marks) && t.marks.marked == old(t.marks.marked)
      invariant i > 0 ==> rootA == RootAt(repos, a, i - 1, depth) && rootB == RootAt(repos, b, i - 1, depth)
      invariant RootsSeen(pairs, t.marks, p, xs, ys, i)
    {
      if repos[a].RootName(a, i).Some? {
        rootA := GetRoot(repos, repos[a].RootName(a, i).value, depth);
      }
      if repos[b].RootName(b, i).Some? {
        rootB := GetRoot(repos, repos[b].RootName(b, i).value, depth);
      }
      assert rootA == RootAt(repos, a, i, depth) == Some(xs[i]);
      assert rootB == RootAt(repos, b, i, depth) == Some(ys[i]);
      ghost var before := t.marks;
      var same := RootsEqual(t, rootA.value, rootB.value, p, pairs, D);
      if !same {
        return false;
      }
      RootsSeenKept(pairs, before, t.marks, p, xs, ys, i);
    }
    return SameFileNames(repos[a], repos[b]);
  }

  // Comparison of the bindings: a different binding makes the pair different at once, a pending
  // one is registered.
  method CompareBindings(t: PairTable, linksA: map<string, string>, linksB: map<string, string>, p: Pair,
                         ghost pairs: set<Pair>, ghost D: iset<Pair>)
    requires Sound(t.marks, D) && linksA.Keys == linksB.Keys
    requires forall l | l in linksA :: Decides(pairs, D, p, linksA[l], linksB[l])
    modifies t
    ensures Sound(t.marks, D) && Evolves(old(t.marks), t.marks)
    ensures p in t.marks.marked || forall l | l in linksA :: EdgeSettled(pairs, t.marks, p, linksA[l], linksB[l])
  {
    var rest := linksA.Keys;
    while rest != {}
      invariant rest <= linksA.Keys
      invariant Sound(t.marks, D) && Evolves(old(t.marks), t.marks)
      invariant p in t.marks.marked || forall l | l in linksA && l !in rest ::
            EdgeSettled(pairs, t.marks, p, linksA[l], linksB[l])
    {
      var link :| link in rest;
      ghost var before, done := t.marks, linksA.Keys - rest;
      rest := rest - {link};
      CompareBinding(t, linksA[link], linksB[link], p, pairs, D);
      forall l | p !in t.marks.marked && l in done ensures EdgeSettled(pairs, t.marks, p, linksA[l], linksB[l]) {
        EdgeKept(pairs, before, t.marks, p, linksA[l], linksB[l]);
      }
    }
  }

  method CompareBinding(t: PairTable, x: string, y: string, p: Pair, ghost pairs: set<Pair>, ghost D: iset<Pair>)
    requires Sound(t.marks, D) && Decides(pairs, D, p, x, y)
    modifies t
    ensures Sound(t.marks, D) && Evolves(old(t.marks), t.marks)
    ensures p in t.marks.marked || EdgeSettled(pairs, t.marks, p, x, y)
  {
    if x != y {
      ghost var before := t.marks;
      if MkPair(x, y) in t.marks.marked {
        t.MarkAsDifferent(p, D);
        SoundKept(before, t.marks, D);
      } else {
        SoundRegister(before, MkPair(x, y), p, D);
        t.RegisterDependency(MkPair(x, y), p);
      }
    }
  }

  // What the comparison of two repositories relies on: sys shows the repositories, pairs has all
  // pairs of them and of the names their edges lead to, and D is closed as separations are.
  ghost predicate Setting(repos: Repos, depth: nat, sys: View, pairs: set<Pair>, D: iset<Pair>) {
    && sys.Keys == repos.Keys
    && (forall n | n in repos :: Rooted(repos, n, depth) && IsStateOf(sys[n], repos, depth, Compared, n))
    && (forall x, y | x in Names(sys) && y in Names(sys) && x != y :: MkPair(x, y) in pairs)
    && IsSeparation(sys, D)
  }

  // The names that have a state, or that an edge leads to.
  ghost function Names(sys: View): set<string> {
    sys.Keys + set n, e | n in sys && e in sys[n].next :: sys[n].next[e]
  }

  lemma EdgeDecides(repos: Repos, depth: nat, sys: View, pairs: set<Pair>, D: iset<Pair>, p: Pair, e: Edge)
    requires Setting(repos, depth, sys, pairs, D) && p.lo in repos && p.hi in repos
    requires e in sys[p.lo].next && e in sys[p.hi].next
    ensures Decides(pairs, D, p, sys[p.lo].next[e], sys[p.hi].next[e])
  {
    assert Successor(sys, p, e) == MkPair(sys[p.lo].next[e], sys[p.hi].next[e]);
  }

  // Different contents or labels decide about a pair.
  lemma StateDecides(repos: Repos, depth: nat, sys: View, pairs: set<Pair>, D: iset<Pair>, p: Pair)
    requires Setting(repos, depth, sys, pairs, D) && p.lo in repos && p.hi in repos && p.lo != p.hi
    ensures sys[p.lo].content != sys[p.hi].content || sys[p.lo].next.Keys != sys[p.hi].next.Keys ==> p in D
  {
    assert LocallyEqual(sys, p) || p in D;
  }

  // The roots, file names and bindings of two repositories decide about them.
  lemma RootsDecide(repos: Repos, depth: nat, sys: View, pairs: set<Pair>, D: iset<Pair>, p: Pair, j: nat)
    requires Setting(repos, depth, sys, pairs, D) && p.lo in repos && p.hi in repos && p.lo != p.hi && j < 4
    ensures RootDecides(pairs, D, p, RootAt(repos, p.lo, j, depth).value, RootAt(repos, p.hi, j, depth).value)
  {
    StateDecides(repos, depth, sys, pairs, D, p);
    assert sys[p.lo].content.roots[j] == sys[p.hi].content.roots[j] || p in D;
    RootsAgreeCompared(RootAt(repos, p.lo, j, depth).value, RootAt(repos, p.hi, j, depth).value, AnyNames());
    if RootRepo(j) in sys[p.lo].next && RootRepo(j) in sys[p.hi].next {
      EdgeDecides(repos, depth, sys, pairs, D, p, RootRepo(j));
    }
  }

  lemma FilesDecide(repos: Repos, depth: nat, sys: View, pairs: set<Pair>, D: iset<Pair>, p: Pair)
    requires Setting(repos, depth, sys, pairs, D) && p.lo in repos && p.hi in repos && p.lo != p.hi
    ensures !SameFileNames(repos[p.lo], repos[p.hi]) ==> p in D
    ensures repos[p.lo].bindings.Keys != repos[p.hi].bindings.Keys ==> p in D
  {
    StateDecides(repos, depth, sys, pairs, D, p);
    BindingLabels(repos, depth, sys[p.lo], p.lo);
    BindingLabels(repos, depth, sys[p.hi], p.hi);
  }

  lemma BindingLabels(repos: Repos, depth: nat, s: State<Content, Edge, string>, n: string)
    requires Rooted(repos, n, depth) && IsStateOf(s, repos, depth, Compared, n)
    ensures repos[n].bindings.Keys == set e: Edge | e in s.next.Keys && e.Binding? :: e.name
  {
  }

  lemma BindingsDecide(repos: Repos, depth: nat, sys: View, pairs: set<Pair>, D: iset<Pair>, p: Pair, l: string)
    requires Setting(repos, depth, sys, pairs, D) && p.lo in repos && p.hi in repos
    requires l in repos[p.lo].bindings && l in repos[p.hi].bindings
    ensures Decides(pairs, D, p, repos[p.lo].bindings[l], repos[p.hi].bindings[l])
  {
    EdgeDecides(repos, depth, sys, pairs, D, p, Binding(l));
  }

  // With equal roots, file names and bindings, all edges have been looked at.
  lemma PairSettled(repos: Repos, depth: nat, sys: View, pairs: set<Pair>, t: Marks, D: iset<Pair>, p: Pair)
    requires Setting(repos, depth, sys, pairs, D) && p.lo in repos && p.hi in repos
    requires RootsSeen(pairs, t, p, RootsOf(repos, p.lo, depth), RootsOf(repos, p.hi, depth), 4)
    requires SameFileNames(repos[p.lo], repos[p.hi])
    requires repos[p.lo].bindings.Keys == repos[p.hi].bindings.Keys
    requires forall l | l in repos[p.lo].bindings ::
          EdgeSettled(pairs, t, p, repos[p.lo].bindings[l], repos[p.hi].bindings[l])
    ensures AllSettled(sys, pairs, t, {p})
  {
    StatesAgree(repos, depth, sys[p.lo], sys[p.hi], p, pairs, t);
  }

  lemma StatesAgree(repos: Repos, depth: nat, sa: State<Content, Edge, string>, sb: State<Content, Edge, string>,
                    p: Pair, pairs: set<Pair>, t: Marks)
    requires Rooted(repos, p.lo, depth) && Rooted(repos, p.hi, depth)
    requires IsStateOf(sa, repos, depth, Compared, p.lo) && IsStateOf(sb, repos, depth, Compared, p.hi)
    requires RootsSeen(pairs, t, p, RootsOf(repos, p.lo, depth), RootsOf(repos, p.hi, depth), 4)
    requires SameFileNames(repos[p.lo], repos[p.hi])
    requires repos[p.lo].bindings.Keys == repos[p.hi].bindings.Keys
    requires forall l | l in repos[p.lo].bindings ::
          EdgeSettled(pairs, t, p, repos[p.lo].bindings[l], repos[p.hi].bindings[l])
    ensures sa.content == sb.content && sa.next.Keys == sb.next.Keys
    ensures forall e | e in sa.next :: EdgeSettled(pairs, t, p, sa.next[e], sb.next[e])
  {
    var xs, ys := RootsOf(repos, p.lo, depth), RootsOf(repos, p.hi, depth);
    forall j: nat | j < 4
      ensures sa.content.roots[j] == sb.content.roots[j]
      ensures RootRepo(j) in sa.next <==> RootRepo(j) in sb.next
      ensures RootRepo(j) in sa.next ==> EdgeSettled(pairs, t, p, sa.next[RootRepo(j)], sb.next[RootRepo(j)])
    {
      assert RootSeen(pairs, t, p, xs[j], ys[j]);
      RootsAgreeCompared(xs[j], ys[j], SettledNames(pairs, t, p));
    }
    assert sa.content.roots == sb.content.roots;
    forall e
      ensures e in sa.next <==> e in sb.next
      ensures e in sa.next ==> EdgeSettled(pairs, t, p, sa.next[e], sb.next[e])
    {
      match e
      case Binding(l) =>
      case RootRepo(j) =>
    }
  }

  // All that is done about one pair of names.
  method VisitPair(t: PairTable, repos: Repos, depth: nat, a: string, b: string,
                   ghost sys: View, ghost pairs: set<Pair>, ghost D: iset<Pair>, ghost visited: set<Pair>)
    requires Setting(repos, depth, sys, pairs, D) && a in repos && b in repos && a != b
    requires Sound(t.marks, D) && AllSettled(sys, pairs, t.marks, visited)
    modifies t
    ensures Sound(t.marks, D) && AllSettled(sys, pairs, t.marks, visited + {Pair(a, b)})
  {
    var p := Pair(a, b);
    if p in t.marks.marked {
      return;
    }
    forall j: nat | j < 4 ensures RootDecides(pairs, D, p, RootsOf(repos, a, depth)[j], RootsOf(repos, b, depth)[j]) {
      RootsDecide(repos, depth, sys, pairs, D, p, j);
    }
    FilesDecide(repos, depth, sys, pairs, D, p);
    forall l | l in repos[a].bindings && l in repos[b].bindings
        ensures Decides(pairs, D, p, repos[a].bindings[l], repos[b].bindings[l])
    {
      BindingsDecide(repos, depth, sys, pairs, D, p, l);
    }
    ghost var before := t.marks;
    var eq := RepoRootsEqual(t, repos, depth, a, b, p, pairs, D);
    ghost var mid := t.marks;
    AllSettledKept(sys, pairs, before, mid, visited);
    if !eq || repos[a].bindings.Keys != repos[b].bindings.Keys {
      t.MarkAsDifferent(p, D);
      SoundKept(mid, t.marks, D);
    } else {
      CompareBindings(t, repos[a].bindings, repos[b].bindings, p, pairs, D);
      if p !in t.marks.marked {
        RootsSeenKept(pairs, mid, t.marks, p, RootsOf(repos, a, depth), RootsOf(repos, b, depth), 4);
        PairSettled(repos, depth, sys, pairs, t.marks, D, p);
      }
    }
    AllSettledKept(sys, pairs, mid, t.marks, visited);
  }

  // All pairs of different names.
  ghost function AllPairs(names: set<string>): set<Pair> {
    set a, b | a in names && b in names && Less(a, b) :: Pair(a, b)
  }

  lemma StatesShown(repos: Repos, depth: nat, sys: View)
    requires AllRooted(repos, depth) && sys == ComparedView(repos, depth)
    ensures sys.Keys == repos.Keys
    ensures forall n | n in repos :: Rooted(repos, n, depth) && IsStateOf(sys[n], repos, depth, Compared, n)
  {
    forall n | n in repos ensures n in sys && IsStateOf(sys[n], repos, depth, Compared, n) {
      ViewState(repos, depth, Compared, n);
    }
  }

  lemma SettingHolds(repos: Repos, depth: nat, sys: View)
    requires AllRooted(repos, depth) && sys == ComparedView(repos, depth)
    ensures Setting(repos, depth, sys, AllPairs(Names(sys)), SeparatedPairs(sys))
  {
    StatesShown(repos, depth, sys);
    PairsOfNames(Names(sys));
    SeparatedIsSeparation(sys);
  }

  lemma PairsOfNames(names: set<string>)
    ensures forall x, y | x in names && y in names && x != y :: MkPair(x, y) in AllPairs(names)
  {
    forall x, y | x in names && y in names && x != y ensures MkPair(x, y) in AllPairs(names) {
      LessTotal(x, y);
    }
  }

  // ---- The classes ----

  // The names that start a class, from the last one down to names[j]: those that are not related to
  // any later one that does.
  ghost function Heads(names: seq<string>, R: Relation, j: nat): (heads: seq<nat>)
    requires j <= |names|
    ensures forall k | 0 <= k < |heads| :: j <= heads[k] < |names|
    decreases |names| - j
  {
    if j == |names| then [] else
      var later := Heads(names, R, j + 1);
      if exists h :: h in later && (names[j], names[h]) in R then later else later + [j]
  }

  // The class that names[h] starts: itself and all earlier names related to it.
  ghost predicate IsClassOf(names: seq<string>, R: Relation, h: nat, c: seq<string>) {
    && h < |names| && c != []
    && (forall i, j | 0 <= i < j < |c| :: c[i] != c[j])
    && (forall n :: n in c <==> n == names[h] || (n in names[..h] && (n, names[h]) in R))
  }

  ghost function ClassFrom(names: seq<string>, R: Relation, h: nat): set<string>
    requires h < |names|
  {
    set n | n in names[..h + 1] && (n == names[h] || (n, names[h]) in R)
  }

  lemma ClassMembers(names: seq<string>, R: Relation, h: nat, c: seq<string>)
    requires IsClassOf(names, R, h, c)
    ensures Members(c) == ClassFrom(names, R, h)
  {
    assert names[..h + 1] == names[..h] + [names[h]];
  }

  ghost predicate AreClassesFrom(names: seq<string>, R: Relation, j: nat, classes: seq<seq<string>>) {
    && j <= |names|
    && |classes| == |Heads(names, R, j)|
    && forall k | 0 <= k < |classes| :: IsClassOf(names, R, Heads(names, R, j)[k], classes[k])
  }

  // names[j] and its unmarked partners among the earlier names.
  method ClassOf(names: seq<string>, j: nat, marked: set<Pair>) returns (c: seq<string>)
    requires j < |names| && forall k, l | 0 <= k < l < |names| :: names[k] != names[l]
    ensures c != [] && forall k, l | 0 <= k < l < |c| :: c[k] != c[l]
    ensures forall n :: n in c <==> n == names[j] || (n in names[..j] && Pair(n, names[j]) !in marked)
  {
    c := [names[j]];
    for i := 0 to j
      invariant c != [] && forall k, l | 0 <= k < l < |c| :: c[k] != c[l]
      invariant forall n :: n in c <==> n == names[j] || (n in names[..i] && Pair(n, names[j]) !in marked)
    {
      PrefixStep(names, i);
      if Pair(names[i], names[j]) !in marked {
        c := c + [names[i]];
      }
    }
  }

  // The last loop: a name that is in no class yet, taken from the end, forms one with all earlier
  // names it is not marked with, even if those are in a class already.
  method ClassesOf(names: seq<string>, marked: set<Pair>, ghost R: Relation) returns (classes: seq<seq<string>>)
    requires forall k, l | 0 <= k < l < |names| :: names[k] != names[l]
    requires forall i, j | 0 <= i < j < |names| :: (names[i], names[j]) in R <==> Pair(names[i], names[j]) !in marked
    ensures AreClassesFrom(names, R, 0, classes)
  {
    classes := [];
    var done: set<string> := {};
    for j := |names| downto 0
      invariant AreClassesFrom(names, R, j, classes)
      invariant AreDone(done, classes)
    {
      DoneIsRelated(names, R, j, classes);
      if names[j] in done {
        continue;
      }
      var c := ClassOf(names, j, marked);
      AddClass(names, R, j, classes, c, marked);
      DoneAdded(done, classes, c);
      classes := classes + [c];
      done := done + (set x | x in c);
    }
  }

  ghost predicate AreDone(done: set<string>, classes: seq<seq<string>>) {
    forall n :: n in done <==> exists k :: 0 <= k < |classes| && n in classes[k]
  }

  lemma DoneAdded(done: set<string>, classes: seq<seq<string>>, c: seq<string>)
    requires AreDone(done, classes)
    ensures AreDone(done + (set x | x in c), classes + [c])
  {
    var all := classes + [c];
    assert all[|classes|] == c;
    assert forall k | 0 <= k < |classes| :: all[k] == classes[k];
  }

  // names[j] is in one of the classes of later names if and only if it is related to a later head.
  lemma DoneIsRelated(names: seq<string>, R: Relation, j: nat, classes: seq<seq<string>>)
    requires j < |names| && AreClassesFrom(names, R, j + 1, classes)
    requires forall k, l | 0 <= k < l < |names| :: names[k] != names[l]
    ensures (exists k :: 0 <= k < |classes| && names[j] in classes[k])
            <==> exists h :: h in Heads(names, R, j + 1) && (names[j], names[h]) in R
  {
    var heads := Heads(names, R, j + 1);
    if k :| 0 <= k < |classes| && names[j] in classes[k] {
      assert IsClassOf(names, R, heads[k], classes[k]) && heads[k] in heads;
    }
    if h :| h in heads && (names[j], names[h]) in R {
      var k :| 0 <= k < |heads| && heads[k] == h;
      assert IsClassOf(names, R, heads[k], classes[k]) && names[..h][j] == names[j];
    }
  }

  lemma AddClass(names: seq<string>, R: Relation, j: nat, classes: seq<seq<string>>, c: seq<string>, marked: set<Pair>)
    requires j < |names| && AreClassesFrom(names, R, j + 1, classes)
    requires !exists h :: h in Heads(names, R, j + 1) && (names[j], names[h]) in R
    requires forall i, l | 0 <= i < l < |names| :: (names[i], names[l]) in R <==> Pair(names[i], names[l]) !in marked
    requires c != [] && forall k, l | 0 <= k < l < |c| :: c[k] != c[l]
    requires forall n :: n in c <==> n == names[j] || (n in names[..j] && Pair(n, names[j]) !in marked)
    ensures AreClassesFrom(names, R, j, classes + [c])
  {
    assert Heads(names, R, j) == Heads(names, R, j + 1) + [j];
    assert IsClassOf(names, R, j, c);
  }

  // ---- Classes of an equivalence ----

  // The classes are exactly those of Q on the names: every name is in a class, classes do not
  // overlap, and each class consists of all names related to any one of its members.
  ghost predicate IsPartition(names: set<string>, classes: seq<seq<string>>, Q: Relation) {
    && (forall n | n in names :: exists k :: 0 <= k < |classes| && n in classes[k])
    && (forall k, l, x | 0 <= k < l < |classes| && x in classes[k] :: x !in classes[l])
    && (forall k | 0 <= k < |classes| :: IsClass(names, classes[k], Q))
  }

  ghost predicate IsClass(names: set<string>, c: seq<string>, Q: Relation) {
    && c != []
    && (forall i, j | 0 <= i < j < |c| :: c[i] != c[j])
    && (forall x | x in c :: x in names)
    && (forall x, n | x in c && n in names :: n in c <==> (n, x) in Q)
  }

  // Every name starts a class or is related to a later one that does.
  lemma {:induction false} HeadsCover(names: seq<string>, R: Relation, j: nat, i: nat)
    requires j <= i < |names|
    ensures i in Heads(names, R, j) || exists h :: h in Heads(names, R, j) && i < h && (names[i], names[h]) in R
    decreases |names| - j
  {
    if j < i {
      HeadsCover(names, R, j + 1, i);
    } else {
      var later := Heads(names, R, j + 1);
      assert (later + [j])[|later|] == j;
    }
  }

  ghost predicate GoDown(heads: seq<nat>) {
    forall k, l | 0 <= k < l < |heads| :: heads[l] < heads[k]
  }

  // Heads go down, and are not related to later ones.
  lemma {:induction false} HeadsApart(names: seq<string>, R: Relation, j: nat)
    requires j <= |names|
    ensures GoDown(Heads(names, R, j))
    ensures forall l, h | l in Heads(names, R, j) && h in Heads(names, R, j) && l < h :: (names[l], names[h]) !in R
    decreases |names| - j
  {
    if j < |names| {
      HeadsApart(names, R, j + 1);
      var later := Heads(names, R, j + 1);
      assert Heads(names, R, j) == later || Heads(names, R, j) == later + [j];
      assert forall k | 0 <= k < |later| :: later[k] in later;
    }
  }

  ghost function Members(names: seq<string>): set<string> {
    set n | n in names
  }

  // The relations agree on the names.
  ghost predicate AgreeOn(names: seq<string>, R: Relation, Q: Relation) {
    forall i, j | 0 <= i < j < |names| :: (names[i], names[j]) in R <==> (names[i], names[j]) in Q
  }

  ghost predicate AreDistinct(names: seq<string>) {
    forall k, l | 0 <= k < l < |names| :: names[k] != names[l]
  }

  lemma ShareMember(Q: Relation, x: string, a: string, b: string)
    requires IsEquivalence(Q)
    ensures (x, a) in Q && (x, b) in Q ==> (a, b) in Q
  {
    assert (x, a) in Q ==> (a, x) in Q;
  }

  // No later name is equivalent to a head.
  lemma LaterUnlike(names: seq<string>, R: Relation, Q: Relation, h: nat, i: nat)
    requires IsEquivalence(Q) && AgreeOn(names, R, Q)
    requires h in Heads(names, R, 0) && h < i < |names|
    ensures (names[i], names[h]) !in Q
  {
    HeadsApart(names, R, 0);
    HeadsCover(names, R, 0, i);
    var heads := Heads(names, R, 0);
    var l := if i in heads then i else var l :| l in heads && i < l && (names[i], names[l]) in R; l;
    assert (names[i], names[l]) in Q;
    ShareMember(Q, names[i], names[h], names[l]);
  }

  // The class of a head of an equivalence is a full class.
  lemma ClassIsFull(names: seq<string>, R: Relation, Q: Relation, h: nat)
    requires IsEquivalence(Q) && AgreeOn(names, R, Q) && AreDistinct(names)
    requires h in Heads(names, R, 0)
    ensures forall n | n in names :: n in ClassFrom(names, R, h) <==> (n, names[h]) in Q
  {
    forall i | 0 <= i < |names| ensures names[i] in ClassFrom(names, R, h) <==> (names[i], names[h]) in Q {
      if i <= h {
        assert names[..h + 1][i] == names[i];
      } else {
        assert names[i] !in names[..h + 1];
        LaterUnlike(names, R, Q, h, i);
      }
    }
  }

  lemma ClassesArePartition(names: seq<string>, R: Relation, Q: Relation, classes: seq<seq<string>>)
    requires IsEquivalence(Q) && AgreeOn(names, R, Q) && AreDistinct(names)
    requires AreClassesFrom(names, R, 0, classes)
    ensures IsPartition(Members(names), classes, Q)
  {
    var heads := Heads(names, R, 0);
    forall k | 0 <= k < |classes|
      ensures forall n | n in names :: n in classes[k] <==> (n, names[heads[k]]) in Q
      ensures IsClass(Members(names), classes[k], Q)
    {
      assert IsClassOf(names, R, heads[k], classes[k]);
      ClassMembers(names, R, heads[k], classes[k]);
      assert forall n :: n in classes[k] <==> n in Members(classes[k]);
      ClassIsFull(names, R, Q, heads[k]);
      ClassFromOneMember(Members(names), Q, names[heads[k]], classes[k]);
    }
    forall i | 0 <= i < |names| ensures exists k :: 0 <= k < |classes| && names[i] in classes[k] {
      HeadsCover(names, R, 0, i);
      var h := if i in heads then i else var l :| l in heads && i < l && (names[i], names[l]) in R; l;
      var k :| 0 <= k < |heads| && heads[k] == h;
      assert IsClassOf(names, R, h, classes[k]) && (i < h ==> names[..h][i] == names[i]);
    }
    HeadsApart(names, R, 0);
    assert forall k | 0 <= k < |heads| :: heads[k] in heads;
    forall k, l, x | 0 <= k < l < |classes| && x in classes[k] ensures x !in classes[l] {
      ShareMember(Q, x, names[heads[l]], names[heads[k]]);
    }
  }

  lemma ClassFromOneMember(names: set<string>, Q: Relation, m: string, c: seq<string>)
    requires IsEquivalence(Q) && m in c && forall i, j | 0 <= i < j < |c| :: c[i] != c[j]
    requires forall x | x in c :: x in names
    requires forall n | n in names :: n in c <==> (n, m) in Q
    ensures IsClass(names, c, Q)
  {
    forall x, n | x in c && n in names ensures n in c <==> (n, x) in Q {
      assert (x, m) in Q && (m, x) in Q;
      assert (n, m) in Q ==> (n, x) in Q;
      assert (n, x) in Q ==> (n, m) in Q;
    }
  }

  // Conversely, related names are equivalent if the classes are those of the equivalence; provided
  // that what is equivalent to a name is related to the same names.
  lemma PartitionRelates(names: seq<string>, R: Relation, Q: Relation, classes: seq<seq<string>>, i: nat, j: nat)
    requires IsEquivalence(Q) && AreClassesFrom(names, R, 0, classes) && AreDistinct(names)
    requires IsPartition(Members(names), classes, Q)
    requires forall a, b, c | (a, b) in R && (b, c) in Q :: (a, c) in R
    requires i < j < |names| && (names[i], names[j]) in R
    ensures (names[i], names[j]) in Q
  {
    var heads := Heads(names, R, 0);
    HeadsCover(names, R, 0, j);
    var h := if j in heads then j else var l :| l in heads && j < l && (names[j], names[l]) in R; l;
    var k :| 0 <= k < |heads| && heads[k] == h;
    assert IsClassOf(names, R, h, classes[k]) && IsClass(Members(names), classes[k], Q);
    assert names[..h][i] == names[i] && (j < h ==> names[..h][j] == names[j]);
    assert names[j] in classes[k] && (names[j], names[h]) in Q;
    assert names[i] in classes[k];
  }

  // The loops over all pairs; the inner one pairs b with the names before it.
  method VisitRow(t: PairTable, repos: Repos, depth: nat, earlier: seq<string>, b: string,
                  ghost sys: View, ghost pairs: set<Pair>, ghost D: iset<Pair>, ghost before: set<Pair>)
    returns (ghost visited: set<Pair>)
    requires Setting(repos, depth, sys, pairs, D) && b in repos
    requires forall i | 0 <= i < |earlier| :: earlier[i] in repos && earlier[i] != b
    requires Sound(t.marks, D) && AllSettled(sys, pairs, t.marks, before)
    modifies t
    ensures Sound(t.marks, D) && AllSettled(sys, pairs, t.marks, visited)
    ensures before <= visited && forall i | 0 <= i < |earlier| :: Pair(earlier[i], b) in visited
  {
    hide Setting, AllSettled, Sound;
    visited := before;
    for i := 0 to |earlier|
      invariant Sound(t.marks, D) && AllSettled(sys, pairs, t.marks, visited)
      invariant before <= visited
      invariant forall k | 0 <= k < i :: Pair(earlier[k], b) in visited
    {
      VisitPair(t, repos, depth, earlier[i], b, sys, pairs, D, visited);
      visited := visited + {Pair(earlier[i], b)};
    }
  }

  // Each name before names[j] has been paired with it.
  ghost predicate RowIn(names: seq<string>, j: nat, visited: set<Pair>) {
    j < |names| && forall i | 0 <= i < j :: Pair(names[..j][i], names[j]) in visited
  }

  lemma RowsKept(names: seq<string>, j: nat, before: set<Pair>, visited: set<Pair>)
    requires before <= visited && forall l: nat | l < j :: RowIn(names, l, before)
    requires RowIn(names, j, visited)
    ensures forall l: nat | l < j + 1 :: RowIn(names, l, visited)
  {
    forall l: nat | l < j + 1 ensures RowIn(names, l, visited) {
      assert l < j ==> RowIn(names, l, before);
    }
  }

  method VisitAll(repos: Repos, depth: nat, names: seq<string>, ghost sys: View, ghost pairs: set<Pair>,
                  ghost D: iset<Pair>)
    returns (t: PairTable, ghost visited: set<Pair>)
    requires Setting(repos, depth, sys, pairs, D)
    requires forall k, l | 0 <= k < l < |names| :: names[k] != names[l]
    requires forall k | 0 <= k < |names| :: names[k] in repos
    ensures fresh(t) && Sound(t.marks, D)
    ensures AllSettled(sys, pairs, t.marks, visited)
    ensures forall j: nat | j < |names| :: RowIn(names, j, visited)
  {
    hide Setting;
    t := new PairTable();
    visited := {};
    for j := 0 to |names|
      invariant Sound(t.marks, D) && AllSettled(sys, pairs, t.marks, visited)
      invariant forall l: nat | l < j :: RowIn(names, l, visited)
    {
      ghost var before := visited;
      visited := VisitRow(t, repos, depth, names[..j], names[j], sys, pairs, D, before);
      RowsKept(names, j, before, visited);
    }
  }

  lemma SortedDistinct(names: seq<string>)
    requires StrictlySorted(names)
    ensures forall i, j | 0 <= i < j < |names| :: names[i] != names[j]
  {
    forall i, j | 0 <= i < j < |names| ensures names[i] != names[j] {
      LessTotal(names[i], names[j]);
    }
  }

  // The names that bisimilar_repos does not tell apart.
  ghost function Confused(sys: View): Relation {
    iset a, b | Inseparable(sys, a, b) :: (a, b)
  }

  // After all pairs have been visited, the marks tell which names are not told apart.
  method MarkNames(repos: Repos, depth: nat, names: seq<string>, ghost sys: View) returns (t: PairTable)
    requires Setting(repos, depth, sys, AllPairs(Names(sys)), SeparatedPairs(sys))
    requires StrictlySorted(names) && forall n :: n in names <==> n in repos
    ensures forall i, j | 0 <= i < j < |names| ::
              (names[i], names[j]) in Confused(sys) <==> Pair(names[i], names[j]) !in t.marks.marked
  {
    SortedDistinct(names);
    ghost var visited;
    assert forall k | 0 <= k < |names| :: names[k] in names;
    t, visited := VisitAll(repos, depth, names, sys, AllPairs(Names(sys)), SeparatedPairs(sys));
    MarksDecideNames(names, sys, t.marks, visited);
  }

  lemma MarksDecideNames(names: seq<string>, sys: View, t: Marks, visited: set<Pair>)
    requires StrictlySorted(names) && forall n :: n in names <==> n in sys
    requires Sound(t, SeparatedPairs(sys)) && AllSettled(sys, AllPairs(Names(sys)), t, visited)
    requires forall j: nat | j < |names| :: RowIn(names, j, visited)
    ensures forall i, j | 0 <= i < j < |names| ::
              (names[i], names[j]) in Confused(sys) <==> Pair(names[i], names[j]) !in t.marked
  {
    var pairs := AllPairs(Names(sys));
    forall p | p in pairs && p.lo in sys && p.hi in sys ensures p in visited {
      var i :| 0 <= i < |names| && names[i] == p.lo;
      var j :| 0 <= j < |names| && names[j] == p.hi;
      LessTotal(p.lo, p.hi);
      assert !Less(names[j], names[i]);
      assert RowIn(names, j, visited) && names[..j][i] == names[i];
    }
    MarksAreSeparatedPairs(sys, pairs, t, visited);
    forall i, j | 0 <= i < j < |names|
      ensures (names[i], names[j]) in Confused(sys) <==> Pair(names[i], names[j]) !in t.marked
    {
      assert names[i] in names && names[j] in names;
      assert Pair(names[i], names[j]) in pairs;
    }
  }

  lemma ConfusedThenAlike(sys: View, a: string, b: string, c: string)
    requires (a, b) in Confused(sys) && (b, c) in Alike(sys)
    ensures (a, c) in Confused(sys)
  {
    forall k: nat ensures Close(k, sys, a, c) {
      assert Close(k, sys, a, b) && Same(k, sys, b, c);
      CloseSame(k, sys, a, b, c);
    }
  }

  // The classes are those of the coarsest bisimulation if and only if no two repositories that are
  // not told apart refer to different names in the same place, one of which is missing.
  lemma ClassesAreThoseOfAlike(repos: Repos, sys: View, classes: seq<seq<string>>)
    requires sys.Keys == repos.Keys && AreClassesFrom(Sorted(repos.Keys), Confused(sys), 0, classes)
    ensures IsPartition(repos.Keys, classes, Alike(sys)) <==> !Blurred(sys)
  {
    var names := Sorted(repos.Keys);
    SortedDistinct(names);
    AlikeIsEquivalence(sys);
    SharpIffAlike(sys);
    assert Members(names) == repos.Keys;
    assert forall i | 0 <= i < |names| :: names[i] in names;
    if Blurred(sys) {
      var i, j := UnlikeButConfused(sys, names);
      forall a, b, c | (a, b) in Confused(sys) && (b, c) in Alike(sys) ensures (a, c) in Confused(sys) {
        ConfusedThenAlike(sys, a, b, c);
      }
      if IsPartition(repos.Keys, classes, Alike(sys)) {
        PartitionRelates(names, Confused(sys), Alike(sys), classes, i, j);
      }
    } else {
      SharpAgrees(sys, names);
      ClassesArePartition(names, Confused(sys), Alike(sys), classes);
    }
  }

  lemma SharpAgrees(sys: View, names: seq<string>)
    requires !Blurred(sys) && forall n | n in names :: n in sys
    ensures AgreeOn(names, Confused(sys), Alike(sys))
  {
    SharpIffAlike(sys);
    forall i, j | 0 <= i < j < |names| ensures (names[i], names[j]) in Confused(sys)
        <==> (names[i], names[j]) in Alike(sys)
    {
      assert names[i] in names && names[j] in names;
      if Indistinguishable(sys, names[i], names[j]) {
        AlikeInseparable(sys, names[i], names[j]);
      }
    }
  }

  lemma UnlikeButConfused(sys: View, names: seq<string>) returns (i: nat, j: nat)
    requires Blurred(sys) && forall n :: n in names <==> n in sys
    ensures i < j < |names| && (names[i], names[j]) in Confused(sys) && (names[i], names[j]) !in Alike(sys)
  {
    SharpIffAlike(sys);
    var a, b :| a in sys && b in sys && Inseparable(sys, a, b) && !Indistinguishable(sys, a, b);
    i :| i < |names| && names[i] == a;
    j :| j < |names| && names[j] == b;
    assert Indistinguishable(sys, a, a);
    if j < i {
      i, j := j, i;
      forall k: nat ensures Close(k, sys, b, a) {
        CloseSymmetric(k, sys, a, b);
      }
      if Indistinguishable(sys, b, a) {
        IndistinguishableEquivalence(sys, b, a);
      }
    }
  }

  // bisimilar_repos: each class has a repository and all earlier ones not told apart from it. These
  // are the classes of the coarsest bisimulation precisely if no missing name blurs a difference.
  method BisimilarRepos(repos: Repos, depth: nat) returns (classes: seq<seq<string>>)
    requires AllRooted(repos, depth)
    ensures AreClassesFrom(Sorted(repos.Keys), Unseparated(repos, depth), 0, classes)
    ensures IsPartition(repos.Keys, classes, Exchangeable(repos, depth)) <==> !Blurred(ComparedView(repos, depth))
  {
    ghost var sys := ComparedView(repos, depth);
    SettingHolds(repos, depth, sys);
    var names := Sorted(repos.Keys);
    var t := MarkNames(repos, depth, names, sys);
    SortedDistinct(names);
    classes := ClassesOf(names, t.marks.marked, Confused(sys));
    ClassesAreThoseOfAlike(repos, sys, classes);
    ConfusedIsUnseparated(repos, depth);
    ExchangeableIsAlike(repos, depth);
  }

  lemma ConfusedIsUnseparated(repos: Repos, depth: nat)
    requires AllRooted(repos, depth)
    ensures Confused(ComparedView(repos, depth)) == Unseparated(repos, depth)
  {
    hide NotToldApart, Inseparable, AllRooted;
    forall a, b ensures NotToldApart(repos, depth, a, b) <==> Inseparable(ComparedView(repos, depth), a, b) {
      NotToldApartIsInseparable(repos, depth, a, b);
    }
  }

  lemma ExchangeableIsEquivalence(repos: Repos, depth: nat)
    ensures IsEquivalence(Exchangeable(repos, depth))
  {
    ExchangeableIsAlike(repos, depth);
    AlikeIsEquivalence(ComparedView(repos, depth));
  }

  // Where nothing is blurred, names are told apart exactly if they are not exchangeable.
  lemma SharpNames(repos: Repos, depth: nat, names: seq<string>)
    requires AllRooted(repos, depth) && !Blurred(ComparedView(repos, depth)) && forall n | n in names :: n in repos
    ensures AgreeOn(names, Unseparated(repos, depth), Exchangeable(repos, depth))
  {
    hide Blurred, AgreeOn;
    StatesShown(repos, depth, ComparedView(repos, depth));
    SharpAgrees(ComparedView(repos, depth), names);
    ConfusedIsUnseparated(repos, depth);
    ExchangeableIsAlike(repos, depth);
  }

  // Nothing is blurred where every repository named by a binding or as the base of a root exists.
  lemma LinkedIsSharp(repos: Repos, depth: nat)
    requires WellFormed(repos, depth)
    ensures !Blurred(ComparedView(repos, depth))
  {
    var sys := ComparedView(repos, depth);
    forall n, e | n in sys && e in sys[n].next ensures sys[n].next[e] in sys {
      ViewClosed(repos, depth, Compared, n, e);
    }
  }
}
