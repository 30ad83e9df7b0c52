// Configurations that deduplicate does not preserve: one whose output lost an expression root, and
// one where a missing repository makes different ones look alike.
module JstExamples {
  import opened Wrappers
  import opened ByteOrder
  import opened Bisimulation
  import opened PairMarking
  import opened OpenSystems
  import opened JstRepos
  import opened JstAgreement
  import opened JstBisimilar
  import opened JstRepresentatives
  import opened JstRewriting
  import opened JstDeduplicate

  function FileRoot(path: string): Root {
    Root(File(path), "", None)
  }

  function Plain(path: string, expressionRoot: Option<string>, bindings: map<string, string>): Repo {
    Repo(Given(FileRoot(path)), None, None, expressionRoot, None, None, None, bindings)
  }

  // A repository with a root of its own has it for all purposes, but for the expression root given.
  lemma {:induction false} PlainRoots(repos: Repos, n: string, path: string, i: nat)
    requires n in repos && repos[n].repository == Given(FileRoot(path)) && i < 4
    requires repos[n].targetRoot.None? && repos[n].ruleRoot.None?
    requires repos[n].expressionRoot.Some? ==> GetRoot(repos, repos[n].expressionRoot.value, 1).Some?
    ensures RootAt(repos, n, i, 1).Some?
    ensures i < 3 || repos[n].expressionRoot.None? ==> RootAt(repos, n, i, 1) == Some(FileRoot(path))
  {
    if 0 < i && repos[n].RootName(n, i).None? {
      PlainRoots(repos, n, path, i - 1);
    }
  }

  // The state of a repository that only has a root and bindings.
  ghost predicate ShowsPlain(s: State<Content, Edge, string>, path: string, bindings: map<string, string>) {
    var root := FileRoot(path);
    && s.content == Content([root, root, root, root], "TARGETS", "RULES", "EXPRESSIONS")
    && (forall e :: e in s.next <==> e.Binding? && e.name in bindings)
    && (forall l | l in bindings :: s.next[Binding(l)] == bindings[l])
  }

  lemma PlainState(repos: Repos, summary: Root -> Root, n: string, path: string, bindings: map<string, string>)
    requires n in repos && repos[n] == Plain(path, None, bindings) && summary(FileRoot(path)) == FileRoot(path)
    ensures Rooted(repos, n, 1) && n in ViewBy(repos, 1, summary)
    ensures ShowsPlain(ViewBy(repos, 1, summary)[n], path, bindings)
  {
    hide ViewBy, ShowsPlain;
    forall i: nat | i < 4 ensures RootAt(repos, n, i, 1) == Some(FileRoot(path)) {
      PlainRoots(repos, n, path, i);
    }
    ViewState(repos, 1, summary, n);
    StateIsPlain(ViewBy(repos, 1, summary)[n], repos, summary, n, path, bindings);
  }

  lemma StateIsPlain(s: State<Content, Edge, string>, repos: Repos, summary: Root -> Root, n: string, path: string,
                     bindings: map<string, string>)
    requires n in repos && repos[n] == Plain(path, None, bindings) && summary(FileRoot(path)) == FileRoot(path)
    requires Rooted(repos, n, 1) && IsStateOf(s, repos, 1, summary, n)
    requires forall i: nat | i < 4 :: RootAt(repos, n, i, 1) == Some(FileRoot(path))
    ensures ShowsPlain(s, path, bindings)
  {
    var root := FileRoot(path);
    assert s.content.roots == [root, root, root, root];
    forall e ensures e in s.next <==> e.Binding? && e.name in bindings {
      match e
      case Binding(l) =>
      case RootRepo(i) =>
    }
  }

  // ---- An expression root that gets lost ----

  // "b" is a copy of "a" and the expression root of "c".
  ghost predicate IsLostExample(repos: Repos) {
    && repos.Keys == {"a", "b", "c"}
    && repos["a"] == Plain("p", None, map[]) == repos["b"]
    && repos["c"] == Plain("q", Some("b"), map[])
  }

  lemma LostExampleWellFormed(repos: Repos)
    requires IsLostExample(repos)
    ensures WellFormed(repos, 1) && AllRooted(repos, 1) && Linked(repos)
  {
    forall n, i: nat | n in repos && i < 4 ensures RootAt(repos, n, i, 1).Some? {
      PlainRoots(repos, n, if n == "c" then "q" else "p", i);
    }
  }

  lemma LostExampleAlike(repos: Repos)
    requires IsLostExample(repos)
    ensures ("b", "a") in Alike(ComparedView(repos, 1))
    ensures ("a", "c") !in Alike(ComparedView(repos, 1)) && ("b", "c") !in Alike(ComparedView(repos, 1))
  {
    var sys := ComparedView(repos, 1);
    LostExampleWellFormed(repos);
    PlainState(repos, Compared, "a", "p", map[]);
    PlainState(repos, Compared, "b", "p", map[]);
    PlainRoots(repos, "c", "q", 0);
    ViewState(repos, 1, Compared, "c");
    TwoAlike(sys, "a", "b", "c");
  }

  lemma TwoAlike(sys: View, a: string, b: string, c: string)
    requires a in sys && b in sys && c in sys && sys[a].content == sys[b].content
    requires sys[a].next.Keys == {} == sys[b].next.Keys
    requires sys[c].content != sys[a].content && a != c && b != c
    ensures (b, a) in Alike(sys) && (a, c) !in Alike(sys) && (b, c) !in Alike(sys)
  {
    assert !Same(1, sys, a, c) && !Same(1, sys, b, c);
    assert forall k: nat :: Same(k, sys, b, a);
  }

  lemma LostExampleClasses(repos: Repos)
    requires IsLostExample(repos)
    ensures AlikeNames(repos, 1, "a") == {"a", "b"} == AlikeNames(repos, 1, "b")
    ensures AlikeNames(repos, 1, "c") == {"c"}
  {
    hide ComparedView;
    LostExampleAlike(repos);
    ExchangeableIsAlike(repos, 1);
    AlikeIsEquivalence(ComparedView(repos, 1));
    ThreeNames(repos, Alike(ComparedView(repos, 1)));
  }

  lemma ThreeNames(repos: Repos, R: Relation)
    requires repos.Keys == {"a", "b", "c"} && IsEquivalence(R)
    requires ("b", "a") in R && ("a", "c") !in R && ("b", "c") !in R
    ensures (set x | x in repos && (x, "a") in R) == {"a", "b"} == (set x | x in repos && (x, "b") in R)
    ensures (set x | x in repos && (x, "c") in R) == {"c"}
  {
    assert ("a", "b") in R && ("c", "a") !in R && ("c", "b") !in R;
  }

  lemma RepresentativeOfTwo(repos: Repos, m: string)
    requires HasRoot(repos, "a") && HasRoot(repos, "b")
    ensures IsRepresentative(repos, {}, {"a", "b"}, m) <==> m == "a"
  {
    assert Slashes("a") == 0 == Slashes("b") && Less("a", "b");
    var c := {"a", "b"};
    hide Preferred;
    assert IsCandidate(repos, {}, c, "a") && IsCandidate(repos, {}, c, "b");
    if IsRepresentative(repos, {}, c, m) {
      RepresentativeUnique(repos, {}, c, m, "a");
    }
  }

  // The preferred one of "a" and "b" is "a".
  lemma LostExampleReplaces(repos: Repos)
    requires IsLostExample(repos)
    ensures forall n, m :: IsReplacedBy(repos, {}, 1, n, m) <==> n == "b" && m == "a"
  {
    hide ComparedView, WellFormed, AllRooted, Linked, IsReplacedBy, Blurred, AlikeNames, IsRepresentative;
    LostExampleWellFormed(repos);
    LinkedIsSharp(repos, 1);
    LostExampleClasses(repos);
    forall n, m ensures IsReplacedBy(repos, {}, 1, n, m) <==> n == "b" && m == "a" {
      ReplacedByRepresentative(repos, {}, 1, n, m);
      RepresentativeOfTwo(repos, m);
      RepresentativeIn(repos, {}, AlikeNames(repos, 1, n), m);
    }
  }

  lemma RepresentativeIn(repos: Repos, keep: set<string>, c: set<string>, m: string)
    ensures IsRepresentative(repos, keep, c, m) ==> m in c
  {
  }

  // The name "b" is gone, but "c" still refers to it.
  method LoseExpressionRoot(repos: Repos) returns (out: Repos)
    requires IsLostExample(repos)
    ensures out.Keys == {"a", "c"} && out["c"].expressionRoot == Some("b")
    ensures !AllRooted(out, 1) && !KeepsMeaning(repos, {}, 1, out, "c")
  {
    hide AllRooted, KeepsMeaning, IsReplacedBy, Blurred, IsFaithful, MeaningView, ComparedView, Leads;
    LostExampleWellFormed(repos);
    LostExampleReplaces(repos);
    assert Keep(None, {}) == {};
    out := Deduplicate(repos, None, {}, 1);
    LostExampleLoses(repos, out);
  }

  lemma LostExampleLoses(repos: Repos, out: Repos)
    requires IsLostExample(repos) && forall n :: n in out <==> n in repos && !IsReplaced(repos, {}, 1, n)
    requires forall n, m :: IsReplacedBy(repos, {}, 1, n, m) <==> n == "b" && m == "a"
    ensures out.Keys == {"a", "c"} && LosesExpressionRoot(repos, {}, 1, "c")
    ensures IsNewName(repos, {}, 1, "c", "c") && LeadsToLoss(repos, {}, 1, out, "c")
  {
    hide IsReplacedBy;
    assert IsReplaced(repos, {}, 1, "b") && !IsReplaced(repos, {}, 1, "a") && !IsReplaced(repos, {}, 1, "c") by {
      assert IsReplacedBy(repos, {}, 1, "b", "a");
    }
    assert Leads(0, MeaningView(out, 1), "c", "c");
  }

  // ---- A missing repository that blurs a difference ----

  // "a" and "b" depend on different repositories, and "c" on one that is missing.
  ghost predicate IsBlurredExample(repos: Repos) {
    && repos.Keys == {"a", "b", "c", "x", "z"}
    && repos["a"] == Plain("p", None, map["d" := "x"])
    && repos["b"] == Plain("p", None, map["d" := "z"])
    && repos["c"] == Plain("p", None, map["d" := "missing"])
    && repos["x"] == Plain("q", None, map[])
    && repos["z"] == Plain("r", None, map[])
  }

  // Seen as a system, whatever summarises the roots.
  ghost predicate ShowsBlurredExample(sys: View) {
    var d := Binding("d");
    && sys.Keys == {"a", "b", "c", "x", "z"}
    && sys["a"].content == sys["b"].content == sys["c"].content
    && sys["a"].content != sys["x"].content && sys["a"].content != sys["z"].content
          && sys["x"].content != sys["z"].content
    && sys["a"].next.Keys == sys["b"].next.Keys == sys["c"].next.Keys == {d}
    && sys["a"].next[d] == "x" && sys["b"].next[d] == "z" && sys["c"].next[d] == "missing"
  }

  lemma BlurredExampleRooted(repos: Repos)
    requires IsBlurredExample(repos)
    ensures AllRooted(repos, 1)
  {
    forall n | n in repos ensures Rooted(repos, n, 1) {
      PlainState(repos, Compared, n, if n == "x" then "q" else if n == "z" then "r" else "p", repos[n].bindings);
    }
  }

  lemma BlurredExampleShown(repos: Repos, summary: Root -> Root)
    requires IsBlurredExample(repos) && forall path :: summary(FileRoot(path)) == FileRoot(path)
    ensures ShowsBlurredExample(ViewBy(repos, 1, summary))
  {
    hide ViewBy, ShowsPlain, Rooted;
    PlainState(repos, summary, "a", "p", map["d" := "x"]);
    PlainState(repos, summary, "b", "p", map["d" := "z"]);
    PlainState(repos, summary, "c", "p", map["d" := "missing"]);
    PlainState(repos, summary, "x", "q", map[]);
    PlainState(repos, summary, "z", "r", map[]);
    ViewNames(repos, summary);
    PlainStatesShow(ViewBy(repos, 1, summary));
  }

  lemma ViewNames(repos: Repos, summary: Root -> Root)
    ensures ViewBy(repos, 1, summary).Keys <= repos.Keys
  {
  }

  lemma PlainStatesShow(sys: View)
    requires sys.Keys == {"a", "b", "c", "x", "z"}
    requires ShowsPlain(sys["a"], "p", map["d" := "x"]) && ShowsPlain(sys["b"], "p", map["d" := "z"])
    requires ShowsPlain(sys["c"], "p", map["d" := "missing"])
    requires ShowsPlain(sys["x"], "q", map[]) && ShowsPlain(sys["z"], "r", map[])
    ensures ShowsBlurredExample(sys)
  {
    var p, q, r := FileRoot("p"), FileRoot("q"), FileRoot("r");
    assert p != q && p != r && q != r;
    assert [p, p, p, p][0] == p && [q, q, q, q][0] == q && [r, r, r, r][0] == r;
    OneBinding(sys["a"], "p", "x");
    OneBinding(sys["b"], "p", "z");
    OneBinding(sys["c"], "p", "missing");
  }

  lemma OneBinding(s: State<Content, Edge, string>, path: string, target: string)
    requires ShowsPlain(s, path, map["d" := target])
    ensures s.next.Keys == {Binding("d")} && s.next[Binding("d")] == target
  {
  }

  // "c" is told apart neither from "a" nor from "b", though these are told apart.
  lemma BlurredExampleConfuses(sys: View)
    requires ShowsBlurredExample(sys)
    ensures ("a", "c") in Confused(sys) && ("b", "c") in Confused(sys) && ("a", "b") !in Confused(sys)
    ensures ("c", "x") !in Confused(sys) && ("c", "z") !in Confused(sys) && ("x", "z") !in Confused(sys)
    ensures ("a", "b") !in Alike(sys) && ("b", "a") !in Alike(sys)
  {
    forall k: nat ensures Close(k, sys, "a", "c") && Close(k, sys, "b", "c") {
      assert k > 0 ==> Close(k - 1, sys, "x", "missing") && Close(k - 1, sys, "z", "missing");
    }
    assert !Close(1, sys, "x", "z") && !Close(1, sys, "c", "x") && !Close(1, sys, "c", "z");
    assert !Close(2, sys, "a", "b");
    assert !Same(1, sys, "x", "z");
    assert !Same(1, sys, "z", "x");
    assert !Same(2, sys, "a", "b") && !Same(2, sys, "b", "a");
  }

  lemma NewHead(names: seq<string>, R: Relation, j: nat)
    requires j < |names| && forall h | h in Heads(names, R, j + 1) :: (names[j], names[h]) !in R
    ensures Heads(names, R, j) == Heads(names, R, j + 1) + [j]
  {
  }

  lemma NoHead(names: seq<string>, R: Relation, j: nat, h: nat)
    requires j < |names| && h in Heads(names, R, j + 1) && (names[j], names[h]) in R
    ensures Heads(names, R, j) == Heads(names, R, j + 1)
  {
  }

  lemma BlurredExampleHeads(names: seq<string>, R: Relation)
    requires names == ["a", "b", "c", "x", "z"]
    requires ("a", "c") in R && ("b", "c") in R && ("c", "x") !in R && ("c", "z") !in R && ("x", "z") !in R
    ensures Heads(names, R, 0) == [4, 3, 2]
  {
    hide Heads;
    assert Heads(names, R, 5) == [] by {
      NoHeadsLeft(names, R);
    }
    NewHead(names, R, 4);
    NewHead(names, R, 3);
    NewHead(names, R, 2);
    var heads := Heads(names, R, 2);
    assert heads == [4, 3, 2] && heads[2] == 2;
    NoHead(names, R, 1, 2);
    NoHead(names, R, 0, 2);
  }

  lemma NoHeadsLeft(names: seq<string>, R: Relation)
    ensures Heads(names, R, |names|) == []
  {
  }

  lemma BlurredExampleClass(names: seq<string>, R: Relation)
    requires names == ["a", "b", "c", "x", "z"] && ("a", "c") in R && ("b", "c") in R
    ensures ClassFrom(names, R, 2) == {"a", "b", "c"}
  {
    assert names[..3] == ["a", "b", "c"];
  }

  lemma SingleLess(a: char, b: char)
    requires a < b
    ensures Less([a], [b])
  {
  }

  lemma BlurredExampleSorted(repos: Repos)
    requires repos.Keys == {"a", "b", "c", "x", "z"}
    ensures Sorted(repos.Keys) == ["a", "b", "c", "x", "z"]
  {
    var names := ["a", "b", "c", "x", "z"];
    hide Less, Sorted, StrictlySorted;
    LettersSorted(names);
    SortedUnique(Sorted(repos.Keys), names);
  }

  lemma LettersSorted(names: seq<string>)
    requires names == ["a", "b", "c", "x", "z"]
    ensures StrictlySorted(names)
  {
    var letters := ['a', 'b', 'c', 'x', 'z'];
    hide Less;
    forall i, j | 0 <= i < j < |names| ensures Less(names[i], names[j]) {
      assert names[i] == [letters[i]] && names[j] == [letters[j]];
      SingleLess(letters[i], letters[j]);
    }
  }

  // bisimilar_repos puts all three into one class, though "a" and "b" can be distinguished.
  method ConfuseRepos(repos: Repos) returns (classes: seq<seq<string>>)
    requires IsBlurredExample(repos)
    ensures exists k :: 0 <= k < |classes| && "a" in classes[k] && "b" in classes[k]
    ensures ("a", "b") !in Exchangeable(repos, 1)
    ensures !IsPartition(repos.Keys, classes, Exchangeable(repos, 1))
  {
    hide AllRooted, ComparedView, Blurred, IsPartition, AreClassesFrom, Exchangeable, Unseparated, IsBlurredExample;
    BlurredExampleRooted(repos);
    classes := BisimilarRepos(repos, 1);
    BlurredExampleClasses(repos, classes);
  }

  lemma BlurredExampleClasses(repos: Repos, classes: seq<seq<string>>)
    requires IsBlurredExample(repos) && AreClassesFrom(Sorted(repos.Keys), Unseparated(repos, 1), 0, classes)
    ensures |classes| == 3 && "a" in classes[2] && "b" in classes[2]
    ensures ("a", "b") !in Exchangeable(repos, 1)
    ensures !IsPartition(repos.Keys, classes, Exchangeable(repos, 1))
  {
    BlurredExampleShown(repos, Compared);
    BlurredExampleSorted(repos);
    BlurredExampleRooted(repos);
    ConfusedIsUnseparated(repos, 1);
    ExchangeableIsAlike(repos, 1);
    ConfusedClass(repos, ComparedView(repos, 1), classes);
  }

  lemma ConfusedClass(repos: Repos, sys: View, classes: seq<seq<string>>)
    requires ShowsBlurredExample(sys) && sys.Keys == repos.Keys
    requires AreClassesFrom(["a", "b", "c", "x", "z"], Confused(sys), 0, classes)
    ensures |classes| == 3 && "a" in classes[2] && "b" in classes[2] && ("a", "b") !in Alike(sys)
    ensures !IsPartition(repos.Keys, classes, Alike(sys))
  {
    BlurredExampleConfuses(sys);
    BlurredExampleHeads(["a", "b", "c", "x", "z"], Confused(sys));
    BlurredExampleClass(["a", "b", "c", "x", "z"], Confused(sys));
    ClassMembers(["a", "b", "c", "x", "z"], Confused(sys), 2, classes[2]);
    assert "a" in Members(classes[2]) && "b" in Members(classes[2]);
    assert IsPartition(repos.Keys, classes, Alike(sys)) ==> IsClass(repos.Keys, classes[2], Alike(sys));
  }

  // "a" and "b" do not mean the same either.
  lemma BlurredExampleUnlike(repos: Repos)
    requires IsBlurredExample(repos)
    ensures !Interchangeable(repos, 1, "b", "a", false)
  {
    SynonymsAreInterchangeable(repos, 1);
    BlurredExampleShown(repos, Meaning);
    BlurredExampleConfuses(MeaningView(repos, 1));
  }

  lemma RepresentativeOfThree(repos: Repos)
    requires HasRoot(repos, "a") && HasRoot(repos, "b") && HasRoot(repos, "c")
    ensures IsRepresentative(repos, {}, {"a", "b", "c"}, "a")
  {
    assert Slashes("a") == 0 == Slashes("b") == Slashes("c") && Less("a", "b") && Less("a", "c");
  }

  // Merging the class replaces "b" by "a".
  lemma BlurredExampleReplaces(repos: Repos)
    requires IsBlurredExample(repos)
    ensures IsReplacedBy(repos, {}, 1, "b", "a")
  {
    BlurredExampleShown(repos, Compared);
    BlurredExampleSorted(repos);
    RepresentativeOfThree(repos);
    BlurredExampleConfuses(ComparedView(repos, 1));
    BlurredExampleRooted(repos);
    ConfusedIsUnseparated(repos, 1);
    hide ComparedView, IsRepresentative, IsBlurredExample, Unseparated, AllRooted;
    ReplacedInThree(repos, Sorted(repos.Keys), Unseparated(repos, 1));
  }

  lemma ReplacedInThree(repos: Repos, names: seq<string>, R: Relation)
    requires names == ["a", "b", "c", "x", "z"] && IsRepresentative(repos, {}, {"a", "b", "c"}, "a")
    requires ("a", "c") in R && ("b", "c") in R && ("c", "x") !in R && ("c", "z") !in R && ("x", "z") !in R
    ensures ReplacesLast(repos, {}, names, R, Heads(names, R, 0), "b", "a")
  {
    BlurredExampleHeads(names, R);
    BlurredExampleClass(names, R);
    hide IsRepresentative, ClassFrom;
    assert ReplacesIn(repos, {}, names, R, Heads(names, R, 0)[2], "b", "a");
  }

  // So some repository does not mean what it did, although no expression root is lost.
  method ConfuseMeaning(repos: Repos) returns (out: Repos)
    requires IsBlurredExample(repos)
    ensures "b" in repos && "b" !in out
    ensures forall n | n in repos :: !LosesExpressionRoot(repos, {}, 1, n)
    ensures exists n | n in repos :: !KeepsMeaning(repos, {}, 1, out, n)
  {
    hide AllRooted, IsReplacedBy, Blurred, KeepsMeaning, LeadsToLoss, IsFaithful, LosesExpressionRoot,
        Interchangeable, MeaningView, ComparedView,
        IsDescription, NewNames, NewRootNames, PragmasGuaranteed, LinksGuaranteed, ReplacesByRepresentative, Linked;
    BlurredExampleRooted(repos);
    BlurredExampleReplaces(repos);
    BlurredExampleUnfaithful(repos);
    BlurredExampleKeeps(repos);
    assert Keep(None, {}) == {};
    out := Deduplicate(repos, None, {}, 1);
    assert IsReplaced(repos, {}, 1, "b");
  }

  lemma BlurredExampleUnfaithful(repos: Repos)
    requires IsBlurredExample(repos)
    ensures !IsFaithful(repos, {}, 1)
  {
    hide IsReplacedBy, IsReplaced, Interchangeable, IsBlurredExample;
    BlurredExampleReplaces(repos);
    BlurredExampleUnlike(repos);
  }

  lemma BlurredExampleKeeps(repos: Repos)
    requires IsBlurredExample(repos)
    ensures forall n | n in repos :: !LosesExpressionRoot(repos, {}, 1, n)
  {
    hide IsReplaced;
  }
}
