// The class RepositoryConfig of src/buildtool/common/repository_config.hpp: each method is tied to
// the operation on values that KeyCache proves coherent.
module RepositoryConfig {
  import opened Wrappers
  import opened ByteOrder
  import opened Bisimulation
  import opened DfaMinimizer
  import opened RepositoryGraph
  import opened Descriptions
  import opened KeyCache
  import opened RepositoryIdentity
  import opened Prefixes

  // The graph, id counter and id map that AddToGraphAndGetId updates through pointers.
  class GraphBuilder {
    var graph: Graph
    var counter: nat
    var ids: map<string, nat>
    ghost var order: seq<string>  // the repositories by number

    ghost predicate Valid()
      reads this
    {
      && counter == |order|
      && (forall n :: n in ids <==> n in order)
      && (forall n | n in order :: ids[n] == IndexOf(order, n))
    }

    ghost function Contents(): Walk
      reads this
    {
      Walk(graph, order)
    }

    constructor ()
      ensures Valid() && Contents() == Walk(map[], [])
    {
      graph, counter, ids, order := map[], 0, map[], [];
    }

    method Number(name: string) returns (id: nat)
      requires Valid() && name !in order
      modifies this
      ensures Valid() && Contents() == Walk(old(graph), old(order) + [name])
      ensures id == |old(order)|
    {
      id := counter;
      counter := counter + 1;
      ids := ids[name := id];
      forall n | n in order + [name] ensures ids[n] == IndexOf(order + [name], n) {
        IndexOfAppended(order, name, n);
      }
      order := order + [name];
    }
  }

  lemma {:induction false} IndexOfAppended(order: seq<string>, name: string, n: string)
    requires name !in order && n in order + [name]
    ensures IndexOf(order + [name], n) == if n == name then |order| else IndexOf(order, n)
  {
    if order != [] {
      assert (order + [name])[1..] == order[1..] + [name];
      if order[0] != n {
        IndexOfAppended(order[1..], name, n);
      }
    }
  }

  class RepositoryConfig {
    var repos: Configuration
    var duplicates: Option<Representatives>

    ghost function Contents(): Caches
      reads this
    {
      Caches(repos, duplicates)
    }

    constructor ()
      ensures Contents() == Caches(map[], None) && Coherent(Contents())
    {
      repos, duplicates := map[], None;
    }

    method SetInfo(repo: string, info: Info)
      modifies this
      ensures repos == old(repos)[repo := Data(info, info.BaseContentDescription(), None)]
      ensures duplicates == None
    {
      repos := repos[repo := Data(info, info.BaseContentDescription(), None)];
      duplicates := None;
    }

    method SetPrecomputedRoot(key: string, value: string)
      modifies this
      ensures Contents() == KeyCache.SetPrecomputedRoot(old(Contents()), key, value)
      ensures IsSet(old(repos), key, value, repos)
      ensures old(Coherent(Contents())) ==> Coherent(Contents())
    {
      hide IsSet, Coherent;
      ghost var before := Contents();
      SetRootSets(repos, key, value);
      var rest := repos.Keys;
      while rest != {}
        invariant rest <= repos.Keys == before.repos.Keys
        invariant forall n | n in repos ::
              repos[n] == if n in rest then before.repos[n] else SetRoot(before.repos, key, value)[n]
        invariant duplicates == if exists n | n in repos && n !in rest ::
              before.repos[n].info.Names(key) then None else before.duplicates
      {
        var name :| name in rest;
        rest := rest - {name};
        var info := repos[name].info;
        var replaced := info.Replace(key, value);
        if info.Names(key) {
          SetInfo(name, replaced);
        }
      }
      assert repos == SetRoot(before.repos, key, value);
      if Coherent(before) {
        SetPrecomputedRootCoherent(before, key, value);
      }
    }

    // Each content-fixed repository becomes a state of the minimizer.
    method ComputeDuplicates() returns (bis: Representatives)
      ensures IsQuotient(View(repos), bis)
      ensures Described(repos) ==> Deduplicates(repos, bis)
    {
      hide Filed, IsQuotient, Described, Deduplicates;
      var minimizer := new DFAMinimizer();
      var rest := repos.Keys;
      while rest != {}
        invariant rest <= repos.Keys
        invariant fresh(minimizer) && minimizer.Valid()
        invariant forall n :: n in minimizer.automaton <==> n in repos && n !in rest && repos[n].baseDesc.Some?
        invariant forall n | n in minimizer.automaton ::
                    minimizer.automaton[n] == State(repos[n].baseDesc.value, repos[n].info.nameMapping)
      {
        var name :| name in rest;
        rest := rest - {name};
        if repos[name].baseDesc.Some? {
          minimizer.AddState(name, repos[name].info.nameMapping, repos[name].baseDesc.value);
        }
      }
      assert minimizer.automaton == View(repos);
      bis := minimizer.ComputeBisimulation();
      if Described(repos) {
        QuotientDeduplicates(repos, bis);
      }
    }

    // The canonical name of a repository; the map of duplicates is computed once.
    method DeduplicateRepo(repo: string) returns (unique: string)
      requires duplicates.Some? ==> IsQuotient(View(repos), duplicates.value)
      modifies this`duplicates
      ensures duplicates.Some? && IsQuotient(View(repos), duplicates.value)
      ensures old(duplicates).Some? ==> duplicates == old(duplicates)
      ensures unique == Representative(duplicates.value, repo)
      ensures Described(repos) ==> Interchangeable(repos, repo, unique)
    {
      hide Described, Interchangeable, IsQuotient;
      if duplicates.None? {
        var bis := ComputeDuplicates();
        duplicates := Some(bis);
      }
      unique := Representative(duplicates.value, repo);
      if Described(repos) {
        QuotientDeduplicates(repos, duplicates.value);
      }
    }

    // The repositories as the minimizer and the graph see them: the content-fixed ones.
    ghost predicate Shows(sys: Repositories)
      reads this
    {
      forall n :: (n in sys <==> n in repos && repos[n].baseDesc.Some?)
                  && (n in sys ==> sys[n] == State(repos[n].baseDesc.value, repos[n].info.nameMapping))
    }

    method AddToGraphAndGetId(builder: GraphBuilder, repo: string, ghost sys: Repositories, ghost bis: Representatives)
      returns (id: Option<nat>)
      requires Shows(sys) && IsQuotient(sys, bis) && duplicates == Some(bis)
      requires builder.Valid()
      modifies builder
      ensures builder.Valid()
      ensures id.None? ==> AddToGraph(sys, bis, old(builder.Contents()), repo) == None
      ensures id.Some? ==> AddToGraph(sys, bis, old(builder.Contents()), repo) == Some((builder.Contents(), id.value))
      decreases Unvisited(sys, builder.Contents()), 0
    {
      // The duplicates are known by now, so DeduplicateRepo is a lookup.
      var unique := Representative(duplicates.value, repo);
      if unique in builder.ids {
        return Some(builder.ids[unique]);
      }
      if unique !in repos || repos[unique].baseDesc.None? {
        return None;
      }
      var data := repos[unique];
      assert unique in Unvisited(sys, builder.Contents());
      var repoId := builder.Number(unique);
      assert unique !in Unvisited(sys, builder.Contents());
      var bindings := AddAllBindings(builder, data.info.nameMapping, sys, bis);
      if bindings.None? {
        return None;
      }
      builder.graph := builder.graph[repoId := Description(data.baseDesc.value, bindings.value)];
      return Some(repoId);
    }

    // The loop over the bindings, in the order of their local names.
    method AddAllBindings(builder: GraphBuilder, next: map<string, string>, ghost sys: Repositories,
                          ghost bis: Representatives)
      returns (bindings: Option<map<string, nat>>)
      requires Shows(sys) && IsQuotient(sys, bis) && duplicates == Some(bis)
      requires builder.Valid()
      modifies builder
      ensures builder.Valid()
      ensures bindings.None? ==> AddBindings(sys, bis, old(builder.Contents()), next, Sorted(next.Keys)) == None
      ensures bindings.Some? ==> AddBindings(sys, bis, old(builder.Contents()), next, Sorted(next.Keys))
                                 == Some((builder.Contents(), bindings.value))
      decreases Unvisited(sys, builder.Contents()), 1
    {
      var labels := Sorted(next.Keys);
      ghost var start := builder.Contents();
      var result: map<string, nat> := map[];
      for i := 0 to |labels|
        invariant builder.Valid()
        invariant AddBindings(sys, bis, start, next, labels[..i]) == Some((builder.Contents(), result))
      {
        BindingsStep(sys, bis, start, next, labels, i);
        var id := AddToGraphAndGetId(builder, next[labels[i]], sys, bis);
        if id.None? {
          FailureStays(sys, bis, start, next, labels, i + 1);
          PrefixAll(labels);
          return None;
        }
        result := result[labels[i] := id.value];
      }
      PrefixAll(labels);
      return Some(result);
    }

    method BuildGraphForRepository(repo: string) returns (graph: Option<Graph>)
      requires duplicates.Some? && IsQuotient(View(repos), duplicates.value)
      ensures graph == BuildGraph(View(repos), duplicates.value, repo)
    {
      var builder := new GraphBuilder();
      var id := AddToGraphAndGetId(builder, repo, View(repos), duplicates.value);
      graph := if id.Some? then Some(builder.graph) else None;
    }

    // A key asked for under the guard is what a recomputation from scratch would give, and it says
    // exactly which repository this is.
    method RepositoryKey(repo: string) returns (key: Option<Graph>)
      requires Coherent(Contents()) && Resolved(repos, repo)
      modifies this
      ensures Coherent(Contents())
      ensures duplicates.Some? && InUse(old(Contents()), duplicates.value)
      ensures (Contents(), key) == AskKey(old(Contents()), duplicates.value, repo)
      ensures IsFresh(old(repos), repo, key)
      ensures Identifies(old(repos), repo, key)
    {
      hide Identifies, Interchangeable;
      ghost var before := Contents();
      var unique := DeduplicateRepo(repo);
      AskKeyCoherent(before, duplicates.value, repo);
      FreshIdentifies(before.repos, repo, AskKey(before, duplicates.value, repo).1);
      if unique !in repos {
        return None;
      }
      if repos[unique].key.None? {
        key := BuildGraphForRepository(unique);
        repos := repos[unique := repos[unique].(key := Some(key))];
      } else {
        key := repos[unique].key.value;
      }
    }
  }

  // Following one more binding.
  lemma BindingsStep(sys: Repositories, bis: Representatives, start: Walk, next: map<string, string>,
                     labels: seq<string>, i: nat)
    requires i < |labels| && forall l | l in labels :: l in next
    requires AddBindings(sys, bis, start, next, labels[..i]).Some?
    ensures
      var (w, bindings) := AddBindings(sys, bis, start, next, labels[..i]).value;
      var q := AddToGraph(sys, bis, w, next[labels[i]]);
      && Unvisited(sys, w) <= Unvisited(sys, start)
      && AddBindings(sys, bis, start, next, labels[..i + 1])
         == if q.None? then None else Some((q.value.0, bindings[labels[i] := q.value.1]))
  {
    assert labels[..i + 1][..i] == labels[..i];
  }

  // A failure at some binding makes the whole list fail.
  lemma {:induction false} FailureStays(sys: Repositories, bis: Representatives, w: Walk, next: map<string, string>,
                                        labels: seq<string>, i: nat)
    requires forall l | l in labels :: l in next
    requires i <= |labels| && AddBindings(sys, bis, w, next, labels[..i]).None?
    ensures AddBindings(sys, bis, w, next, labels).None?
    decreases |labels|
  {
    PrefixAll(labels);
    if i < |labels| {
      var last := |labels| - 1;
      assert labels[..last][..i] == labels[..i];
      FailureStays(sys, bis, w, next, labels[..last], i);
    }
  }
}
