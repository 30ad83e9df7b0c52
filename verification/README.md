# Verification of justbuild's repository, import, traversal and storage logic

This project models the parts of justbuild whose correctness is not visible in any single function,
and proves what they promise. Run `dafny verify dfyconfig.toml` to check it.

* **Repository keys.** `RepositoryConfig` gives every repository a cache key. It minimises the
  repositories as a DFA (`DfaMinimizer`), walks the bindings depth-first with an id counter, cycles
  included, and serialises the numbered graph (`RepositoryGraph`, `RepositoryConfig`). The key
  identifies the bisimulation class, across configurations and representatives: equal keys mean equal
  contents of all four roots, equal file names, and equal local names bound to repositories of which
  the same holds, and conversely (`RepositoryIdentity`). Keys and duplicates
  are cached while precomputed roots are being resolved (`KeyCache`, `RootDeps`): the caches are
  coherent in every run that asks for keys in the order `FillRoots` arranges, and the exact condition
  for a stale key is given for runs that do not.
* **Bisimulation and deduplication in just-lock.** `bisimilar_repos` marks pairs in place with
  dependencies between them (`PairMarking`, `OpenSystems`, `JstBisimilar`); `deduplicate` chooses
  representatives (`JstRepresentatives`) and rewrites the configuration (`JstRewriting`,
  `JstDeduplicate`). The marks are characterised for all configurations, also those with names that
  lead nowhere. When repositories agree, and when they mean the same, is stated case by case on the
  descriptions (`JstAgreement`). The classes are those of the coarsest bisimulation exactly if no missing name blurs a
  difference; meaning is preserved exactly if names are replaced by synonyms that stay, as they are
  then, and no surviving repository has an expression root that is replaced. Both conditions, and what
  is replaced by what, are stated over the input. `JstExamples` has inputs for which they fail.
* **The parallel bootstrap traverser.** Its operations (`BootstrapOps`) are executed in any order; a
  ledger of links and keys (`BootstrapLedger`, `BootstrapKeys`, `BootstrapTurns`) shows that nothing
  happens twice or too early, that every run ends, and that in the end exactly what does not depend
  on itself is linked, to its value (`BootstrapRuns`): what the command of an action has made of its
  inputs, or the directory of the entries of a tree (`BootstrapGraph`). The task system with its queues, workers and
  work counter (`TaskSystem`) refines those operations; every execution of its threads is bounded in
  length and ends with the traverser through (`ParallelTraverser`), in agreement with the sequential
  traverser (`SequentialTraverser`).
* **Git trees.** Printing and parsing tree objects (`GitTree`, `GitTreeReader`), and building the tree of
  a stage in one pass with a stack of partial trees (`PartialTree`, `ArtifactsRoot`), which gives the tree
  that groups the paths recursively (`StageTree`), because paths below a directory are next to each
  other in byte order (`StagePaths`).
* **Stores and caches.** The cache of valid trees over generations (`ValidTrees`, `NonUpwards`) and
  concurrent insertion into the file storage as interleaved system calls (`FileStorage`), in which the
  first call or the last one wins.
* **Imports.** `repos_to_import` returns exactly what an import needs (`JstImports`, `ReposToImport`).
  The names given to what is imported (`ImportNames`), how descriptions are rewritten
  (`ImportRewriting`), and `handle_import` as a whole: when it succeeds, and what the configuration is
  then (`HandleImport`), in which every repository imported fully is a copy of the foreign one together
  with all that it leads to (`ImportMeaning`).
* **Smaller cores.** Tree structures and their roots (`TreeStructure`), the critical path of an
  invocation (`CriticalPath`), object infos as strings (`ObjectInfo`, `Numbers`).

Strings stand for byte strings, sets and maps for unordered containers. Hash values are identified
with what they are the hash of wherever only their being equal or different matters; where bytes are
hashed, the hash is a function given as a parameter. JSON objects are written by the build tool with
sorted keys, so iterating over one meets its keys in byte order.

## What turned out not to hold

* `SetPrecomputedRoot` resets only the keys of the repositories that name the root. If a key was asked for
  while some repository in the closure still awaited the root, that key goes stale
  (`KeyCache.StaleKeyIsCached`, `KeyCache.StaleKey`); `KeyCache.UnguardedSetRoot` says exactly when.
* `bisimilar_repos` never finds a difference between two names one of which is missing, as only pairs of
  existing repositories are visited. So a repository with a dangling binding can be put into one class
  with two different ones, and `deduplicate` replaces one of these by the other:
  `JstExamples.ConfuseRepos`, `JstExamples.ConfuseMeaning`. `JstBisimilar.BisimilarRepos` and
  `JstDeduplicate.Deduplicate` say exactly when.
* `deduplicate` redirects neither `expression_root` nor the `repositories` of a distribution directory:
  `JstExamples.LoseExpressionRoot` computes an output with a dangling expression root, and
  `JstDeduplicate.Deduplicate` gives the exact conditions.
* `handle_import` fails to rewrite a repository that is imported only as a layer if that layer takes its
  root from a repository not needed otherwise, and a distribution directory listing such a repository:
  `HandleImport.MissLayerRoot`; `HandleImport.ImportRepos` says exactly when.
* `name_imports` checks a name against the repositories named before instead of the names these were
  given, so two imported repositories can get the same name and one replaces the other:
  `ImportNames.NamesCanClash`; `ImportNames.DistinctExactly` says exactly when.
* In last-wins mode, staging an owned file that the entry is already a hard link of leaves the
  temporary file behind, as rename(2) does nothing between two links of one file:
  `FileStorage.TemporaryFileCanBeLeft`, `FileStorage.StagingCleansUp`.

## Model

| member | source | states |
|---|---|---|
| PairMarking.PairTable.MarkPairValue | src/utils/automata/dfa_minimizer.hpp:201-209 | marking a pair marks everything that was registered to follow it, transitively, and nothing else: the marks stay closed under the registered dependencies and are justified by them |
| PairMarking.PairTable.MarkAsDifferent | bin/jst-lock.py:2594-2603 | a pair of names, in either order, is marked with all that depends on it; marking again does nothing |
| PairMarking.PairTable.RegisterDependency | bin/jst-lock.py:2605-2610 | the dependency is added to those of the pair; marks are unchanged |
| PairMarking.MarksAreDistinctPairs | bin/jst-lock.py:2685-2711 | once every pair has been visited, in whatever order and although marks propagate late, the marked pairs are exactly the distinguishable ones |
| PairMarking.AlikeIsEquivalence | bin/jst-lock.py:2713-2726 | not being distinguishable is an equivalence, as the loop that collects the classes needs |
| Bisimulation.BisimilarIffRelated | src/utils/automata/dfa_minimizer.hpp:34-42 | two states are bisimilar exactly if some bisimulation relates them |
| DfaMinimizer.DFAMinimizer.AddState | src/utils/automata/dfa_minimizer.hpp:102-120 | the state is filed in the bucket of its content and symbols; the states added so far are unchanged |
| DfaMinimizer.DFAMinimizer.CreatePairs | src/utils/automata/dfa_minimizer.hpp:211-228 | the pairs are exactly those of two different states that are locally equal |
| DfaMinimizer.DFAMinimizer.MarkPairs | src/utils/automata/dfa_minimizer.hpp:125-150 | the marked pairs are exactly the distinguishable ones among those created |
| DfaMinimizer.DFAMinimizer.ComputeBisimulation | src/utils/automata/dfa_minimizer.hpp:122-173 | the result maps states to bisimilar representatives, the same for all states of a class and different for different classes |
| RepositoryGraph.GraphIsBisimilar | src/buildtool/common/repository_config.cpp:113-155 | the graph built for a repository, read from node 0, unfolds like the repository itself, cyclic bindings included |
| RepositoryGraph.GraphIsCanonical | src/buildtool/common/repository_config.cpp:59-155 | repositories of any two configurations have equal graphs exactly if they are bisimilar, whichever representatives were picked on either side |
| RepositoryGraph.GraphExistsIffContentFixed | src/buildtool/common/repository_config.cpp:98-155 | there is a graph exactly if everything reachable is content-fixed, and it does not depend on the representatives |
| KeyCache.AskKeyCoherent | src/buildtool/common/repository_config.cpp:40-57 | a key asked for when no precomputed root is left in the closure is what a recomputation from scratch gives, and the caches stay coherent |
| KeyCache.SetPrecomputedRootCoherent | src/buildtool/common/repository_config.cpp:157-175 | resetting only the keys of the repositories that change keeps the caches coherent, although others may share their class |
| KeyCache.RunsAreCoherent | src/buildtool/common/repository_config.hpp:59-64 | in every run of setting roots and asking for resolved keys, every cached key always equals a fresh recomputation |
| KeyCache.UnguardedSetRoot | src/buildtool/common/repository_config.cpp:157-175 | without the guard, setting a root leaves a stale key exactly if some repository with a cached key awaits that root without naming it itself |
| KeyCache.StaleKeyIsCached | src/buildtool/common/repository_config.cpp:40-57 | asking for a key before a root it depends on is computed caches one that goes stale |
| KeyCache.StaleKey | src/buildtool/common/repository_config.cpp:157-175 | a configuration of two repositories in which that happens |
| RootDeps.Traversal.TraverseRepoForComputedRoots | src/buildtool/computed_roots/evaluate.cpp:91-117 | the traversal collects the precomputed roots of everything it sees, and sees everything reachable |
| RootDeps.GetRootDeps | src/buildtool/computed_roots/evaluate.cpp:119-139 | the result is exactly the set of precomputed roots named anywhere in the closure of the repository |
| RootDeps.GuardArranged | src/buildtool/computed_roots/evaluate.cpp:681-731 | after setting roots, in any order and possibly with others in between, the key may be asked for exactly if all roots the repository depends on were among them |
| RepositoryIdentity.KeysIdentify | src/buildtool/common/repository_config.cpp:22-57 | of any two repositories of any two configurations the keys exist and are equal exactly if some relation pairs them up in which all pairs have equal contents of the four roots, equal file names and equal local names bound to related repositories |
| RepositoryIdentity.KeyExists | src/buildtool/common/repository_config.cpp:22-36 | there is a key exactly if everything reachable is known and has four roots of known content |
| RepositoryIdentity.QuotientDeduplicates | src/buildtool/common/repository_config.cpp:62-96 | representatives are shared exactly by repositories that some such relation pairs up, and a name without known content represents itself only |
| RepositoryConfig.RepositoryConfig.SetInfo | src/buildtool/common/repository_config.hpp:59-64 | the description is replaced, its key and the duplicates map are reset, other keys are kept |
| RepositoryConfig.RepositoryConfig.SetPrecomputedRoot | src/buildtool/common/repository_config.cpp:157-175 | every root that is the precomputed one becomes the given content, all else in the descriptions stays, and the caches stay coherent |
| RepositoryConfig.RepositoryConfig.ComputeDuplicates | src/buildtool/common/repository_config.cpp:64-88 | two repositories get the same representative exactly if nothing that is met from them along equal local names tells them apart by the contents of roots, file names or local names |
| RepositoryConfig.RepositoryConfig.DeduplicateRepo | src/buildtool/common/repository_config.cpp:59-96 | the canonical name is the representative, a repository that cannot be told apart; the map is computed once |
| RepositoryConfig.RepositoryConfig.AddToGraphAndGetId | src/buildtool/common/repository_config.cpp:113-155 | the recursion through graph, id counter and id map computes the numbered walk, and fails exactly when the walk does |
| RepositoryConfig.RepositoryConfig.BuildGraphForRepository | src/buildtool/common/repository_config.cpp:98-111 | the graph is that of the walk from the repository |
| RepositoryConfig.RepositoryConfig.RepositoryKey | src/buildtool/common/repository_config.cpp:40-57 | under the guard, there is a key exactly if everything met from the repository has known content; it equals the key of a repository of whatever configuration exactly if the two have equal contents of the four roots, file names and local names, all along the bindings; and the caches stay coherent |
| JstAgreement.InterchangeableIsAlike | bin/jst-lock.py:2585-2726 | repositories are indistinguishable states exactly if some relation pairs them up in which the four roots agree case by case, each with its default, file names are equal up to defaults, and bindings have equal labels and related targets |
| JstAgreement.NotToldApartIsInseparable | bin/jst-lock.py:2694-2711 | the same for names that are not told apart, where a missing name is like any other |
| JstAgreement.MeansTheSameInView | bin/jst-lock.py:2612-2683 | the same across configurations and without pragmas, where a missing name is like itself only |
| JstBisimilar.RootsEqual | bin/jst-lock.py:2612-2640 | two roots are reported different only if they are, by the type, path, content, commit, subdirectory, target or configuration that decides; and if reported equal they agree, up to registered dependencies between the repositories they are computed from |
| JstBisimilar.RepoRootsEqual | bin/jst-lock.py:2642-2683 | the same for all four roots with their defaults, and the file names |
| JstBisimilar.VisitPair | bin/jst-lock.py:2690-2711 | after the visit the pair is settled: marked if some difference is known, and otherwise depending on every pair it needs |
| JstBisimilar.MarkNames | bin/jst-lock.py:2685-2711 | for every configuration with its roots found, the unmarked pairs of names are exactly those that no path tells apart, where a missing name differs from none |
| JstBisimilar.ClassesOf | bin/jst-lock.py:2713-2726 | whatever relation the marks stand for, each class has a name not related to any later first name, and all earlier names related to it |
| JstBisimilar.BisimilarRepos | bin/jst-lock.py:2585-2726 | each class has a first name and all earlier ones that no path tells apart from it by roots, file names or labels; the classes are those of the coarsest relation in which all four roots, the file names and the bindings agree, if and only if no two repositories that are not told apart refer, in one place, to different names of which one is missing |
| JstBisimilar.LinkedIsSharp | bin/jst-lock.py:2585-2726 | so they are if every repository named by a binding or as the base of a root exists |
| OpenSystems.MarksAreSeparatedPairs | bin/jst-lock.py:2594-2610 | settled marks are the least fixpoint of locally different or some pair of successors marked, over pairs of existing names only |
| OpenSystems.SharpIffAlike | bin/jst-lock.py:2621-2640 | not being told apart is bisimilarity if and only if no missing name blurs a difference |
| JstRepresentatives.ChooseRepresentative | bin/jst-lock.py:2737-2754 | the representative is in the class, has a proper root if any member has, is to be kept if possible, and of those has the fewest slashes, then is the shortest, then the first in byte order |
| JstRepresentatives.ChooseAll | bin/jst-lock.py:2791-2801 | names are replaced by exactly the representative of the last class that has them and another representative, unless they are to be kept; representatives get the merged pragmas of their classes |
| JstRepresentatives.ReplacedByRepresentative | bin/jst-lock.py:2791-2801 | where no missing name blurs a difference, a name is replaced exactly by the representative of the repositories it cannot be distinguished from |
| JstRewriting.MeaningKept | bin/jst-lock.py:2803-2846 | where names are replaced by synonyms that stay, a repository keeps its meaning under its new name exactly if nothing that name leads to in the output loses its expression root |
| JstRewriting.MeaningPreserved | bin/jst-lock.py:2803-2846 | all repositories keep their meaning, modulo pragmas, exactly if names are replaced by synonyms that stay and no surviving repository has an expression root that is replaced |
| JstRewriting.NothingDangles | bin/jst-lock.py:2803-2846 | all roots are found again exactly if no surviving repository has an expression root that is replaced; what was linked stays linked |
| JstDeduplicate.SharpIsFaithful | bin/jst-lock.py:2791-2801 | where no missing name blurs a difference, names are replaced by synonyms that stay |
| JstDeduplicate.OneSurvives | bin/jst-lock.py:2791-2801 | there, of repositories that cannot be distinguished only one survives, and those to keep |
| JstDeduplicate.Deduplicate | bin/jst-lock.py:2729-2846 | the whole pass, for every configuration with its roots found and in terms of the input: which names survive and, unless blurred, that a name and its replacement agree in all roots, file names and bindings; every description with each name replaced in its place and all else kept; when meaning is preserved, altogether and for each repository, when references dangle, and which pragmas are merged |
| JstExamples.LoseExpressionRoot | bin/jst-lock.py:2830-2835 | for one input the output of the pass has an expression root that is gone |
| JstExamples.ConfuseRepos | bin/jst-lock.py:2697-2711 | for one input with a dangling binding two repositories that can be distinguished are in one class |
| JstExamples.ConfuseMeaning | bin/jst-lock.py:2791-2801 | for that input the output of the pass does not mean what the input does, though no expression root is lost |
| BootstrapGraph.HasValueIffAcyclic | bin/bootstrap-traverser.py:78-143 | exactly what does not depend on itself has a value: for an action the outcome of its command on just its inputs, each of them worth what it is worth, for a tree the directory of its entries |
| BootstrapGraph.ValueUnique | bin/bootstrap-traverser.py:132-143 | the value of an artifact is unique |
| BootstrapRuns.NothingHappensTwice | bin/parallel-bootstrap-traverser.py:248-380 | in every interleaving no operation is executed twice: no command runs, no callback is called, and no link is made a second time |
| BootstrapRuns.EverythingInItsTurn | bin/parallel-bootstrap-traverser.py:294-343 | a command runs only when all its inputs are linked, to their values; a link is made only when what it leads to is complete and its callbacks are cleared |
| BootstrapRuns.CompletedHasRun | bin/parallel-bootstrap-traverser.py:294-379 | at every point of every run, an action that is complete is what its own command has made of a directory with exactly its inputs, each at its location and worth what it is worth; a tree that is complete is the directory of its entries |
| BootstrapRuns.RunsEnd | bin/parallel-bootstrap-traverser.py:248-401 | what has been executed and what is pending is all different and part of the work of graph and targets; so no run takes more steps than there is work, whether or not the graph is cyclic |
| BootstrapRuns.NoneStuck | bin/parallel-bootstrap-traverser.py:248-343 | when nothing is pending, what does not depend on itself is complete: a stuck key would wait for a smaller one |
| BootstrapRuns.AllBuiltInTheEnd | bin/parallel-bootstrap-traverser.py:383-401 | at the end of every run exactly the targets that do not depend on themselves are linked, each to its value, with everything they depend on complete |
| TaskSystem.StepKeepsValid | bin/parallel-bootstrap-traverser.py:93-151 | at every step the counter is the number of queued tasks, active workers, and tasks just being moved |
| TaskSystem.ZeroMeansQuiet | bin/parallel-bootstrap-traverser.py:121-122 | the counter is zero exactly if all queues are empty, all workers wait, and no task is on its way into a queue |
| TaskSystem.ZeroIsStable | bin/parallel-bootstrap-traverser.py:149-151 | once zero, no worker can do anything until the main thread adds a task |
| TaskSystem.NoDeadlock | bin/parallel-bootstrap-traverser.py:100-119 | as long as the counter is not zero some worker can go on |
| ParallelTraverser.StepSimulates | bin/parallel-bootstrap-traverser.py:93-151 | every step of a thread is a step of the pending operations, or does not change them |
| ParallelTraverser.FinishesWhenDone | bin/parallel-bootstrap-traverser.py:149-151 | finish returns only when no operation is pending |
| TaskSystem.GoesOnUntilOver | bin/parallel-bootstrap-traverser.py:93-151 | some thread can take a step if and only if the traverser is not through |
| ParallelTraverser.ExecutionsEnd | bin/parallel-bootstrap-traverser.py:93-151 | every execution of the threads is bounded by the number of workers and the work there is, and can go on exactly until the traverser is through |
| ParallelTraverser.TraverserIsCorrect | bin/parallel-bootstrap-traverser.py:383-401 | when no thread can go on any more, exactly the acyclic targets are linked, each to its value, and no command has run twice |
| SequentialTraverser.Traverser.CreateBlobs | bin/bootstrap-traverser.py:48-53 | all blobs are written |
| SequentialTraverser.Traverser.Build | bin/bootstrap-traverser.py:132-143 | the path returned is that of the artifact, whose action or tree is complete; nothing that was there changes |
| SequentialTraverser.Traverser.BuildKey | bin/bootstrap-traverser.py:78-121 | an action or tree is built once, and only read afterwards |
| SequentialTraverser.Traverser.Traverse | bin/bootstrap-traverser.py:146-155 | every target location leads to the value of its artifact |
| SequentialTraverser.TraversersAgree | bin/parallel-bootstrap-traverser.py:383-401 | on an acyclic graph every complete run of the workers leaves the same path and content at every location as the sequential traverser |
| GitTree.HexRoundTrip | src/utils/cpp/hex_string.hpp:33-58 | reading the hexadecimal form of a byte string gives it back |
| GitTree.PermIsFileMode | src/buildtool/file_system/git_repo.cpp:117-129 | the permission code of an entry is its file mode in octal, without leading zeros, and the type is read back from it and from no other code |
| GitTree.CreateTree | src/buildtool/file_system/git_repo.cpp:1961-2001 | the content is determined by the names, ids and types, whatever the order in which the entries are met |
| GitTree.WriteTree | bin/jst-lock.py:426-439 | the content for entries keyed with trailing slashes for directories; fails exactly on a directory with the empty name |
| GitTree.WritersAgree | bin/jst-lock.py:426-439 | both writers produce the same bytes for the same entries |
| GitTreeReader.ReadGitTree | bin/jst-lock.py:607-629 | of a printed tree the loop returns the listing; of other bytes what reading entry by entry gives, with Python's results for missing separators |
| GitTreeReader.ReadPrinted | bin/jst-lock.py:607-629 | reading what was printed gives back every name with its id and type, and nothing else |
| GitTreeReader.PrintedInjective | bin/jst-lock.py:426-439 | listings that print to the same bytes are equal |
| StagePaths.Contiguous | src/buildtool/computed_roots/artifacts_root.cpp:67-68 | in byte order, a path between two paths below a directory lies below it as well |
| PartialTree.PartialTree.Down | src/buildtool/computed_roots/artifacts_root.cpp:75-81 | a directory is entered; the stack goes on holding all entries that are done |
| PartialTree.PartialTree.Up | src/buildtool/computed_roots/artifacts_root.cpp:83-94 | a complete directory becomes an entry of its parent |
| PartialTree.PartialTree.To | src/buildtool/computed_roots/artifacts_root.cpp:96-108 | the current directory becomes the one asked for, with no entry lost |
| PartialTree.PartialTree.Add | src/buildtool/computed_roots/artifacts_root.cpp:110-121 | the entry is added at its path, unless its id is not hexadecimal |
| PartialTree.PartialTree.Done | src/buildtool/computed_roots/artifacts_root.cpp:123-137 | the id is that of the listing of everything added |
| ArtifactsRoot.ArtifactsRoot | src/buildtool/computed_roots/artifacts_root.cpp:141-196 | the root id is that of the tree that groups the paths on their first segment recursively; there is none exactly if some id is not hexadecimal |
| NonUpwards.NonUpwardsStaysBelow | src/utils/cpp/path.hpp:36-43 | the check on the normal form admits exactly the relative paths that never leave the directory when followed step by step |
| ValidTrees.ValidIffHarmless | src/buildtool/file_system/git_tree.cpp:54-176 | a tree is valid exactly if no path of names in it leads to a symlink that leaves the directory it is in, or to a subtree that is not a tree |
| ValidTrees.ValidTreeCache.MarkTreeValid | src/buildtool/file_system/git_tree_utils.cpp:30-39 | only a valid tree is marked, in the youngest generation |
| ValidTrees.ValidTreeCache.IsTreeValid | src/buildtool/file_system/git_tree_utils.cpp:41-58 | true exactly if marked in the youngest generation, or in an older one and the marker can be renewed |
| ValidTrees.ValidTreeCache.ValidateGitSubtrees | src/buildtool/file_system/git_tree_utils.cpp:60-79 | true only if all subtrees are recursively free of upwards symlinks, and if they are and nothing is missing |
| ValidTrees.ValidTreeCache.ReadValidGitCASTree | src/buildtool/file_system/git_tree_utils.cpp:85-102 | a tree is returned only if it is valid, with exactly its entries; and always if it is valid and nothing is missing |
| ValidTrees.ValidTreeCache.IsGitTreeValid | src/buildtool/file_system/git_tree_utils.cpp:104-121 | true only for trees that are recursively free of upwards symlinks, and for exactly those if nothing is missing |
| ValidTrees.ValidTreeCache.Rotate | src/buildtool/storage/garbage_collector.cpp:203-220 | dropping the oldest generation keeps all marks sound; what was marked in the youngest one stays marked |
| FileStorage.StepKeepsInv | src/buildtool/file_system/file_storage.hpp:103-205 | under every interleaving the entry only holds the whole content of one of the calls |
| FileStorage.InsertionIsAtomic | src/buildtool/file_system/file_storage.hpp:95-165 | over whole runs: whole contents only; in first-wins mode the content is that of the call that created the entry, in last-wins mode that of the last call that has staged successfully; once a call has returned true the entry exists from then on, and a call returns false only if it does not exist at that moment |
| FileStorage.LastStagedWins | src/buildtool/file_system/file_storage.hpp:190-204 | in last-wins mode, at every point of every run, what is stored is the content of the call that was the last to stage successfully, and nothing before one has |
| FileStorage.FirstInsertedWins | src/buildtool/file_system/file_storage.hpp:95-165 | in first-wins mode, what is stored stays the content of the call that created the entry |
| FileStorage.StagingCleansUp | src/buildtool/file_system/file_storage.hpp:190-204 | in every run, a call that has staged successfully has left its temporary file if and only if, in last-wins mode, it staged its owned source and the entry was a link of that at the moment |
| FileStorage.NothingIsLeft | src/buildtool/file_system/file_storage.hpp:190-204 | so in first-wins mode, and if no call owns its source, no successful staging leaves a file |
| FileStorage.OnlyOwnedFilesAreLeft | src/buildtool/file_system/file_storage.hpp:168-180 | what is staged onto itself is an owned source file |
| FileStorage.TemporaryFileCanBeLeft | src/buildtool/file_system/file_system_manager.hpp:302-304 | a run of two calls in which it happens |
| JstImports.AllNeedsHolds | bin/jst-lock.py:797-848 | with every repository needed fully, its bindings and all that its root and its layers are computed from are needed fully or known, and its root and its layers are needed or known |
| JstImports.ClosedHasAll | bin/jst-lock.py:797-848 | what is closed under the visits holds everything an import needs |
| ReposToImport.GetBaseRepoIfComputed | bin/jst-lock.py:788-794 | the repository that the root at the end of the chain of names is computed from, if any; the loop ends |
| ReposToImport.Importer.Visit | bin/jst-lock.py:805-845 | the mutual search over the two sets terminates, lists only what is needed, and closes everything it adds |
| ReposToImport.ReposToImport | bin/jst-lock.py:797-848 | the two results are exactly what is needed fully, and exactly what is needed for a root or as a layer only |
| ImportNames.FindName | bin/jst-lock.py:860-869 | the first free candidate, found after finitely many |
| ImportNames.NameImports | bin/jst-lock.py:851-877 | every repository gets the first free name, which is the name of the import, or that and its own with a number if need be; none of the names exists already, and they are different exactly if no repository that needs a number meets one with that number in its name |
| ImportNames.CandidatesMeet | bin/jst-lock.py:860-869 | two bases have a candidate in common only if one of them is the other one with a number |
| ImportNames.DistinctExactly | bin/jst-lock.py:856-857 | the promise that no conflicts arise holds if and only if nothing clashes, for every result that name_imports can have |
| ImportNames.NamesCanClash | bin/jst-lock.py:868 | with lib/a in use, importing a and a (1) under lib calls both lib/a (1) |
| ImportRewriting.RewriteRepo | bin/jst-lock.py:994-1036 | every root, layer and binding exists exactly if it did and names what its old name is assigned, each in its place; file names, kinds of roots and all other fields stay; a layer keeps its root only |
| ImportRewriting.AddImported | bin/jst-lock.py:1110-1127 | the loop succeeds if and only if all names looked up are assigned; under each name given there is one of the repositories of that name, with all names replaced in place, and all else is as before |
| ImportMeaning.RootFollows | bin/jst-lock.py:1003-1022 | following names in the output leads to the copy of the root that following them in the source leads to, unless a known name is met |
| ImportMeaning.ImportCopies | bin/jst-lock.py:1089-1131 | a repository imported fully and all that it leads to are copied: some relation pairs foreign repositories with imported ones so that all roots are there, each in its place, and bindings and bases of roots lead to related names, up to the names that were known |
| HandleImport.ImportRepos | bin/jst-lock.py:1089-1131 | the import as a whole: what is imported under which names; it succeeds if and only if all repositories listed by distribution directories, and those that mere layers take their roots from, are imported or known; the configuration is kept, what is imported refers to what is there or known, and unless names clash every imported repository is found under its own, with all its names replaced in place, and is a copy of the foreign one with all it leads to |
| HandleImport.MissLayerRoot | bin/jst-lock.py:833-845 | a configuration whose import fails |
| TreeStructure.StructureIsShape | src/buildtool/tree_structure/tree_structure_utils.cpp:42-124 | two trees have the same structure exactly if they have the same names of the same kinds all the way down |
| TreeStructure.StructureIsEmptyTree | src/buildtool/tree_structure/tree_structure_utils.cpp:42-124 | the structure is the one tree with the same names of the same kinds all the way down in which every file is empty |
| TreeStructure.StructureIdempotent | src/buildtool/tree_structure/tree_structure_utils.cpp:42-124 | the structure of a structure is that structure |
| TreeStructure.Resolver.ResolveTreeStructureRoot | src/buildtool/computed_roots/evaluate.cpp:430-625 | over all four cases and all outcomes of the calls: when it succeeds, and that then the root is that of the structure of the tree, absent exactly if asked for, and known to serve or in the local Git repository |
| CriticalPath.LongestByInputs | doc/invocations-http-server/server.py:609-621 | the longest chain to an artifact extends a longest chain to one of its inputs |
| CriticalPath.Profiler.CriticalPath | doc/invocations-http-server/server.py:595-621 | path and duration are those of a real dependency chain, and no chain to the artifact takes longer |
| CriticalPath.Profiler.CriticalArtifact | doc/invocations-http-server/server.py:623-633 | the same over all artifacts to build |
| Numbers.ReadPrinted | src/buildtool/common/artifact.hpp:92-94 | decimal printing and reading are inverse, whatever follows |
| ObjectInfo.RoundTrip | src/buildtool/common/artifact.hpp:57-114 | every valid info is read back from its string, size included, except for the failed flag |
| ObjectInfo.ReadIsStable | src/buildtool/common/artifact.hpp:77-114 | whatever is read is valid, and printing and reading it again changes nothing |
| ObjectInfo.UnknownSizeIsLost | src/buildtool/common/artifact.hpp:58-67 | a string with the size left out is not read back |

## Left out

- RepositoryConfig.RepositoryConfig.RepositoryKey: the key is the graph itself; serialising it and storing it in the CAS is taken to be injective. Locks and thread-safe single computation are not modelled, calls are atomic.
- RepositoryConfig.RepositoryConfig.AddToGraphAndGetId: ids are numbers, not their decimal strings, and the call of `DeduplicateRepo` is a lookup, as the duplicates are computed before the walk begins.
- DfaMinimizer.DFAMinimizer.AddState: bucket ids are pairs of content and symbols, not their JSON dump.
- KeyCache.SetPrecomputedRootCoherent: the value of a precomputed root is a concrete root; a value that is itself precomputed does not occur in `FillRoots`.
- RootDeps.GuardArranged: the asynchronous map that evaluates the roots is represented by the order it guarantees, dependencies first.
- JstBisimilar.BisimilarRepos: every chain of names for a root is required to end in a root, within a given depth; otherwise the program raises an exception. Nothing is required of bindings, bases of roots, and distribution directories.
- JstDeduplicate.Deduplicate: meaning is compared modulo pragmas, and a missing name stands for itself; how pragmas are merged is stated, but not what they mean.
- JstRewriting.MeaningPreserved: the fields of a repository that none of this looks at (descriptions, fetch locations) are one opaque value.
- BootstrapRuns.AllBuiltInTheEnd: commands are deterministic functions of their inputs; output paths, environment and working directory are part of the command. Failing commands and the exception and shutdown paths of the task system are not modelled.
- SequentialTraverser.Traverser.Build: the graph is required to be acyclic below the artifact. On a cycle through actions the program returns a directory that is not complete, and on one through trees only it does not terminate.
- TaskSystem.StepKeepsValid: locks are not modelled, so more interleavings are considered than can happen; spurious wake-ups are not.
- GitTreeReader.ReadGitTree: decoding permission codes and names as UTF-8 is the identity on byte strings, so invalid encodings are not errors.
- ArtifactsRoot.ArtifactsRoot: staged paths are required to be relative and normalised, and no tree of the stage to be a directory of it at the same time; looking up artifact infos and rehashing are left out, and writing a tree object does not fail.
- PartialTree.PartialTree.To: paths are lists of segments, without root names.
- ValidTrees.ValidTreeCache.IsGitTreeValid: reads that ignore special entries are left out, as is the memo of a tree entry; garbage collection does not run in the middle of a validation.
- FileStorage.StepKeepsInv: one entry at a time; directories that are created, permissions and time stamps are left out, and nobody deletes the entry or changes a source file.
- ReposToImport.ReposToImport: the repository to import exists, all chains of names for a root end in one, and bindings and bases of roots exist, also in parts of the configuration that the import does not reach. Where it meets anything else, the program raises an exception, here or, for a missing layer, when the layer is imported.
- HandleImport.ImportRepos: how file roots and pragmas are rewritten is a parameter that does not fail, and updating a pragma changes nothing else; fetching and reading the source configuration come before it.
- TreeStructure.Resolver.ResolveTreeStructureRoot: the storage, the Git repository and serve are represented by the trees they hold and by arbitrary outcomes of the calls; caches of tree structures only shorten computations and are left out.
- CriticalPath.Profiler.CriticalPath: durations are real numbers; the graph has to be acyclic and durations not negative. The name of the critical artifact and the rendering of the page are left out.
- ObjectInfo.RoundTrip: the JSON form and the hashing of infos are left out.
- The evaluation of computed roots by building targets, progress counters, the command line, configuration files, network, and all calls into libgit2, gRPC and child processes are left out.
