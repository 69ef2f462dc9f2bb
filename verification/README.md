# Verified model of the luet package manager

A Dafny model of the parts of luet that decide what is installed, in which order, and what is
removed. Each module follows one component of the program.

| module | component |
|---|---|
| `Packages` | package names, the error result |
| `Graphs`, `PackageThins`, `CycleDetector`, `DetectorEffect`, `Sorter`, `SortExamples` | the dependency sort: a worklist over maps with a one-shot cycle breaker that rewrites shared packages |
| `OperationPlan`, `Operations` | the plan of installs, updates and removals |
| `Admissions`, `VersionOrder`, `Resolver`, `ResolverExamples` | when one package accepts another, and the choice of versions |
| `ReverseDeps` | what an uninstall removes |
| `Formulas` | the clauses for the SAT solver, in both versions of the builder |
| `MemoryDatabase` | the version cache against a scan of the world |
| `CategoryScan`, `ProvidesIndex` | the concurrent repository search and its provides index |
| `HashTree` | the hashes of build images |
| `FileConflicts` | the file-conflict gate, the ownership of files, and the files on disk |

Code that updates objects or maps is a class or a method with loops here, proved against a function
or a property of its old and new state; what that function promises is proved in the lemmas. Go maps
have no iteration order: every loop over one picks its elements arbitrarily, so the results hold for
every order. `dafny verify dfyconfig.toml` checks the project.

Where the code does not do what its names and comments suggest, the model follows the code and a
lemma names the input:

- The cycle detector also deletes requires that are on no cycle
  (`SortExamples.DetectorDropsHarmlessRequire`). It spares every package to which one way at most
  leads from anywhere, and deletes on cycles only if all other packages require only what leads back
  to them (`DetectorEffect.DetectorSparesOneWayIn`). The converse depends on the order inside the
  lists of requires (`SortExamples.OrderOfRequiresDecides`).
- A package that requires one which requires it back is emitted without a look at its other missing
  requires (`SortExamples.PairHidesRequire`, `Sorter.JustifiedIsTopoSorted`,
  `Sorter.OffCyclesRespected`).
- The splice of removals never looks at the first operation after the pure removals
  (`OperationPlan.FirstConflictIsMissed`, `OperationPlan.RemovalBeforeConflicts`).
- The version whose dependencies were checked need not be the one that is installed
  (`ResolverExamples.PassedOverHeadIsKept`, `Resolver.Solver.HeadIsAcceptedVersion`).
- A require is met by any candidate of that name, whatever its version
  (`ResolverExamples.RefusedVersionIsInstalled`; when the version is right:
  `Resolver.Solver.ResolveFound`), and what was stored for a version that is passed over stays
  (`ResolverExamples.UnusedCandidateStays`, `Resolver.Solver.ResolveAll`).
- The two formula builders differ on an undefined requirement next to a single stored version
  (`Formulas.UndefinedRequirementDiffers`, `Formulas.SameWorld`); and if nothing is wanted, the
  formula does not ask for the installed packages either (`Formulas.BuildFormulaV2`).
- A package created again after its removal is found by no selector
  (`MemoryDatabase.CreatedAgainIsLost`, `MemoryDatabase.AnswersAgreeIff`).
- A category that cannot be read is missing from the answer of a search, which reports no error
  (`CategoryScan.UnreadableCategoryIsSilent`, `CategoryScan.FinishedAnswer`,
  `ProvidesIndex.SearchIsComplete`).
- Registered files that are missing from the disk escape the file-conflict gate
  (`FileConflicts.MissingFileIsNotChecked`, `FileConflicts.PassIsSafeIfSeen`), a refused check keeps
  an index that goes stale (`FileConflicts.RefusalLeavesStaleIndex`,
  `FileConflicts.RetainedIndexBlocksTheSame`), and a file that moves between packages can be lost
  (`FileConflicts.MovedFileIsDeleted`, `FileConflicts.DiskStaysComplete`).

## Model

| member | source | states |
|---|---|---|
| Packages.PackageNameIdentifiesAtom | pkg/package/package.go:397-405 | the map key `category/name` identifies a package: on atoms with a slash-free category, equal keys mean equal category and name |
| Packages.PackageNameAmbiguous | pkg/package/package.go:397-405 | without that condition two different atoms can share a key |
| Graphs.AcyclicHasSink | pkg/v2/solver/solver.go:246-312 | what keeps the worklist moving: a non-empty requires graph without cycles has a package that requires no other member |
| PackageThins.PackageThin.BreakCyclesOnRequires | pkg/package/package_thin.go:144-162 | the shared package keeps, in order, exactly its requires that are not on the stack |
| CycleDetector.Walk | pkg/v2/solver/solver.go:87-130 | the recursive walk terminates on every graph although its stack is never popped: each call visits a new package or re-enters one whose remaining requires were all unvisited; the stack only grows |
| CycleDetector.WalkVisits | pkg/v2/solver/solver.go:87-130 | a finished walk has deleted nothing but requires between queued packages; along any two surviving requires from a visited package the rank (first position on the stack) rises at one of them |
| CycleDetector.NoCycleThroughStack | pkg/v2/solver/solver.go:87-130 | therefore no cycle starts at a package the walk has visited |
| CycleDetector.RecursiveCheckDeps | pkg/v2/solver/solver.go:87-130 | the walk over the shared heap objects computes `Walk`; it fails only if a require is neither queued nor emitted |
| CycleDetector.WalkRequires | pkg/v2/solver/solver.go:98-127 | the loop runs over the requires as they were when the package was pushed, while deeper calls rewrite them |
| CycleDetector.DetectBreaksAllCycles | pkg/v2/solver/solver.go:132-170 | whatever the cycles and whatever the order of the walks, the requires have no cycle afterwards, and only requires between queued packages were deleted |
| CycleDetector.AllAvailable | pkg/v2/solver/solver.go:157-167 | every require of the package is emitted or queued |
| CycleDetector.DepCycleDetector | pkg/v2/solver/solver.go:132-170 | the method walks from every queued package once, in an arbitrary order, and its effect is `Detect` for that order; it fails only on an unresolvable require |
| DetectorEffect.WalkKeeps | pkg/v2/solver/solver.go:87-130 | in whatever earlier walks left of the requires, a walk takes none from a package to which one way at most leads from its root |
| DetectorEffect.WalkOnce | pkg/v2/solver/solver.go:87-130 | a walk that changes nothing pushes every package that still requires something once |
| DetectorEffect.EndIsPushed | pkg/v2/solver/solver.go:87-130 | a walk that changes nothing follows every walk of the graph to its end |
| DetectorEffect.WalkUnchanged | pkg/v2/solver/solver.go:87-130 | the walk from one package changes nothing if and only if one way at most leads from it to anything that still requires something |
| DetectorEffect.DetectorSparesOneWayIn | pkg/v2/solver/solver.go:132-170 | whatever cycles there are and whatever the order of the walks, a package keeps all its requires unless two different ways lead to it from one package; if such packages require only what leads back to them, every deleted require lies on a cycle |
| DetectorEffect.DetectorLeavesAlone | pkg/v2/solver/solver.go:132-170 | for every graph and order the detector deletes nothing at all if and only if no two different walks from one package end at a package that still requires another, so never when there is a cycle |
| SortExamples.DetectorDropsHarmlessRequire | pkg/v2/solver/solver.go:87-170 | a graph on which nothing can be emitted, so that the detector runs: it deletes the require of a package that is on no cycle, which may then be emitted before what it requires |
| SortExamples.OrderOfRequiresDecides | pkg/v2/solver/solver.go:87-170 | two such graphs that differ only in the order of one list of requires: in one of them the detector deletes a require that is on no cycle, in the other it does not |
| Sorter.CanInject | pkg/v2/solver/solver.go:180-300 | a package may be emitted if all its requires are, or, in the second phase, if the first missing one is queued and requires it back |
| Sorter.EmitQueued | pkg/v2/solver/solver.go:211-312 | the loop of one scan: a queued package is emitted exactly when its turn comes and it may be, and what it emits only grows the order |
| Sorter.ScanQueue | pkg/v2/solver/solver.go:211-312 | one scan of the queue in any order emits justified packages only, loses none, and shrinks the queue whenever some package could be emitted: one whose requires are all emitted, or, with mutual requires broken, one whose first missing require requires it back; a scan that shrinks nothing changes nothing |
| Sorter.Place | pkg/v2/solver/solver.go:180-238 | a step of the first phase: the package is emitted, and may free queued ones, or is queued; none is lost |
| Sorter.FirstPhase | pkg/v2/solver/solver.go:180-238 | after one pass over the list every package is emitted or queued; what is emitted comes after all its requires, and it includes every package whose requires need nothing themselves, before any pair of packages that require each other is broken up |
| Sorter.SomeReady | pkg/v2/solver/solver.go:246-312 | as long as the queued packages have no cycle, some queued package is ready |
| Sorter.RunDetector | pkg/v2/solver/solver.go:246-263 | after the detector ran, the queue is acyclic, everything already emitted is still justified, and only packages to which two ways lead have lost requires |
| Sorter.SecondPhase | pkg/v2/solver/solver.go:240-317 | the stall counters, the one-shot detector and the final error: for closed requires the error branch is never taken; the detector runs only at a dead end, when no queued package could be emitted even by breaking up a mutual pair; without it the requires stay as they were, and with it only packages to which two ways lead lose some; what was emitted first stays in front |
| Sorter.NothingIsLost | pkg/v2/solver/solver.go:246-263 | if from every set of emitted packages some other one can go on, no require is lost, cycles or not |
| Sorter.JustifiedIsTopoSorted | pkg/v2/solver/solver.go:272-305 | a justified order of all packages is a topological order if and only if no two of them require each other |
| Sorter.OffCyclesRespected | pkg/v2/solver/solver.go:172-317 | what a finished order is worth on a graph with cycles: every package comes after all it requires off the cycles, if no two packages require each other and packages to which two ways lead require only what leads back to them |
| SortExamples.PairHidesRequire | pkg/v2/solver/solver.go:272-300 | with two packages that require each other, one of them may be emitted before something else it requires, off every cycle |
| Sorter.JustifiedAfterDetector | pkg/v2/solver/solver.go:240-305 | rewriting the queued packages leaves the order of the emitted ones justified |
| Sorter.SortPkgsThinArr | pkg/v2/solver/solver.go:172-317 | for distinct names the sort terminates; with closed requires, cyclic or not, it succeeds with a permutation in which each package comes after its requires or its first missing require is queued and requires it back; it starts with a topological order that holds every package whose requires need nothing themselves; the order is topological for the surviving requires unless two packages require each other; a require is lost if and only if the order passes through a dead end, so if none is possible the detector never runs, as without cycles; only packages to which two ways lead lose requires |
| OperationPlan.PlanConserves | pkg/v2/solver/solver.go:395-481 | conservation: the plan is the pure removals, every install and update once, and one removal for each replaced package |
| OperationPlan.PlanKeepsSortedOrder | pkg/v2/solver/solver.go:395-481 | the installs and updates appear exactly in the sorted order |
| OperationPlan.PlanKeepsFront | pkg/v2/solver/solver.go:395-481 | the pure removals stay in front |
| OperationPlan.PlanHasNoDuplicates | pkg/v2/solver/solver.go:395-481 | no operation is planned twice |
| OperationPlan.RemovedBeforeReplaced | pkg/v2/solver/solver.go:416-481 | the old version of a package is removed before the new one is installed |
| OperationPlan.RemovalPosition | pkg/v2/solver/solver.go:425-479 | the exact place of the removal of a replaced package among everything planned earlier: in front of the first entry that refuses it, the pure removals and the one entry after them not being asked |
| OperationPlan.OrderPersists | pkg/v2/solver/solver.go:416-481 | what an earlier splice put in order stays in order through all later ones |
| OperationPlan.RemovalBeforeConflicts | pkg/v2/solver/solver.go:425-479 | the old version of p is removed before an earlier planned operation that refuses p, if and only if that operation is not the very first one after the pure removals |
| OperationPlan.FirstConflictIsMissed | pkg/v2/solver/solver.go:425-479 | a plan in which that first operation is overlooked |
| Operations.SpliceRemovals | pkg/v2/solver/solver.go:416-481 | the index arithmetic computes the specified plan; the operation index always equals the length of the plan, and the branch for a conflict at index 0 is dead |
| Operations.LastLookedAt | pkg/v2/solver/solver.go:425-442 | the backward scan ends with the first conflict after the pure removals and their successor |
| Operations.CreateThinPkgsPlist | pkg/v2/solver/solver.go:53-85 | thin copies, in order, with the requires that are among the artefacts of the plan |
| Operations.DropInstalled | pkg/v2/solver/solver.go:64-80 | a require stays exactly if its package is in the plan, and the order is kept |
| Operations.ToMap | pkg/v2/compiler/types/artifact/map.go:35-45 | the map holds under each name of the pack its artefacts in order |
| Operations.ForwardOperations | pkg/v2/solver/solver.go:359-374 | the sorted packages become installs or updates in the same order, according to their pack |
| Operations.ForwardOperation | pkg/v2/solver/solver.go:363-371 | an install if the package is in the install pack, else an update |
| Operations.ThinArtifacts | pkg/v2/solver/solver.go:345-348 | thin copies whose requires graph is that of the artefacts |
| Operations.SortArtifacts | pkg/v2/solver/solver.go:345-357 | the artefacts in an order that respects their requires, each once |
| Operations.RemovalsNotMerged | pkg/v2/solver/solver.go:395-411 | the removals of packages that are neither installed nor updated, in order |
| Operations.AddRemovals | pkg/v2/solver/solver.go:378-488 | all three cases, nothing to remove, only removals, and both, give the one specified plan |
| Operations.SortedOperations | pkg/v2/solver/solver.go:340-376 | installs and updates in the order of the dependency sort, each once with the action of its pack |
| Operations.RemovalsConserved | pkg/v2/solver/solver.go:395-481 | pure removals and removals of replaced packages together remove every package of the pack once |
| Operations.HandlesIsPermutation | pkg/v2/solver/solver.go:340-376 | an order that names each artefact once is a permutation of the installs and updates |
| Operations.NoCircleIsAcyclic | pkg/v2/solver/solver.go:53-85 | if no chain of requires among the artefacts of the plan comes back to its start, the graph that is sorted has no cycle |
| Operations.FirstUnhandled | pkg/v2/solver/solver.go:172-376 | the first require of a package that the order handles, and not before the package, requires it back, unless two chains of requires lead to the package |
| Operations.OrderOperations | pkg/v2/solver/solver.go:319-494 | the whole plan: fails exactly for a missing pack; otherwise one operation per artefact; told by the requires of the artefacts: without circles each package is handled after all it requires; with circles, the first require of a package that is not handled before it requires it back, unless two ways lead to the package; old versions are removed before the new ones come; what is only removed goes first, in the given order |
| Admissions.Admit | pkg/package/package.go:758-864 | admitted exactly if the argument can be parsed, all requires accept it or what it provides and no conflict does; refused exactly if the first check that does not come out that way is a plain no, requires before conflicts; an error otherwise; no check at all without requires and conflicts |
| Admissions.CheckProvides | pkg/package/package.go:786-809 | true exactly if everything provided under the name of the selector comes out as wanted; a plain no exactly if the first that does not is one, and an error otherwise |
| Admissions.CheckList | pkg/package/package.go:768-861 | true exactly if all selectors hold; a plain no exactly if the first that does not hold is one, and an error otherwise |
| Admissions.AdmittedMeans | pkg/package/package.go:758-864 | told by the library alone: admitted means each require that names the package accepts it, each other one accepts all it provides under that name, no conflict does either, and everything compared could be parsed |
| Resolver.PrepareConflictsAndSystemMap | pkg/v2/solver/solver.go:1030-1071 | the three maps list under each name exactly the installed packages with that name, that conflict or that provide |
| Resolver.AddAll | pkg/v2/solver/solver.go:1045-1057 | the package is registered under the name of each entry, and nothing else changes |
| Resolver.Solver.constructor | pkg/v2/solver/solver.go:1030-1071 | the resolver starts without candidates, on the three indexes of the installed packages |
| VersionOrder.GetSortedArtifactsByKey | pkg/v2/compiler/types/artifact/map.go:151-197 | the loops pick for each printed version the first artefact of that version; a single artefact is taken as it is; fails exactly for a missing name or, with several artefacts, versions that cannot be sorted |
| VersionOrder.SortedAreKnown | pkg/v2/compiler/types/artifact/map.go:151-197 | only known artefacts, one for each version, and every version that is printed as it is written |
| VersionOrder.PickedInOrder | pkg/v2/compiler/types/artifact/map.go:172-195 | the result follows the printed versions, best first: each adds the first artefact written that way, or nothing |
| Resolver.Solver.ArtefactIsInConflict | pkg/v2/solver/solver.go:996-1028 | in conflict means: refused by an installed package that conflicts with it, or refusing an installed package it conflicts with and does not provide |
| Resolver.Solver.ConflictingMeans | pkg/v2/solver/solver.go:996-1028 | told by the installed packages: a package is in conflict exactly if an installed one that has it among its conflicts refuses it, or it refuses an installed one that is among its conflicts and that it does not provide |
| Resolver.Solver.ArtefactAdmitByQueue | pkg/v2/solver/solver.go:973-994 | true exactly if the head of every candidate list admits the artefact |
| Resolver.Solver.TryArtefact | pkg/v2/solver/solver.go:731-780 | a version is banned exactly for a conflict; it is accepted only if every candidate admits it and its requires are met; if nothing has to be resolved for it, it is accepted exactly if it suits, and nothing changes; what was stored for a require stays, whatever the verdict |
| Resolver.Solver.TryVersions | pkg/v2/solver/solver.go:725-780 | the first accepted version ends the search, exactly the versions in conflict before it were banned, and everything stored meanwhile is wanted by it, by an accepted version, or by one that was passed over |
| Resolver.Solver.ResolvePackage | pkg/v2/solver/solver.go:704-815 | terminates on every repository, cyclic included; candidates are final; on success the versions without those in conflict before the accepted one are stored; if some version suits and all better ones are passed at once, it is the accepted one; the head is the first version free of conflicts, it is not the accepted one if it was refused at the start, and if nothing had to be resolved for it, it is the accepted one exactly if it suited; every other new candidate is wanted by an accepted version or by one passed over |
| Resolver.Solver.StoreCandidate | pkg/v2/solver/solver.go:791-814 | the stored list is the versions that were not banned, and the provides of its head are registered |
| Resolver.Solver.RegisterProvides | pkg/v2/solver/solver.go:798-804 | the package is registered under everything it provides; other entries stay |
| Resolver.Solver.ValidVersions | pkg/v2/solver/solver.go:791-810 | the versions that were not banned in their order; only the first of them registers its provides |
| Resolver.KeepInOrder | pkg/v2/solver/solver.go:791-810 | the versions kept stay in the given order |
| Resolver.Solver.IsProvided | pkg/v2/solver/solver.go:839-862 | some registered provider provides something the version admits |
| Resolver.Solver.AddFound | pkg/v2/solver/solver.go:935-950 | everything found is appended under its own name, in order; the name of the first package under another name is returned |
| Resolver.Solver.AddedUnderOne | pkg/v2/solver/solver.go:935-950 | what is found under one name stands behind what was known under it, in order |
| Resolver.Solver.StoredIsValid | pkg/v2/solver/solver.go:704-815 | a stored list is free of conflicts at its head, its accepted version has its requires met, and so do all earlier candidates |
| Resolver.Solver.FindArtefacts | pkg/v2/solver/solver.go:886-952 | a name that is available is resolved under itself, its versions sorted by repository if these are known; otherwise the search adds exactly what it found, and the resolution goes on under the first name found other than its own, or its own if there is none; it fails exactly if the search or the sort does |
| Resolver.Solver.ResolveFound | pkg/v2/solver/solver.go:886-967 | succeeds if the best version found that suits can be taken at once; if all that is found carries one other, new name and the best of it that suits can be taken at once, that name becomes a candidate; and if neither the name nor that of the provider was known before, the head of the new candidates is one of the versions found, so the requirer accepts it if it accepts everything found |
| Resolver.Solver.ResolveRequire | pkg/v2/solver/solver.go:824-967 | an installed require is met exactly if admitted; others by a provider, a candidate, a package on the stack or a new resolution |
| Resolver.Solver.ProcessArtefactDeps | pkg/v2/solver/solver.go:817-971 | true means every require of the version is met, or lies on a cycle with it; false or an error undoes nothing: a first require that was resolved stays met |
| Resolver.Solver.ResolveAll | pkg/v2/solver/solver.go:659-669 | after Install's loop every selected package has a candidate, unless an error was reported or errors are ignored; every candidate is selected or required by an accepted version, or by a version free of conflicts that was passed over after something had been found for it |
| Resolver.Solver.AcyclicCandidatesAreClosed | pkg/v2/solver/solver.go:704-971 | without cycles every candidate list contains a version whose requires are each installed and admitted, provided by a package that is installed or heads a candidate list, or candidates |
| Resolver.Solver.ProvidersStillCome | pkg/v2/solver/solver.go:791-810 | every registered provider is installed or heads a candidate list |
| Resolver.Solver.HeadIsFirstFree | pkg/v2/solver/solver.go:791-814 | the head of a stored list is the first version free of conflicts, whichever was accepted |
| Resolver.Solver.HeadIsAcceptedVersion | pkg/v2/solver/solver.go:791-814 | when the head is the accepted version: never if it was refused at the start, and if nothing had to be resolved for it, exactly if it suited |
| ResolverExamples.PassedOverHeadIsKept | pkg/v2/solver/solver.go:725-814 | a resolution that stores a version at the head which refuses an installed package it requires |
| ResolverExamples.RefusedVersionIsInstalled | pkg/v2/solver/solver.go:867-872 | a resolution of two selected packages after which a version is installed that the other one, which requires an older version, refuses |
| ResolverExamples.UnusedCandidateStays | pkg/v2/solver/solver.go:725-814 | the steps of a resolution in which a candidate is stored for a version that is then passed over: it stays, although it was not selected and no accepted version requires anything |
| ReverseDeps.ResolveRdependsTask.AddRdep2Map | pkg/v2/installer/rdepend.go:46-55 | the map gains exactly this user under this name |
| ReverseDeps.ResolveRdependsTask.AddNames | pkg/v2/installer/rdepend.go:66-92 | the package is a user of exactly these names more |
| ReverseDeps.ResolveRdependsTask.ResolveRuntime | pkg/v2/installer/rdepend.go:61-100 | after any sequence of requests the matches hold each name once, and exactly the names to which a chain of users leads from a request, each requiring or providing the one before |
| ReverseDeps.ResolveRdependsTask.RecursiveResolveRdep | pkg/v2/installer/rdepend.go:102-133 | a search adds nothing it does not have to, and all users of what it adds; the matches only grow |
| ReverseDeps.NothingDangles | pkg/v2/installer/rdepend.go:61-133 | no package left behind requires or provides a removed name |
| ReverseDeps.RemovedMeans | pkg/v2/installer/rdepend.go:61-133 | a package is removed if and only if a chain of packages, each requiring or providing the one before, leads to it from a request |
| ReverseDeps.LeastClosedIsUnique | pkg/v2/installer/rdepend.go:61-133 | the order of the requests does not matter |
| ReverseDeps.RequestExtends | pkg/v2/installer/rdepend.go:61-133 | a further request extends the closure of the earlier ones to the closure of all |
| Formulas.Builder.BuildFormula | pkg/solver/solver_v2.go:55-184 | the recursive builder emits exactly the clauses of the packages it visits, and visits everything reachable; with a shared or a fresh visited map |
| Formulas.Builder.AddRequires | pkg/solver/solver_v2.go:85-135 | all clauses of the requires, and everything they lead to |
| Formulas.Builder.AddConflicts | pkg/solver/solver_v2.go:137-181 | all clauses of the conflicts, and everything they lead to |
| Formulas.Builder.AddRequire | pkg/solver/solver_v2.go:85-135 | the clauses of one require: a selector that matches leads no further, any other require is visited |
| Formulas.Builder.AddConflict | pkg/solver/solver_v2.go:137-181 | the clauses of one conflict, whose targets are visited |
| Formulas.VersionFormulas | pkg/solver/solver_v2.go:68-83 | one clause for each other version of the package |
| Formulas.BuildWorldV2 | pkg/solver/solver_v2.go:188-230 | one shared visited map: for every world order the formulas are exactly the clauses of the reachable packages |
| Formulas.BuildWorldV1 | pkg/solver/solver.go:107-127 | a fresh visited map per package: again exactly the clauses of the reachable packages |
| Formulas.SelectorFormulas | pkg/package/package.go:1113-1132 | at most one and at least one of the packages a selector matches |
| Formulas.SameLocal | pkg/package/package.go:1037-1204 | the two builders agree on a package if and only if it is stored or its name has not exactly one stored version |
| Formulas.PairClause | pkg/solver/solver_v2.go:55-184 | V2 forbids an undefined requirement beside the only stored version of its name if and only if that version has a conflict with it |
| Formulas.SameWorld | pkg/package/package.go:1037-1208 | the two builders emit the same clauses for a world if and only if every stored package that is the only version of an undefined requirement has a conflict with that requirement |
| Formulas.UndefinedRequirementDiffers | pkg/package/package.go:1055-1068 | a world on which they differ |
| Formulas.SelectorRequireMeans | pkg/solver/solver_v2.go:97-118 | the clauses of a selector mean exactly one of the selected packages |
| Formulas.SelectedAre | pkg/solver/solver_v2.go:97-118 | a requirement with a comparison in its version selects the stored versions of its own package that the comparison accepts, any other itself |
| Formulas.LocalMeans | pkg/solver/solver_v2.go:55-184 | the clauses of an installed package hold exactly if its requires are met, no conflict is installed and no other version of it is |
| Formulas.WorldMeansValidInstallation | pkg/solver/solver_v2.go:188-230 | without provides, and with every requirement and conflict stored: an assignment satisfies the world exactly if each stored package in it has, for a require with a comparison, exactly one stored version of the required package that the comparison accepts, any other require itself, no stored package of its conflicts and no other version of itself |
| Formulas.WantedFormulas | pkg/solver/solver_v2.go:282-306 | every wanted package, and every installed one if anything is wanted |
| Formulas.BuildFormulaV2 | pkg/solver/solver_v2.go:270-314 | the models of the formula are exactly the valid installations with all wanted packages and, if anything is wanted, all installed ones |
| Formulas.BuildFormulaV1 | pkg/solver/solver.go:653-688 | the same models |
| MemoryDatabase.RunIsValid | pkg/package/database_mem.go:188-248 | after every run of creates, updates and removals the cached versions are all stored |
| MemoryDatabase.DatabaseHolds | pkg/package/database_mem.go:188-504 | after every run a fingerprint is stored if and only if some operation created or updated it and no later one removed it, and what is stored is what the last such operation wrote |
| MemoryDatabase.StaysComplete | pkg/package/database_mem.go:217-248 | one operation keeps a complete cache complete if and only if it creates a new or a stored fingerprint, updates a stored one, or removes |
| MemoryDatabase.RunStaysComplete | pkg/package/database_mem.go:188-248 | the cache is complete all along a run if and only if every operation of it is of that kind |
| MemoryDatabase.CreatedAgainIsLost | pkg/package/database_mem.go:217-248 | a package created again after its removal is stored but found by no selector |
| MemoryDatabase.InMemoryDatabase.CreatePackage | pkg/package/database_mem.go:188-207 | a known fingerprint is stored again but does not go through the cache again |
| MemoryDatabase.InMemoryDatabase.PopulateCaches | pkg/package/database_mem.go:217-248 | a fingerprint goes through the cache once |
| MemoryDatabase.InMemoryDatabase.UpdatePackage | pkg/package/database_mem.go:417-427 | the stored package is replaced by the new content, the cache does not change |
| MemoryDatabase.InMemoryDatabase.RemovePackage | pkg/package/database_mem.go:496-504 | the package leaves store and cache, but its fingerprint stays known to the cache |
| MemoryDatabase.InMemoryDatabase.FindPackages | pkg/package/database_mem.go:377-415 | for a selector: fails exactly for a name that was never cached, never with a cache mismatch, and otherwise finds the cached versions that match, as they are stored |
| MemoryDatabase.AnswerHolds | pkg/package/database_mem.go:377-415 | after every run a selector query fails if and only if no version of the name was ever created; otherwise it finds exactly the matching packages created for good, each as the last operation on it wrote it |
| MemoryDatabase.BoltFindPackages | pkg/package/database_boltdb.go:484-516 | the scan finds exactly the stored packages of the name whose version matches |
| MemoryDatabase.CacheRefinesScan | pkg/package/database_mem.go:377-415 | over every run that creates no removed fingerprint again and updates only stored packages, both databases find the same packages for every selector |
| MemoryDatabase.CacheHolds | pkg/package/database_mem.go:188-248 | after any run the cache holds exactly the fingerprints created and never removed since they were created first |
| MemoryDatabase.AnswersAgreeIff | pkg/package/database_mem.go:377-415 | after any run both databases give the same answers to all selectors if and only if every stored fingerprint is one of those |
| CategoryScan.StepKeepsInv | pkg/v2/repository/wagon_stones.go:257-370 | every step of launcher and workers keeps the permits, the workers and the answer consistent |
| CategoryScan.NeverStuck | pkg/v2/repository/wagon_stones.go:690-759 | no deadlock for any concurrency of at least one and any number of categories: a worker gives its permit back before it sends |
| CategoryScan.StepMakesProgress | pkg/v2/repository/wagon_stones.go:690-759 | every step leaves exactly one step less to do |
| CategoryScan.RunKeepsInv | pkg/v2/repository/wagon_stones.go:690-759 | the invariant over whole runs, with the number of steps left |
| CategoryScan.ScansAreBounded | pkg/v2/repository/wagon_stones.go:690-759 | at every point of every run the permits left and the workers that scan add up to the concurrency |
| CategoryScan.EveryRunDelivers | pkg/v2/repository/wagon_stones.go:690-759 | under every schedule a run has at most 4n + 2 steps and ends with one response per category, in launch order, all workers gone and all permits returned |
| CategoryScan.AnswerIsComplete | pkg/v2/repository/wagon_stones.go:740-750 | the collected answer holds the hits of all categories if and only if every category with a hit answered without an error |
| CategoryScan.AnswerInOrder | pkg/v2/repository/wagon_stones.go:740-750 | the answers of the categories stand one after the other in launch order, and a failed category adds nothing |
| CategoryScan.FinishedAnswer | pkg/v2/repository/wagon_stones.go:690-759 | the same for the answer of every finished search, under every schedule |
| CategoryScan.UnreadableCategoryIsSilent | pkg/v2/repository/wagon_stones.go:690-759 | a finished search over a category that cannot be read, with an empty answer |
| ProvidesIndex.ExplodeMetadata | pkg/v2/repository/wagon.go:304-417 | the index lists under each name exactly the artefacts of the catalogue that are in the tree and provide it; for a catalogue that covers the tree it is the index of the tree |
| ProvidesIndex.AddProvides | pkg/v2/repository/wagon.go:360-385 | the artefact is listed under everything it provides; other entries stay |
| ProvidesIndex.AnalyzePackageDir | pkg/v2/repository/wagon_stones.go:372-609 | fails for a directory that cannot be analysed; otherwise an artefact is found if it is neither masked nor hidden, unless asked for, and answers a request by itself or by a provide |
| ProvidesIndex.AnalyzeCatDir | pkg/v2/repository/wagon_stones.go:257-370 | a worker fails exactly if something in its category cannot be read, else it answers with the hits of the category |
| ProvidesIndex.ScanCategories | pkg/v2/repository/wagon_stones.go:614-759 | the hits of the requested categories, or of all, as far as the categories can be read |
| ProvidesIndex.SearchProvides | pkg/v2/repository/wagon_stones.go:778-843 | the artefacts the index lists for the requested names, added to those found; fails exactly if the index or a listed directory cannot be read |
| ProvidesIndex.AnalyzeListed | pkg/v2/repository/wagon_stones.go:808-835 | the listed directories that are hits and were not found before |
| ProvidesIndex.HitIsReachable | pkg/v2/repository/wagon_stones.go:614-843 | whatever the whole-tree scan finds is in a requested category or in the index |
| ProvidesIndex.SearchArtifacts | pkg/v2/repository/wagon_stones.go:614-776 | fails exactly for an unreadable index or a listed directory that cannot be analysed; otherwise finds exactly the artefacts of the tree that are neither masked nor hidden, unless asked for, that provide a requested package or are one with an admitted version, and that lie in a scanned category without a failure or, for the shortcut, are listed in the index under a requested name |
| ProvidesIndex.SearchIsComplete | pkg/v2/repository/wagon_stones.go:614-843 | a search without an error, with or without the shortcut, finds all hits of the tree if and only if each lies in a category that can be read or, for the shortcut, is provided under a requested name |
| HashTree.JoinedIsInjective | pkg/solver/decoder.go:299-314 | the hashed text determines its lines |
| HashTree.HashIdentifiesContents | pkg/solver/decoder.go:299-314 | two hashes are equal if and only if the installed packages, their build specifications and their order are, if the digest tells the two texts apart |
| HashTree.LineIsInjective | pkg/solver/decoder.go:69-77 | the hashed line of an installed package determines the package and its salt |
| HashTree.SaltedAssertionHash | pkg/solver/decoder.go:299-314 | the digest of one line for each installed package |
| HashTree.Drop | pkg/solver/decoder.go:316-325 | the list without the assertions of that fingerprint, in order |
| HashTree.OneDropped | pkg/solver/decoder.go:316-325 | with distinct fingerprints only the package asked for is dropped, and the others keep their order |
| HashTree.Cut | pkg/solver/decoder.go:328-340 | the installed assertions up to and including the first of that fingerprint, or all |
| HashTree.TrueLen | pkg/solver/decoder.go:259-268 | the number of installed assertions |
| HashTree.Mark | pkg/solver/decoder.go:343-354 | the assertions of that fingerprint carry the marked name |
| HashTree.SaltedHashFrom | pkg/solver/decoder.go:281-297 | the hash of what remains without the package; if nothing remains, of the list with the package marked, whose salt the marked name inherits |
| HashTree.SaltOf | pkg/compiler/imagehashtree.go:135-149 | each package is salted with the hash of its own build specification |
| HashTree.ComputeSalts | pkg/compiler/imagehashtree.go:135-149 | fails exactly if some specification has no hash; otherwise the salts of all installed packages |
| HashTree.HashOne | pkg/compiler/imagehashtree.go:151-163 | with distinct fingerprints the two hashes of the i-th installed package are those of the first i and the first i+1 |
| HashTree.HashNext | pkg/compiler/imagehashtree.go:151-163 | one round of the loop extends the chain by the next installed package |
| HashTree.HashAll | pkg/compiler/imagehashtree.go:151-163 | every installed package is hashed, in order, and the chain holds |
| HashTree.Resolve | pkg/compiler/imagehashtree.go:129-165 | fails exactly if some specification has no hash; otherwise every installed package gets the hash of the prefix before it and of the prefix up to it |
| HashTree.ChainMeans | pkg/compiler/imagehashtree.go:129-165 | told by names, versions and specifications: the hash of the i-th package is the digest of one line with its salt for each of the first i, its build hash that of the lines before, and for the first package that of its own line under the marked name |
| HashTree.Search | pkg/solver/decoder.go:137-147 | an installed assertion of that fingerprint, if there is one |
| HashTree.DependencyTags | pkg/compiler/imagehashtree.go:91-107 | the image tag of every dependency, and the image of the last |
| HashTree.TagOf | pkg/compiler/imagehashtree.go:91-107 | with distinct fingerprints every dependency is found under its name, category and version: the image it was built on if its specification names one, and otherwise its tag under the hash of the target |
| HashTree.BuiltOnPredecessor | pkg/compiler/imagehashtree.go:151-163 | each package after the first is built on exactly the image its predecessor produced |
| HashTree.Query | pkg/compiler/imagehashtree.go:80-117 | succeeds if and only if the package is installed and all specifications needed are readable; with distinct fingerprints the target is the installed package asked for, the dependencies are the others in order, with both hashes of every package as `ChainMeans` tells them and the image tag of every dependency; the source is the image of the last dependency |
| HashTree.SourceIsBuildImage | pkg/compiler/imagehashtree.go:80-117 | when the target closes the solution, its source image is the one it is built on |
| HashTree.SourceIsOtherImage | pkg/compiler/imagehashtree.go:80-117 | when it does not, the source image is another one, if the digest tells the texts of the solution apart |
| HashTree.MarkInheritsSalt | pkg/solver/decoder.go:281-297 | the marked name has the salt of the first package |
| FileConflicts.ArtifactsManager.BuildIndexFiles | pkg/v2/installer/manager.go:652-676 | the index holds exactly the paths owned by installed packages, each with an owner; an existing index is kept |
| FileConflicts.ArtifactsManager.IndexPackage | pkg/v2/installer/manager.go:666-671 | exactly the files of the package become its own |
| FileConflicts.ArtifactsManager.ExistsPackageFile | pkg/v2/installer/manager.go:638-650 | the owner of a path, if it is known |
| FileConflicts.ArtifactsManager.FilesToRemove | pkg/v2/installer/manager.go:494-508 | the paths freed by the removals, from the artefact or else from the database |
| FileConflicts.ArtifactsManager.InstallPackage | pkg/v2/installer/manager.go:374-399 | the files of the artefact are on disk |
| FileConflicts.ArtifactsManager.CheckSystemFile | pkg/v2/installer/manager.go:538-570 | a path is blocked if it is on disk, not freed and owned |
| FileConflicts.ArtifactsManager.CheckFile | pkg/v2/installer/manager.go:519-572 | one path: a repeated path is reported before a blocked one |
| FileConflicts.ArtifactsManager.CheckArtifact | pkg/v2/installer/manager.go:516-574 | one artefact: stops at the first conflict outside safe mode, else goes on |
| FileConflicts.ArtifactsManager.CheckFileConflicts | pkg/v2/installer/manager.go:473-595 | fails if and only if safe mode is off and an artefact lists a path twice, two artefacts share one, or one is on disk, owned by an installed package or in the retained index, and given up by no removal; reports the first such path, with the owner in the index, which is one in the database unless a retained index is stale; in safe mode says whether there was one; a failure keeps the index |
| FileConflicts.GateMeans | pkg/v2/installer/manager.go:473-595 | the gate passes exactly if no artefact lists a path twice, no two share one and none is in the way: on disk, known to be owned, and in no list of a removal, its own or, if that is empty, the registered one |
| FileConflicts.PassKeepsSingleOwner | pkg/v2/installer/manager.go:473-595 | with every registered file on disk, carrying out a plan that passed, in any order, leaves every file with one owner |
| FileConflicts.PassIsSafeIfSeen | pkg/v2/installer/manager.go:473-595 | without that premise: a plan of new packages that passed leaves every file with one owner if and only if every owned path to install that is not freed is on disk and the system is checked |
| FileConflicts.GateIsExact | pkg/v2/installer/manager.go:473-595 | for new packages the gate passes if and only if the plan leaves every file with one owner and no artefact lists a file twice |
| FileConflicts.DiskStaysComplete | pkg/v2/installer/manager.go:105-283 | after a plan of new packages that passed every registered file is on disk if and only if no file that moves to a new package is deleted later with the old one |
| FileConflicts.MovedFileIsDeleted | pkg/v2/installer/manager.go:105-283 | a plan that passes and loses a file that moves from one package to another |
| FileConflicts.RetainedIndexBlocksTheSame | pkg/v2/installer/manager.go:538-583 | a retained index gives the same result as none, for every disk and all removals, if and only if its paths are the owned ones |
| FileConflicts.RunLeaves | pkg/v2/installer/manager.go:285-471 | after any run of registrations and removals a package has the files of its last registration, or is untouched |
| FileConflicts.RunHolds | pkg/v2/installer/manager.go:285-471 | after any run the database holds for each package what the last operation on it left: an addition its file list, a removal nothing, not even the list |
| FileConflicts.DiskHolds | pkg/v2/installer/manager.go:285-471 | after any run a file is on disk if and only if the last operation that unpacks or deletes it unpacks it, or there is none and it was there |
| FileConflicts.ArtifactsManager.RegisterPackage | pkg/v2/installer/manager.go:401-471 | the package is installed and its file list replaces an earlier one of the same fingerprint |
| FileConflicts.ArtifactsManager.RemovePackage | pkg/v2/installer/manager.go:285-337 | the registered files are deleted except those kept, and neither the package nor its file list remains |
| FileConflicts.ArtifactsManager.Execute | pkg/v2/installer/manager_install.go:300-390 | the operations take effect on database and disk one after the other |
| FileConflicts.ArtifactsManager.Transact | pkg/v2/installer/manager_install.go:173-390 | for every setting: fails exactly if nothing is pretended or forced and the plan does not fit; a refusal or a pretended plan changes nothing; for new packages every file has one owner afterwards if and only if no conflict was ignored and the gate saw every owned path; and with the system checked and nothing forced, files, disk and index stay sound if and only if no moved file is deleted late |
| FileConflicts.MissingFileIsNotChecked | pkg/v2/installer/manager.go:538-570 | a registered file that is missing from the disk escapes the gate and ends up with two owners |
| FileConflicts.RefusalLeavesStaleIndex | pkg/v2/installer/manager.go:538-583 | a check that refuses, a removal, and a second check that refuses because of the owner that is gone, although it would pass without the retained index |

## Left out

Stated weaker than the source, or for a part of its inputs:

- Sorter.SortPkgsThinArr: takes distinct names, as its callers build the list from name-keyed maps, and replaces the preliminary sort by number of requires and name by an arbitrary permutation, which the results do not depend on.
- Operations.OrderOperations: takes packs in which every name occurs once, as their construction from name-keyed maps yields them.
- Sorter.OffCyclesRespected: a sufficient condition; whether a require off the cycles is lost depends on the order inside the lists of requires.
- Resolver.Solver.ResolvePackage: says when it must succeed only if a version suits after others that are passed at once; in other cases success depends on the order in which the repository is explored.
- Resolver.Solver.ResolveAll: starts after the selection of packages; the choice among several packages that provide the same name, and the reduction of the result with NoDeps, come before and after it.
- Resolver.Solver.AcyclicCandidatesAreClosed: speaks of the version whose requires were checked, not of the head that is installed, because the code does not install the former.
- Formulas.WorldMeansValidInstallation: takes a world without provides in which every requirement and conflict names a stored package.
- Formulas.BuildFormulaV2: leaves out includeInstalled, which BuildFormula never sets.
- MemoryDatabase.InMemoryDatabase.FindPackages: for selectors and packages without provides only; for these the comparison with a version never fails.
- ProvidesIndex.SearchArtifacts: with the package filter only; the order and the multiplicity of the results are not stated, and which directories cannot be analysed is given.
- HashTree.Resolve: the chain is stated for solutions whose installed packages have distinct fingerprints.
- HashTree.Query: a package that the solution does not install, for which the source dereferences nil, is a failure.
- HashTree.HashIdentifiesContents: takes categories without slashes, names and versions without spaces, and no line breaks.
- ProvidesIndex.ExplodeMetadata: leaves out the merging of definitions.
- FileConflicts.GateIsExact: takes new packages, installed packages whose files have one owner each and are on disk, and removal lists that agree with the database.
- FileConflicts.ArtifactsManager.RegisterPackage: database errors, after which a file list may stand without its package, do not occur.
- FileConflicts.ArtifactsManager.RemovePackage: database errors do not occur, and directories are not pruned.
- FileConflicts.ArtifactsManager.Execute: without errors of single operations, after which the source stops or, when forced, goes on.

Not modelled:

- Aliasing of Go slices and nil pointers inside lists; the identity of a package is its name, which `Packages.PackageNameIdentifiesAtom` justifies.
- The Gentoo, semantic and Debian version parsers and the version order: parameters of the model.
- The provides of the in-memory database (getProvide), reverse-dependency maps in the database, Clean.
- The SAT solver, the Q-learning resolver, the upgrade, uninstall and universe routines of pkg/solver.
- The version 2 upgrade solver, whose steps end in the modelled resolver and plan.
- Archive formats, downloads, finalizers, pruning of directories, how protected paths are computed, locking.
- Regular-expression, label, annotation and file filters of the search.
- Commands, configuration, logging, encodings.
