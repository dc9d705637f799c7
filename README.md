# Fabric mod binary search, modelled in Dafny

This project models the core of a tool that finds which Fabric mod in a Minecraft mods folder
causes a problem. It searches by bisection. The tool keeps every discovered mod in one of several lists:
- *working mods*, cleared of suspicion;
- *candidate mods*, still suspected;
- *testing mods*, the candidates enabled for the next trial;
- *testing dependencies*, the working mods enabled because the testing mods need them;
- in the newer engine, *force-enabled* mods.

After each trial the user reports success (the problem is gone) or failure. The engine folds
that answer into the lists. It stops when one candidate (the culprit) or none is left.
Otherwise it picks the next half of the candidates. Each mod it picks has its dependencies
resolved, so that the trial can load.

The repository holds two engines, and both are modelled:

- `SearchHandler` (`search_handler.dfy`) is the newer engine.
  - Dependency resolution is recursive and tries the working mods before the candidates.
  - It counts iterations, supports force-enabled mods, and reports fatal and missing-dependency conditions.
  - Its `parseMod` strips the dependencies a mod provides itself.
- `SearchGui` (`search_gui.dfy`) is the older engine, which the program's entry point launches.
  - Its resolution is one level deep: only the chosen mod's own dependencies are resolved.
  - It tries candidates before working mods.
  - Its `parseMod` does no pruning.

The two engines share:
- the mod record and provider lookups (`mod_model.dfy`);
- the decoded `fabric.mod.json` tree (`fabric_mod_json.dfy`);
- the lists as a value, the fold, the closure predicates and the stable sort (`pools.dfy`).

`ModSearchComparator` (`mod_search_comparator.dfy`) models the comparator. It is proved
inconsistent, with a corrected version (see "Findings").

What is proved, in brief:
- **Pool invariant.** Every discovered mod is working, a candidate or under test. Every testing
  dependency and force-enabled mod is a working mod. Every operation keeps this.
- **Unreachable fatal branches.** Under the pool invariant, the "Mod gone wot" and "I did an
  oops" branches cannot be reached.
- **Resolution.** It terminates, on a lexicographic measure: the number of candidates, then the
  number of working mods not yet testing dependencies.
  - It adds a mod only for an id that is called for and that the trial does not yet provide.
    The mods added are listed in the order they join the trial.
    - In the newer engine, each mod added provides an id that the resolved mod, or a mod added
      before it, depends on. No mod already in the trial and no mod added before it provides
      that id.
    - In the older engine, each mod added provides one of the chosen mod's own dependencies that
      nothing in the trial provides when it is added.
    - So neither engine adds a second provider for an id, and neither adds a provider for an id
      the trial already has. A mod whose dependencies the trial already provides (none beyond the
      platform, say) adds nothing.
  - Afterwards every dependency of the resolved mod is *satisfied*: it is a platform id, the
    trial provides it, or no working mod and no candidate provides it.
  - Resolution only appends to the testing lists. It moves candidates into testing and copies
    working mods into the testing dependencies.
- **Bisect.** It folds the trial exactly as the source does and reports the terminal cases.
  - Otherwise it sorts ascending by dependency count, stably, and takes at least half of the
    sorted candidates. The first one taken is the sorted front.
  - The remaining candidates and the testing mods stay a permutation of the sorted candidates,
    and the remaining candidates keep their sorted order.
  - The whole history of the partition loop is stated. Every round started with fewer than half
    of the candidates under test and moved the front of the remaining sorted candidates. It
    added providers only for that mod's dependencies that the trial lacked, in the sense above.
    The loop's overshoot therefore comes only from its last round. In the newer engine, the pass
    over the force-enabled mods that follows may add further candidates, again only for ids
    those mods need and the trial lacks.
  - Suppose each mod of the first half of the sorted candidates needs only ids that it or a mod
    before it provides. Then the trial is exactly that half, and the second half stays as the
    candidates (`FrontHalfTested`, one per engine). Two six-mod cases show it:
    - only the last mod needs an id that no mod provides: the first trial tests exactly the first
      three (`SixModsFirstHalf`);
    - `t` provides "d", `m` depends on "d" and `x` provides it too: the first trial tests `t`, `m`
      and `y`, and `x` is not pulled in for "d" (`ProvidedDependencySkipped`).
  - When the user answers honestly, the culprit is never lost.
- **Drained candidates.** Nothing retries a partition that empties the candidates. Two mods
  that depend on each other show it.
- **Parsing.** `parseMod`'s normalisation is characterised exactly over the decoded tree.

Some behaviours of the code are worth stating plainly, because a reader might expect otherwise:
- Nothing retries a partition that drains the candidates. When the loop pulls every remaining
  candidate into the trial, the trial runs with no candidate left untested.
  `SearchHandler.EntangledPairEmptiesCandidates` shows the drained state that results.
- Ids and dependencies come from `fabric.mod.json` as declared. No table overrides them.
- The lists are not pairwise disjoint, so the invariant proved is the covering one above:
  - a testing dependency stays a working mod, because it is copied, not moved;
  - a force-enabled mod is appended to the working mods, and if it is under test it stays in
    testing, because `forceEnable` removes it only from the candidates.
- The comparator is not antisymmetric (see "Findings").
- `Mod.java` declares a stale record `Mod(id, dependencies, filename)`. The engines use a record with
  `name`, `mainId`, `ids`, `dependencies` and `filename`, and the model uses that record.
  - `SearchHandler.parseMod` constructs it without a main id; the model sets the main id to the `id` field.
  - `SearchGui.parseMod` constructs it without a name or main id; the model uses the `id` field for both.

## Model

| member | source | states |
|---|---|---|
| ModModel.FirstProvider | src/main/java/com/skycatdev/binarysearchtool/SearchHandler.java:82-98 | the index of the first mod of a list that provides an id, -1 exactly when none does; no earlier mod provides it |
| ModModel.FindProvider | src/main/java/com/skycatdev/binarysearchtool/SearchGui.java:312-326 | the indexed search loop returns exactly the first provider, or -1 |
| ModModel.RemoveAt | src/main/java/com/skycatdev/binarysearchtool/SearchHandler.java:91-92 | `remove(i)` shortens the list by one and removes exactly the element at `i` from its multiset |
| ModModel.RemoveFirst | src/main/java/com/skycatdev/binarysearchtool/SearchHandler.java:271 | `remove(Object)` leaves a list without the mod unchanged; otherwise it removes exactly one copy and keeps every other element |
| ModModel.RemoveAtSubsequence | src/main/java/com/skycatdev/binarysearchtool/SearchHandler.java:91-92 | `remove(i)` keeps the other elements in their order |
| ModModel.SubsequenceTransitive | src/main/java/com/skycatdev/binarysearchtool/SearchHandler.java:91-92 | removals compose: the order kept by two removals in a row is kept overall |
| ModSearchComparator.CompareToIsLexicographic | src/main/java/com/skycatdev/binarysearchtool/ModSearchComparator.java:11 | `String.compareTo` is negative exactly when the first string precedes the second lexicographically |
| ModSearchComparator.CompareToZeroIffEqual | src/main/java/com/skycatdev/binarysearchtool/ModSearchComparator.java:11 | `compareTo` is zero exactly on equal strings |
| ModSearchComparator.CompareToAntisymmetric | src/main/java/com/skycatdev/binarysearchtool/ModSearchComparator.java:11 | swapping the strings negates `compareTo` |
| ModSearchComparator.CompareToTransitive | src/main/java/com/skycatdev/binarysearchtool/ModSearchComparator.java:11 | `compareTo` order is transitive |
| ModSearchComparator.CompareTo | src/main/java/com/skycatdev/binarysearchtool/ModSearchComparator.java:11 | `String.compareTo` as a recursive definition. Its meaning is stated by the four `CompareTo…` lemmas: negative exactly on lexicographic precedence, zero exactly on equal strings, antisymmetric and transitive |
| ModSearchComparator.Compare | src/main/java/com/skycatdev/binarysearchtool/ModSearchComparator.java:7-12 | `compare` as written. Its meaning is stated by `CompareCases`, `CompareZero`, `CompareReflexive`, `CompareEqualCounts` and `CompareNotAntisymmetric` |
| ModSearchComparator.CompareReflexive | src/main/java/com/skycatdev/binarysearchtool/ModSearchComparator.java:7-12 | a mod compares equal to itself |
| ModSearchComparator.CompareCases | src/main/java/com/skycatdev/binarysearchtool/ModSearchComparator.java:8-11 | more dependencies gives -1; fewer dependencies falls through to the lexicographic main-id order |
| ModSearchComparator.CompareEqualCounts | src/main/java/com/skycatdev/binarysearchtool/ModSearchComparator.java:11 | with equal dependency counts the order is lexicographic on main ids and antisymmetric |
| ModSearchComparator.CompareZero | src/main/java/com/skycatdev/binarysearchtool/ModSearchComparator.java:8-11 | the result is 0 exactly when the main ids collide and o1 has no more dependencies than o2 |
| ModSearchComparator.CompareNotAntisymmetric | src/main/java/com/skycatdev/binarysearchtool/ModSearchComparator.java:7-12 | two concrete mods that each compare before the other |
| ModSearchComparator.CorrectedAntisymmetric | src/main/java/com/skycatdev/binarysearchtool/ModSearchComparator.java:8 | the "most dependencies first" order is antisymmetric, and 0 only for equal counts and equal main ids |
| ModSearchComparator.CorrectedTransitive | src/main/java/com/skycatdev/binarysearchtool/ModSearchComparator.java:8 | the corrected order is transitive |
| FabricModJson.LastIndexOf | src/main/java/com/skycatdev/binarysearchtool/SearchHandler.java:350 | `lastIndexOf(".jar")`: -1 or an occurrence, with no occurrence after it |
| FabricModJson.OwnIdsOf | src/main/java/com/skycatdev/binarysearchtool/SearchHandler.java:326-335 | the id and every `provides` alias are collected, and nothing else |
| FabricModJson.NestedJarNameHasExtension | src/main/java/com/skycatdev/binarysearchtool/SearchHandler.java:362 | the temporary file a nested jar is copied to always has a `.jar` extension |
| SearchHandler.ParseMod | src/main/java/com/skycatdev/binarysearchtool/SearchHandler.java:305-381 | no `fabric.mod.json` gives no mod; a missing id anywhere in the tree or a file name without `.jar` fails; otherwise ids = id ∪ provides ∪ every nested id, deps = every declared dependency less those ids (so disjoint from them), name defaults to id, file name cut before the last `.jar` |
| SearchGui.ParseMod | src/main/java/com/skycatdev/binarysearchtool/SearchGui.java:197-250 | the same tree walk without pruning: deps = every declared dependency; a missing `.jar` fails only after the nested jars, at the substring cut |
| Pools.Discovered | src/main/java/com/skycatdev/binarysearchtool/SearchHandler.java:221-234 | after discovery every mod is a candidate and the pool invariant holds |
| Pools.Fold | src/main/java/com/skycatdev/binarysearchtool/SearchHandler.java:135-143 | the fold, shared by both engines (the same code is at SearchGui.java:272-280). Its meaning is stated by `FoldCovered`, `FoldKeepsCulprit` and `FoldFirstTrial` |
| Pools.FoldCovered | src/main/java/com/skycatdev/binarysearchtool/SearchHandler.java:135-143 | the fold keeps the pool invariant, empties both testing lists and adds no new suspect |
| Pools.FoldKeepsCulprit | src/main/java/com/skycatdev/binarysearchtool/SearchHandler.java:135-141 | an honestly reported culprit is still a candidate after the fold |
| Pools.FoldFirstTrial | src/main/java/com/skycatdev/binarysearchtool/SearchGui.java:272-273 | the first `bisect(true)`, over empty testing lists, leaves the lists unchanged |
| Pools.ExtendsTransitive | src/main/java/com/skycatdev/binarysearchtool/SearchHandler.java:69-122 | resolution steps compose: two steps of appending, moving candidates (keeping the order of those left) and copying working mods are one such step |
| Pools.SatisfiedMonotone | src/main/java/com/skycatdev/binarysearchtool/SearchHandler.java:72-78 | a dependency once satisfied stays satisfied under later resolution |
| Pools.ClosedMonotone | src/main/java/com/skycatdev/binarysearchtool/SearchHandler.java:69-122 | a mod whose dependencies are all satisfied stays so under later resolution |
| Pools.ClosedFromKept | src/main/java/com/skycatdev/binarysearchtool/SearchHandler.java:69-122 | mods already in the trial with their dependencies satisfied stay so when resolution closes what it appends |
| Pools.ExtendsCovered | src/main/java/com/skycatdev/binarysearchtool/SearchHandler.java:86-94 | moving candidates into testing and copying working mods keeps the pool invariant |
| Pools.CulpritKept | src/main/java/com/skycatdev/binarysearchtool/SearchHandler.java:135-171 | after the fold and any resolution an honestly reported culprit is a candidate or under test |
| Pools.InsertByDepsSorted | src/main/java/com/skycatdev/binarysearchtool/SearchHandler.java:161 | inserting into a list sorted by dependency count keeps it sorted |
| Pools.SortByDeps | src/main/java/com/skycatdev/binarysearchtool/SearchHandler.java:161 | `sort(comparing(deps().size()))` yields an ascending permutation of its input |
| Pools.SortByDepsStable | src/main/java/com/skycatdev/binarysearchtool/SearchHandler.java:161 | the sort is stable: mods with the same dependency count keep their relative order |
| Pools.SortByDepsSorted | src/main/java/com/skycatdev/binarysearchtool/SearchHandler.java:161 | sorting a list already in ascending dependency order leaves it unchanged |
| Pools.ResolvedChain | src/main/java/com/skycatdev/binarysearchtool/SearchHandler.java:69-122 | two resolutions in a row make one: every mod the second adds serves an id the trial, including what the first added, lacked when it joined |
| Pools.ResolvedPull | src/main/java/com/skycatdev/binarysearchtool/SearchHandler.java:82-99 | a provider pulled in for a needed id the trial lacks, followed by the resolution of its own dependencies, is a resolution of that id in which each added mod serves an id the trial lacked |
| Pools.NothingWanted | src/main/java/com/skycatdev/binarysearchtool/SearchHandler.java:69-122 | a resolution of ids the trial already provides (none at all, say) adds nothing and changes no list |
| Pools.WantedUnheld | src/main/java/com/skycatdev/binarysearchtool/SearchHandler.java:72-78 | an id that passes the skip checks (not a platform id, no testing mod or testing dependency provides it) is not among the ids the trial provides |
| Pools.TrialAdded | src/main/java/com/skycatdev/binarysearchtool/SearchHandler.java:69-122 | after a resolution the trial provides exactly what it provided before plus what the added mods provide |
| Pools.AddedMembers | src/main/java/com/skycatdev/binarysearchtool/SearchHandler.java:69-122 | every mod resolution adds ends up in testing or in the testing dependencies |
| Pools.DirectForOne | src/main/java/com/skycatdev/binarysearchtool/SearchGui.java:312-322 | a single provider pulled in for an id is there for that id |
| Pools.PulledWorking | src/main/java/com/skycatdev/binarysearchtool/SearchHandler.java:82-89 | copying a working provider of an id the trial lacks and resolving its dependencies extends the lists, puts the provider at the first new index of the testing dependencies, adds only providers of ids the trial lacked, and keeps the trial closed |
| Pools.PulledCandidate | src/main/java/com/skycatdev/binarysearchtool/SearchHandler.java:90-99 | moving a candidate provider of an id the trial lacks and resolving its dependencies extends the lists, puts the provider at the first new index of testing, adds only providers of ids the trial lacked, and keeps the trial closed |
| Pools.DependencyRound | src/main/java/com/skycatdev/binarysearchtool/SearchHandler.java:72-121 | one pass of the loop over a mod's dependencies keeps earlier dependencies satisfied and the trial closed; every mod added so far serves a dependency of the mod, or of a mod added before it, that the trial lacked when it joined |
| Pools.ProvidedRound | src/main/java/com/skycatdev/binarysearchtool/SearchHandler.java:166-170 | when the trial with the front candidate moved in already provides every dependency of that candidate, a partition round moves exactly that candidate and nothing else: the trial grows by one as a prefix of the sorted list |
| Pools.FrontRoundsGrow | src/main/java/com/skycatdev/binarysearchtool/SearchHandler.java:164-170 | the round history grows by one round taken below half that moved the front of the remaining candidates and added providers only for ids that mod needs and the trial lacked |
| Pools.StepSplit | src/main/java/com/skycatdev/binarysearchtool/SearchHandler.java:164-170 | when each of the first half of the sorted list needs only ids that it or one before it provides, a round taken below half keeps the trial a prefix of the sorted list of at most half |
| Pools.PartitionStep | src/main/java/com/skycatdev/binarysearchtool/SearchHandler.java:164-170 | a round taken below half keeps the partition invariant: the round history grows by one round that moved the front of the remaining sorted candidates and added providers only for ids that mod needs and the trial lacked; the trial starts with the sorted front; when each of the first half of the sorted candidates needs only what it or one before it provides, the trial is a prefix of at most half |
| Pools.PartitionDone | src/main/java/com/skycatdev/binarysearchtool/SearchHandler.java:164 | when the loop condition fails, the lists are partitioned: at least half of the candidates under test after at least one round, every round having taken the front of the remaining sorted candidates and added providers only for ids the trial lacked, and exactly the first half of the sorted list when that half provides in order all it needs |
| Pools.FrontHalfPartitioned | src/main/java/com/skycatdev/binarysearchtool/SearchHandler.java:161-171 | partitioning discovered mods already in dependency order, each of whose first half needs only ids that it or one before it provides, tests exactly that half and keeps the rest as candidates, with no testing dependency and no working mod; it needs only the split clause every finished partition meets (`HalfSplit`) |
| Pools.ForcedRound | src/main/java/com/skycatdev/binarysearchtool/SearchHandler.java:172-176 | one pass of the loop over the force-enabled mods: the ids the mods so far need are resolved, each added mod serving an id the trial lacked when it joined; the trial stays closed, and each of those mods is closed |
| SearchHandler.SearchHandler.constructor | src/main/java/com/skycatdev/binarysearchtool/SearchHandler.java:24-45 | the engine after discovery: all mods are candidates, no iteration yet |
| SearchHandler.SearchHandler.AddDeps | src/main/java/com/skycatdev/binarysearchtool/SearchHandler.java:69-122 | terminates; keeps the pool invariant; only extends the trial; afterwards every dependency of the mod is satisfied and every mod it added is itself closed; every added mod provides a dependency of the mod, or of a mod added before it, that neither the trial nor an earlier added mod provided, so no id gets two providers and a mod whose dependencies the trial already provides adds nothing |
| SearchHandler.SearchHandler.ResolveDependency | src/main/java/com/skycatdev/binarysearchtool/SearchHandler.java:72-120 | platform and already-provided ids change nothing; a working provider wins and is appended to the testing dependencies; else the first candidate provider moves into testing; else the id is reported missing; the "Mod gone wot" branch is unreachable; every mod added provides the id or a dependency of a mod added before it, and no mod in the trial or added before it provided that id when it joined |
| SearchHandler.SearchHandler.PullWorking | src/main/java/com/skycatdev/binarysearchtool/SearchHandler.java:82-89 | called only for an id the trial lacks: the working provider is appended to the testing dependencies and stays a working mod; its dependencies are resolved; every mod added serves an id the trial lacked when it joined |
| SearchHandler.SearchHandler.PullCandidate | src/main/java/com/skycatdev/binarysearchtool/SearchHandler.java:90-99 | called only for an id the trial lacks: the candidate provider moves into testing (multiset of the two lists preserved); its dependencies are resolved; every mod added serves an id the trial lacked when it joined |
| SearchHandler.SearchHandler.ForceEnable | src/main/java/com/skycatdev/binarysearchtool/SearchHandler.java:265-273 | an already force-enabled mod gives false and no change; otherwise the mod is appended to the force-enabled and working mods, its first copy leaves the candidates, and the answer is true |
| SearchHandler.SearchHandler.FoldTrial | src/main/java/com/skycatdev/binarysearchtool/SearchHandler.java:135-144 | success clears the tested mods, failure clears the untested candidates; both testing lists end empty and the iteration is counted |
| SearchHandler.SearchHandler.Bisect | src/main/java/com/skycatdev/binarysearchtool/SearchHandler.java:127-182 | fold; one candidate left is the reported culprit (iterations +2); none left is fatal; otherwise the sorted candidates are partitioned (every round took the front of the remaining sorted candidates and added providers only for ids that mod needs and the trial lacked; at least half tested, the sorted front first), then the force-enabled pass adds providers only for ids those mods need and the trial lacked, and nothing when the trial already provides all they need; every testing mod, testing dependency and force-enabled mod has its dependencies satisfied, and an honest culprit is kept |
| SearchHandler.SearchHandler.Partition | src/main/java/com/skycatdev/binarysearchtool/SearchHandler.java:161-171 | the sort and the loop partition the candidates: testing reaches half of them, the sorted front first; candidates and testing stay a permutation of the sorted candidates and the candidates keep their order; `removeFirst` never meets an empty list; every round moved the front of the remaining sorted candidates and added providers only for ids that mod needs and the trial lacked; when each of the first half of the sorted candidates needs only ids that it or one before it provides, testing is exactly that half and the rest stay candidates |
| SearchHandler.SearchHandler.FillTrial | src/main/java/com/skycatdev/binarysearchtool/SearchHandler.java:164-170 | the `while` loop over the sorted candidates ends with them partitioned, round by round, each round adding only providers of ids the trial lacked, and keeps the pool invariant and the closed trial |
| SearchHandler.SearchHandler.TestFront | src/main/java/com/skycatdev/binarysearchtool/SearchHandler.java:166-170 | the front candidate is appended to testing and resolved, the other candidates keeping their order; the trial stays closed; every mod added beyond it serves an id that the front mod, or a mod added before it, needs and that the trial lacked when it joined |
| SearchHandler.SearchHandler.ResolveForceEnabled | src/main/java/com/skycatdev/binarysearchtool/SearchHandler.java:172-176 | every force-enabled mod ends with its dependencies satisfied, the trial stays closed, and every mod added provides a dependency of a force-enabled mod, or of a mod added before it, that the trial lacked when it joined |
| SearchHandler.MeasureNonIncreasing | src/main/java/com/skycatdev/binarysearchtool/SearchHandler.java:69-122 | resolution never increases the recursion's termination measure |
| SearchHandler.EntangledPairDrained | src/main/java/com/skycatdev/binarysearchtool/SearchHandler.java:161-171 | for two mutually dependent mods, a closed trial that tests the first has moved the second in too, draining the candidates |
| SearchHandler.EntangledStart | src/main/java/com/skycatdev/binarysearchtool/SearchHandler.java:135-161 | for the discovered pair the first fold changes nothing and the sort keeps the order |
| SearchHandler.EntangledPairEmptiesCandidates | src/main/java/com/skycatdev/binarysearchtool/SearchHandler.java:147-171 | the first `bisect(true)` over two mutually dependent mods tests both and leaves no candidate, with no retry |
| SearchHandler.FrontHalfTested | src/main/java/com/skycatdev/binarysearchtool/SearchHandler.java:147-176 | for discovered mods in dependency order, each of whose first half needs only ids that it or one before it provides, the first `bisect(true)` tests exactly that half, keeps the second half as candidates, and adds no testing dependency |
| SearchHandler.SixModsFirstHalf | src/main/java/com/skycatdev/binarysearchtool/SearchHandler.java:147-176 | six discovered mods a to f, only f depending on an id no mod provides: the first `bisect(true)` tests exactly a, b and c and keeps d, e and f as candidates |
| SearchHandler.ProvidedDependencySkipped | src/main/java/com/skycatdev/binarysearchtool/SearchHandler.java:74-78 | discovered mods t (providing "d"), m (depending on "d"), y, x (also providing "d"), z, w: the first `bisect(true)` tests exactly t, m and y and keeps x, z and w as candidates, because "d" is already provided when m is resolved |
| SearchGui.ChosenClosedGrows | src/main/java/com/skycatdev/binarysearchtool/SearchGui.java:298-338 | the mods chosen from the front stay closed while later rounds resolve |
| SearchGui.DirectStep | src/main/java/com/skycatdev/binarysearchtool/SearchGui.java:304-337 | one more dependency looked up one level deep: every mod added provides one of the dependencies looked up so far that nothing in the trial provided when it joined |
| SearchGui.DirectForAppend | src/main/java/com/skycatdev/binarysearchtool/SearchGui.java:304-337 | appending at most one provider of an id that neither the trial before the loop nor a mod added since provides keeps every added mod serving an id of its own that the trial lacked |
| SearchGui.DirectDependencyRound | src/main/java/com/skycatdev/binarysearchtool/SearchGui.java:304-337 | one pass of the `for` over a chosen mod's dependencies keeps the earlier ones satisfied; every mod added so far, including one for this dependency, provides one of the mod's dependencies that nothing in the trial provided when it joined |
| SearchGui.ChosenPartitionStep | src/main/java/com/skycatdev/binarysearchtool/SearchGui.java:298-338 | a round taken below half keeps this engine's partition invariant: the shared one, every round so far one level deep, adding only providers of the front mod's own dependencies that the trial lacked, with the front of the remaining sorted candidates recorded in order, and the front-chosen mods closed |
| SearchGui.ChosenPartitionDone | src/main/java/com/skycatdev/binarysearchtool/SearchGui.java:298 | when this engine's loop condition fails, the lists are partitioned with every round one level deep, adding only providers of ids the trial lacked, and the chosen front mods closed |
| SearchGui.SearchGui.constructor | src/main/java/com/skycatdev/binarysearchtool/SearchGui.java:43-62 | the window starts with every list empty |
| SearchGui.SearchGui.Start | src/main/java/com/skycatdev/binarysearchtool/SearchGui.java:173-194 | the parsed mods are recorded and all become candidates; on a fresh window the first `bisect(true)` partitions all of them, round by round, from the front of the sorted list, each round adding only providers of ids the trial lacked; when each of the first half of the sorted mods needs only ids that it or one before it provides, exactly that half is tested |
| SearchGui.SearchGui.Bisect | src/main/java/com/skycatdev/binarysearchtool/SearchGui.java:256-357 | fold; one candidate is the "Finished" culprit; none is the fatal "Oops"; otherwise the sorted candidates are partitioned: every round took the front of the remaining sorted candidates and added only providers of that mod's own dependencies that nothing in the trial provided when they joined, so at most one per dependency; at least half tested, the sorted front first; every mod chosen from the front has its dependencies satisfied; an honest culprit is kept |
| SearchGui.SearchGui.FoldTrial | src/main/java/com/skycatdev/binarysearchtool/SearchGui.java:272-280 | the same fold as the newer engine, without an iteration count |
| SearchGui.SearchGui.Partition | src/main/java/com/skycatdev/binarysearchtool/SearchGui.java:296-338 | pulled-in candidates count toward the half target; candidates and testing stay a permutation of the sorted candidates and the candidates keep their order; every round moved the front of the remaining sorted candidates and added only providers of its own dependencies that the trial lacked, at most one each; the chosen front mods are closed; when each of the first half needs only ids that it or one before it provides, testing is exactly that half |
| SearchGui.SearchGui.FillTrial | src/main/java/com/skycatdev/binarysearchtool/SearchGui.java:298-338 | the `while` loop over the sorted candidates ends with them partitioned, round by round, each round adding only providers of ids the trial lacked, and keeps the pool invariant |
| SearchGui.SearchGui.TestFront | src/main/java/com/skycatdev/binarysearchtool/SearchGui.java:300-337 | the front candidate is appended to testing and its own dependencies are satisfied; every mod added beyond it provides one of those dependencies that nothing in the trial, the front mod and the mods added before it included, provided |
| SearchGui.SearchGui.AddDirectDeps | src/main/java/com/skycatdev/binarysearchtool/SearchGui.java:304-337 | after the loop over the chosen mod's dependencies every one is satisfied; each mod added provides one of those dependencies that nothing in the trial provided when it joined, so at most one per dependency and none for an id the trial already had; a mod whose dependencies the trial provides changes nothing; the mods pulled in are not themselves resolved |
| SearchGui.SearchGui.ResolveDirect | src/main/java/com/skycatdev/binarysearchtool/SearchGui.java:305-336 | a skipped id (platform or already provided) changes nothing; a candidate provider wins and moves into testing; else the first working provider is appended to the testing dependencies; else the id is reported missing; the "I did an oops" branch is unreachable; at most one mod is added, and it provides the id, which the trial lacked |
| SearchGui.SearchGui.PullCandidate | src/main/java/com/skycatdev/binarysearchtool/SearchGui.java:312-314 | called only for an id the trial lacks: `testingMods.add(candidateMods.remove(i))` keeps the pool invariant and the multiset of the two lists; the one mod added provides that id |
| SearchGui.SearchGui.PullWorking | src/main/java/com/skycatdev/binarysearchtool/SearchGui.java:320-322 | called only for an id the trial lacks: the working provider is appended to the testing dependencies and stays a working mod; the one mod added provides that id |
| SearchGui.FrontHalfTested | src/main/java/com/skycatdev/binarysearchtool/SearchGui.java:282-338 | for found mods in dependency order, each of whose first half needs only ids that it or one before it provides, starting a fresh window tests exactly that half, keeps the second half as candidates, and adds no testing dependency |
| SearchGui.SixModsFirstHalf | src/main/java/com/skycatdev/binarysearchtool/SearchGui.java:173-194 | six found mods a to f, only f depending on an id no mod provides: starting a fresh window tests exactly a, b and c and keeps d, e and f as candidates |
| SearchGui.ProvidedDependencySkipped | src/main/java/com/skycatdev/binarysearchtool/SearchGui.java:305-308 | found mods t (providing "d"), m (depending on "d"), y, x (also providing "d"), z, w: starting a fresh window tests exactly t, m and y and keeps x, z and w as candidates, because "d" is already provided when m is chosen |

## Left out

- Toggling mod files: `tryEnable`/`tryDisable`, `enableAll`/`disableAll`, and the retry prompts that repeat a failed toggle. The model assumes every toggle eventually succeeds, so they change no list. The "Abort" path and `onFatalError`'s re-enable and `System.exit` are out too.
- I/O: opening jars, reading `fabric.mod.json` with Gson, and copying nested jars to temporary files. A jar is modelled as its file name plus its decoded record tree. `createTempFile` adds random digits to the nested file's name; the model uses the fixed name `skycatdevbinarysearchtool.jar`, which has the same extension.
- Malformed JSON in `parseMod` (a non-string `id`, a non-array `provides`) is not modelled. The decoded record is well typed; only a missing `id` is modelled.
- Discovery: listing the mods folder and its error dialogs. `SearchHandler.SearchHandler.constructor` and `SearchGui.SearchGui.Start` take the already-parsed mods. The "no mods found" dialog of `discoverMods` is out.
- `maxIterations` uses floating-point logarithms and only feeds the progress display, so it is not modelled.
- Logging (`Main.log`), progress and list updates, instruction text, the Swing and CLI dialogs and the undo button.
- Concurrency: dialog queues and futures. The model runs each `bisect` as one sequential step.
- `iterations` is an unbounded integer; Java's 32-bit overflow after two billion trials is not modelled.
- Java strings are UTF-16 code-unit sequences. Dafny `char` is a Unicode scalar value, so `CompareTo` agrees with `String.compareTo` for characters in the Basic Multilingual Plane.
- HashSet iteration order over a mod's dependencies is unspecified. The model picks an arbitrary remaining dependency at each step, so every proved property holds for every order.
- SearchGui.SearchGui.Bisect: the "Finished" dialog's follow-up (`onFinished`) is not modelled beyond recording the culprit in `status`, and, as for the newer engine, `status != Fatal` for an honest culprit is stated only when no fatal status was recorded before the call.
- SearchHandler.SearchHandler.Bisect: the `status != Fatal` guarantee for an honest culprit is stated only when `bisect` is entered without a fatal status already recorded, because the model keeps running after a fatal dialog where the program would exit.

## Findings

| source | as written | input that shows it | evidently intended | confidence | as-written member | corrected member |
|---|---|---|---|---|---|---|
| src/main/java/com/skycatdev/binarysearchtool/ModSearchComparator.java:8-11 | only "o1 has more dependencies" is handled; when o1 has fewer, the main ids decide | o1 with 0 dependencies and id "a", o2 with 1 dependency and id "b": `compare(o1, o2) < 0` and `compare(o2, o1) < 0` | most dependencies first (answer 1 when o1 has fewer), then by main id, a consistent order | not executed | ModSearchComparator.CompareNotAntisymmetric | ModSearchComparator.CorrectedAntisymmetric |
