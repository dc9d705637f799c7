/** `SearchGui`, the older bisection engine that the program's entry point launches: the same
    mod lists and the same fold after each trial, but a simpler `parseMod` and a partition loop
    that resolves only the chosen mod's own dependencies, trying the candidates before the
    working mods.

    As in `SearchHandler`, enabling and disabling mod files is not modelled, and the dialogs
    that end the search are recorded in `status`. The console messages of the lookup are
    recorded in `missingDependencies` (the "Missing dependency" message); the "I did an oops"
    message is proved unreachable. */
module SearchGui {
  import opened ModModel
  import opened FabricModJson
  import opened Pools

  /** `parseMod` of the older engine: no pruning of self-provided dependencies and no display
      name (the model uses the id for both the name and the main id). A file name without
      `.jar` is only reported on the console; the nested jars are still read, and the cut at
      index -1 then fails. */
  method ParseMod(jar: JarFile) returns (r: Result<Option<Mod>, ParseError>)
    ensures jar.fmj.None? ==> r == Ok(None)
    ensures jar.fmj.Some? && !IdsPresent(jar.fmj.value) ==> r == Err(MissingId)
    ensures jar.fmj.Some? && IdsPresent(jar.fmj.value) && LastIndexOf(jar.fileName, JarExtension) == -1
            ==> r == Err(SubstringOutOfBounds)
    ensures jar.fmj.Some? && IdsPresent(jar.fmj.value) && LastIndexOf(jar.fileName, JarExtension) >= 0
            ==> r.Ok? && r.value.Some?
    ensures r.Ok? && r.value.Some? ==>
              && jar.fmj.Some?
              && var j, m := jar.fmj.value, r.value.value;
              && IdsPresent(j)
              && m.mainId == j.id.value && m.name == j.id.value
              && m.ids == AllIds(j)
              && m.deps == AllDeps(j)
              && 0 <= LastIndexOf(jar.fileName, JarExtension)
              && m.filename == jar.fileName[..LastIndexOf(jar.fileName, JarExtension)]
    decreases jar.fmj
  {
    if jar.fmj.None? {
      return Ok(None);
    }
    var j := jar.fmj.value;
    if j.id.None? {
      return Err(MissingId);
    }
    var id := j.id.value;
    var ids := OwnIdsOf(j);
    var deps := j.depends;
    var extensionIndex := LastIndexOf(jar.fileName, JarExtension);
    // A missing extension is only reported on the console here.
    NestedJarNameHasExtension();
    var k := 0;
    while k < |j.jars|
      invariant 0 <= k <= |j.jars|
      invariant forall l :: 0 <= l < k && j.jars[l].Some? ==> IdsPresent(j.jars[l].value)
      invariant ids == OwnIds(j) + NestedIds(j, k)
      invariant deps == j.depends + NestedDeps(j, k)
    {
      var jij := ParseMod(JarFile(NestedJarName, j.jars[k]));
      if jij.Err? {
        return Err(jij.error);
      }
      if jij.value.Some? {
        ids := ids + jij.value.value.ids;
        deps := deps + jij.value.value.deps;
      }
      k := k + 1;
    }
    if extensionIndex == -1 {
      return Err(SubstringOutOfBounds);
    }
    return Ok(Some(Mod(id, id, ids, deps, jar.fileName[..extensionIndex])));
  }

  /** Each mod of `chosen` is under test and has its dependencies satisfied. */
  predicate ChosenClosed(p: PoolState, chosen: seq<Mod>) {
    forall k :: 0 <= k < |chosen| ==> chosen[k] in p.testing && Closed(p, chosen[k])
  }

  /** Resolution keeps the chosen mods closed, and a newly chosen closed test mod joins them. */
  lemma ChosenClosedGrows(p: PoolState, q: PoolState, chosen: seq<Mod>, mod: Mod)
    requires Extends(p, q) && ChosenClosed(p, chosen)
    requires mod in q.testing && Closed(q, mod)
    ensures ChosenClosed(q, chosen + [mod])
  {
    forall k | 0 <= k < |chosen| ensures chosen[k] in q.testing && Closed(q, chosen[k]) {
      ClosedMonotone(p, q, chosen[k]);
    }
  }

  /** `q` is `p` after looking up the ids `need` one level deep: each mod appended, `added`,
      provides one of them itself, at most one is appended per id, and when nothing is appended
      nothing changes. */
  predicate ResolvedDirectly(p: PoolState, q: PoolState, need: set<string>, added: seq<Mod>) {
    AddedBy(p, q, added) && DirectFor(TrialIds(p), need, added) && |added| <= |need| && (added == [] ==> q == p)
  }

  /** Widening the ids and appending at most one mod for an id no earlier mod provides keeps
      each mod providing an id of its own. */
  lemma DirectForAppend(held: set<string>, need: set<string>, wider: set<string>, a: seq<Mod>,
                         b: seq<Mod>, dependency: string)
    requires DirectFor(held, need, a) && need <= wider && |b| <= 1
    requires b != [] ==> dependency in wider && dependency in b[0].ids && dependency !in held + IdsOf(a)
    ensures DirectFor(held, wider, a + b)
  {
    forall i | 0 <= i < |a| ensures (a + b)[i].ids * wider - held - IdsOf((a + b)[..i]) != {} {
      assert (a + b)[..i] == a[..i] && (a + b)[i] == a[i];
      assert a[i].ids * need - held - IdsOf(a[..i]) <= a[i].ids * wider - held - IdsOf(a[..i]);
    }
    if b != [] {
      assert (a + b)[..|a|] == a && (a + b)[|a|] == b[0];
      assert dependency in b[0].ids * wider - held - IdsOf(a);
    }
  }

  /** One more dependency `dependency` of the ids `need` looked up, after those outside `todo`.
      A mod is added for it only while the trial does not provide it, so not by a mod added
      before. */
  lemma DirectStep(p: PoolState, q: PoolState, r: PoolState, need: set<string>, todo: set<string>,
                   dependency: string, a: seq<Mod>, b: seq<Mod>)
    requires Extends(p, q) && Extends(q, r) && dependency in todo
    requires b != [] ==> dependency in need && Wanted(q, dependency)
    requires ResolvedDirectly(p, q, need - todo, a) && ResolvedDirectly(q, r, {dependency}, b)
    ensures ResolvedDirectly(p, r, need - (todo - {dependency}), a + b)
  {
    var wider := need - (todo - {dependency});
    AddedByChain(p, q, r, a, b);
    if dependency in need {
      assert wider == (need - todo) + {dependency};
    } else {
      assert wider == need - todo;
    }
    if b != [] {
      assert b[..0] == [];
      assert dependency in b[0].ids;
      TrialAdded(p, q, a);
      WantedUnheld(q, dependency);
    }
    DirectForAppend(TrialIds(p), need - todo, wider, a, b, dependency);
  }

  /** The body of the loop over a mod's dependencies, one level deep: the dependencies already
      looked up stay satisfied, and the mods added so far each provide one of them. */
  lemma DirectDependencyRound(p: PoolState, q: PoolState, r: PoolState, mod: Mod, todo: set<string>,
                              dependency: string, a: seq<Mod>, b: seq<Mod>)
    requires Extends(p, q) && Extends(q, r)
    requires todo <= mod.deps && dependency in todo
    requires forall d :: d in mod.deps && d !in todo ==> Satisfied(q, d)
    requires Satisfied(r, dependency)
    requires ResolvedDirectly(p, q, NeedsOf(mod) - todo, a) && ResolvedDirectly(q, r, {dependency}, b)
    requires b != [] ==> Wanted(q, dependency)
    ensures Extends(p, r)
    ensures forall d :: d in mod.deps && d !in todo - {dependency} ==> Satisfied(r, d)
    ensures ResolvedDirectly(p, r, NeedsOf(mod) - (todo - {dependency}), a + b)
  {
    ExtendsTransitive(p, q, r);
    forall d | d in mod.deps && d !in todo ensures Satisfied(r, d) {
      SatisfiedMonotone(q, r, d);
    }
    DirectStep(p, q, r, NeedsOf(mod), todo, dependency, a, b);
  }

  /** One round of this engine's partition loop: the front candidate moved into testing, and
      only mods that provide one of its own dependencies added, at most one per dependency. */
  predicate DirectRound(p: PoolState, q: PoolState, added: seq<Mod>) {
    && FrontRound(p, q, added)
    && DirectFor(TrialIds(MovedFront(p)), NeedsOf(p.candidates[0]), added)
    && |added| <= |NeedsOf(p.candidates[0])|
  }

  /** Every round so far was a `DirectRound`, and `chosen` lists the front candidates they
      took, in order. */
  predicate DirectRounds(rounds: seq<PoolState>, adds: seq<seq<Mod>>, chosen: seq<Mod>) {
    && |rounds| == |adds| + 1 && |chosen| == |adds|
    && forall k :: 0 <= k < |adds| ==>
         DirectRound(rounds[k], rounds[k + 1], adds[k]) && chosen[k] == rounds[k].candidates[0]
  }

  /** This engine's partition invariant: the shared one, every round so far taking the front
      of the remaining sorted candidates (`chosen`, in order) with its dependencies resolved
      one level deep, and the chosen mods closed. */
  predicate ChosenPartitionInv(sorted: PoolState, p: PoolState, rounds: seq<PoolState>,
                               adds: seq<seq<Mod>>, chosen: seq<Mod>) {
    && PartitionInv(sorted, p, rounds, adds)
    && DirectRounds(rounds, adds, chosen)
    && ChosenClosed(p, chosen)
  }

  lemma ChosenPartitionStep(sorted: PoolState, p: PoolState, q: PoolState, rounds: seq<PoolState>,
                            adds: seq<seq<Mod>>, chosen: seq<Mod>, mod: Mod, added: seq<Mod>)
    requires ChosenPartitionInv(sorted, p, rounds, adds, chosen)
    requires |p.testing| < |sorted.candidates| / 2
    requires Extends(p, q) && DirectRound(p, q, added) && mod == p.candidates[0]
    requires mod in q.testing && Closed(q, mod)
    ensures ChosenPartitionInv(sorted, q, rounds + [q], adds + [added], chosen + [mod])
  {
    PartitionStep(sorted, p, q, rounds, adds, added);
    ChosenClosedGrows(p, q, chosen, mod);
    var rounds', adds', chosen' := rounds + [q], adds + [added], chosen + [mod];
    forall k | 0 <= k < |adds'|
      ensures DirectRound(rounds'[k], rounds'[k + 1], adds'[k]) && chosen'[k] == rounds'[k].candidates[0]
    {
      if k < |adds| {
        assert rounds'[k] == rounds[k] && rounds'[k + 1] == rounds[k + 1];
        assert adds'[k] == adds[k] && chosen'[k] == chosen[k];
      } else {
        assert rounds'[k] == p && rounds'[k + 1] == q;
      }
    }
  }

  /** What this engine's partition leaves: the shared outcome, every round one level deep, and
      the front candidates the rounds took, listed in `chosen`, all closed. */
  predicate ChosenPartitioned(q: PoolState, r: PoolState, chosen: seq<Mod>, rounds: seq<PoolState>,
                              adds: seq<seq<Mod>>) {
    && Partitioned(q, r, rounds, adds)
    && DirectRounds(rounds, adds, chosen)
    && ChosenClosed(r, chosen)
  }

  /** A partition loop that ran from the sorted candidates of `q` until half of them were
      under test leaves `q` partitioned. */
  lemma ChosenPartitionDone(q: PoolState, sorted: PoolState, r: PoolState, chosen: seq<Mod>,
                            rounds: seq<PoolState>, adds: seq<seq<Mod>>)
    requires |q.candidates| >= 2 && sorted == q.(candidates := SortByDeps(q.candidates))
    requires ChosenPartitionInv(sorted, r, rounds, adds, chosen)
    requires |r.testing| >= |q.candidates| / 2
    ensures ChosenPartitioned(q, r, chosen, rounds, adds)
  {
    PartitionDone(q, sorted, r, rounds, adds);
  }

  class SearchGui {
    /** Every mod found when the search started. */
    var mods: seq<Mod>
    /** Mods verified as working. */
    var workingMods: seq<Mod>
    /** Mods that may be the problem. */
    var candidateMods: seq<Mod>
    /** Mods enabled for the current trial. */
    var testingMods: seq<Mod>
    /** Working mods enabled for the current trial because testing mods need them. */
    var testingDependencies: seq<Mod>
    var status: Status
    /** The dependency ids reported missing on the console, in order. */
    var missingDependencies: seq<string>

    /** This engine has no force-enabled mods. */
    function Pools(): PoolState
      reads this
    {
      PoolState(mods, workingMods, candidateMods, testingMods, testingDependencies, [])
    }

    ghost predicate Valid()
      reads this
    {
      Covered(Pools())
    }

    /** The window before the start button is pressed: every list is empty. */
    constructor ()
      ensures Valid()
      ensures Pools() == PoolState([], [], [], [], [], [])
      ensures status == Searching && missingDependencies == []
    {
      mods := [];
      workingMods := [];
      candidateMods := [];
      testingMods := [];
      testingDependencies := [];
      status := Searching;
      missingDependencies := [];
    }

    /** The end of the start action: the parsed mods are recorded, every recorded mod becomes a
        candidate, and the first `bisect(true)` runs. On a fresh window that first fold leaves
        the lists as they were, so the first trial partitions all the found mods. */
    method Start(found: seq<Mod>)
      returns (ghost chosen: seq<Mod>, ghost rounds: seq<PoolState>, ghost adds: seq<seq<Mod>>)
      requires Valid()
      modifies this
      ensures Valid()
      ensures var p := old(Pools()).(mods := old(mods) + found,
                                     candidates := old(candidateMods) + old(mods) + found);
              && (old(testingMods) == [] && old(testingDependencies) == [] ==>
                    && Fold(p, true) == p
                    && (|p.candidates| >= 2 ==>
                          status == old(status) && ChosenPartitioned(p, Pools(), chosen, rounds, adds)))
              && (|Fold(p, true).candidates| == 1 ==> status == Finished(Fold(p, true).candidates[0]))
              && (|Fold(p, true).candidates| == 0 ==> status == Fatal)
      ensures old(missingDependencies) <= missingDependencies
    {
      ghost var before := Pools();
      mods := mods + found;
      candidateMods := candidateMods + mods;
      ghost var p := Pools();
      assert p == before.(mods := before.mods + found,
                          candidates := before.candidates + before.mods + found);
      if testingMods == [] && testingDependencies == [] {
        FoldFirstTrial(p);
      }
      chosen, rounds, adds := Bisect(true);
      if old(testingMods) == [] && old(testingDependencies) == [] && |p.candidates| >= 2 {
        assert ChosenPartitioned(Fold(p, true), Pools(), chosen, rounds, adds);
      }
    }

    /** `bisect`: folds the last trial's result into the lists, stops when one candidate (the
        "Finished" dialog) or none (the "Oops" dialog) is left, and otherwise sorts the
        candidates by dependency count and moves the front one into testing, with its direct
        dependencies, until testing holds at least half of them. `rounds` are the states
        between rounds: each round takes the front of the remaining sorted candidates (listed
        in `chosen`) and adds `adds` for it. Every mod chosen from the front has its
        dependencies satisfied; mods pulled in for them need not have. */
    method Bisect(lastSuccessful: bool)
      returns (ghost chosen: seq<Mod>, ghost rounds: seq<PoolState>, ghost adds: seq<seq<Mod>>)
      requires Valid()
      modifies this
      ensures Valid()
      ensures var q := Fold(old(Pools()), lastSuccessful);
        if |q.candidates| == 1 then
          Pools() == q && status == Finished(q.candidates[0])
        else if |q.candidates| == 0 then
          Pools() == q && status == Fatal
        else
          status == old(status) && ChosenPartitioned(q, Pools(), chosen, rounds, adds)
      ensures forall c :: HonestTrial(old(Pools()), lastSuccessful, c) ==>
                && (c in candidateMods || c in testingMods)
                && (old(status) != Fatal ==> status != Fatal)
                && (|Fold(old(Pools()), lastSuccessful).candidates| == 1 ==> status == Finished(c))
      ensures old(missingDependencies) <= missingDependencies
    {
      ghost var start := Pools();
      chosen, rounds, adds := [], [start], [];
      FoldTrial(lastSuccessful);
      forall c | HonestTrial(start, lastSuccessful, c) ensures c in candidateMods {
        FoldKeepsCulprit(start, lastSuccessful, c);
      }

      if |candidateMods| == 1 {
        assert |Fold(start, lastSuccessful).candidates| == 1;
        status := Finished(candidateMods[0]);
      } else if |candidateMods| == 0 {
        assert |Fold(start, lastSuccessful).candidates| == 0;
        status := Fatal;
      } else {
        chosen, rounds, adds := Partition();
        CulpritKept(start, lastSuccessful, Pools());
      }
    }

    /** The start of `bisect`: the last trial's result is folded into the lists. */
    method FoldTrial(lastSuccessful: bool)
      requires Valid()
      modifies this
      ensures Valid()
      ensures Pools() == Fold(old(Pools()), lastSuccessful)
      ensures status == old(status) && missingDependencies == old(missingDependencies)
    {
      FoldCovered(Pools(), lastSuccessful);
      if lastSuccessful {
        workingMods := workingMods + testingMods;
      } else {
        workingMods := workingMods + candidateMods;
        candidateMods := testingMods;
      }
      testingMods := [];
      testingDependencies := [];
    }

    /** The partition step of `bisect`: sort ascending by dependency count, then move the front
        candidate into testing and resolve its direct dependencies until testing holds at least
        half as many mods as there were candidates. Candidates pulled in as dependencies count
        toward that half. Every round takes the front of the remaining sorted candidates; when
        each of the first half of the sorted candidates needs only ids that it or one before it
        provides, exactly that half is tested. */
    method Partition() returns (ghost chosen: seq<Mod>, ghost rounds: seq<PoolState>, ghost adds: seq<seq<Mod>>)
      requires Valid() && testingMods == [] && testingDependencies == [] && |candidateMods| >= 2
      modifies this
      ensures Valid()
      ensures ChosenPartitioned(old(Pools()), Pools(), chosen, rounds, adds)
      ensures status == old(status)
      ensures old(missingDependencies) <= missingDependencies
    {
      ghost var q := Pools();
      candidateMods := SortByDeps(candidateMods);
      MultisetSubsetMembers(q.candidates, candidateMods);
      chosen, rounds, adds := FillTrial(q, |candidateMods|);
    }

    /** The partition loop over the sorted candidates of `q`: front candidates move into the
        trial, with the mods that provide their own dependencies, until the trial holds half of
        the `previousSize` candidates, which leaves `q` partitioned. `chosen` lists the
        candidates picked from the front, in order. */
    method FillTrial(ghost q: PoolState, previousSize: nat)
      returns (ghost chosen: seq<Mod>, ghost rounds: seq<PoolState>, ghost adds: seq<seq<Mod>>)
      requires Valid() && |q.candidates| >= 2 && q.testing == [] && q.testingDeps == []
      requires Pools() == q.(candidates := SortByDeps(q.candidates))
      requires previousSize == |candidateMods|
      modifies this
      ensures Valid() && ChosenPartitioned(q, Pools(), chosen, rounds, adds)
      ensures status == old(status)
      ensures old(missingDependencies) <= missingDependencies
    {
      ghost var sorted := Pools();
      PartitionStart(sorted);
      chosen, rounds, adds := [], [sorted], [];
      while |testingMods| < previousSize / 2
        invariant Valid() && ChosenPartitionInv(sorted, Pools(), rounds, adds, chosen)
        invariant status == old(status)
        invariant old(missingDependencies) <= missingDependencies
        decreases previousSize - |testingMods|
      {
        ghost var before := Pools();
        var mod, added := TestFront();
        ChosenPartitionStep(sorted, before, Pools(), rounds, adds, chosen, mod, added);
        chosen, rounds, adds := chosen + [mod], rounds + [Pools()], adds + [added];
      }
      ChosenPartitionDone(q, sorted, Pools(), chosen, rounds, adds);
    }

    /** One round of the partition loop: the front candidate is removed and appended to testing,
        and its dependencies are resolved one level deep. */
    method TestFront() returns (mod: Mod, ghost added: seq<Mod>)
      requires Valid() && |candidateMods| > 0
      modifies this
      ensures Valid()
      ensures Extends(old(Pools()), Pools())
      ensures DirectRound(old(Pools()), Pools(), added)
      ensures mod == old(candidateMods[0])
      ensures |testingMods| > |old(testingMods)| && testingMods[|old(testingMods)|] == mod
      ensures Closed(Pools(), mod)
      ensures status == old(status)
      ensures old(missingDependencies) <= missingDependencies
    {
      mod := candidateMods[0];
      candidateMods := candidateMods[1..];
      testingMods := testingMods + [mod];
      ghost var moved := Pools();
      assert moved == MovedFront(old(Pools()));
      assert old(candidateMods) == [mod] + candidateMods;
      assert Extends(old(Pools()), moved);
      ExtendsCovered(old(Pools()), moved);
      added := AddDirectDeps(mod);
      DirectJustified(TrialIds(moved), NeedsOf(mod), added);
      ExtendsTransitive(old(Pools()), moved, Pools());
      assert testingMods[|old(testingMods)|] == moved.testing[|old(testingMods)|];
    }

    /** The partition loop's `for` over the chosen mod's dependencies, in the set's unspecified
        order: afterwards every one of them is satisfied, and the mods appended each provide one
        of them, at most one per dependency. */
    method AddDirectDeps(mod: Mod) returns (ghost added: seq<Mod>)
      requires Valid()
      modifies this
      ensures Valid()
      ensures Extends(old(Pools()), Pools())
      ensures ResolvedDirectly(old(Pools()), Pools(), NeedsOf(mod), added)
      ensures Closed(Pools(), mod)
      ensures status == old(status)
      ensures old(missingDependencies) <= missingDependencies
    {
      ExtendsReflexive(Pools());
      added := [];
      ResolvedNothing(Pools(), {});
      var todo := mod.deps;
      assert NeedsOf(mod) - todo == {};
      while todo != {}
        invariant todo <= mod.deps
        invariant Valid() && Extends(old(Pools()), Pools())
        invariant ResolvedDirectly(old(Pools()), Pools(), NeedsOf(mod) - todo, added)
        invariant forall d :: d in mod.deps && d !in todo ==> Satisfied(Pools(), d)
        invariant status == old(status)
        invariant old(missingDependencies) <= missingDependencies
        decreases todo
      {
        var dependency :| dependency in todo;
        ghost var before := Pools();
        ghost var more := ResolveDirect(dependency);
        DirectDependencyRound(old(Pools()), before, Pools(), mod, todo, dependency, added, more);
        added := added + more;
        todo := todo - {dependency};
      }
      assert NeedsOf(mod) - todo == NeedsOf(mod);
    }

    /** The body of the partition loop's `for` over one dependency. Platform ids and ids the
        trial already provides are skipped. Otherwise the first candidate that provides it is
        moved into testing; failing that, the first working mod that provides it is appended to
        the testing dependencies; failing both, the id is reported missing. Nothing is resolved
        for the mod pulled in. */
    method ResolveDirect(dependency: string) returns (ghost added: seq<Mod>)
      requires Valid()
      modifies this
      ensures Valid()
      ensures Extends(old(Pools()), Pools())
      ensures ResolvedDirectly(old(Pools()), Pools(), {dependency}, added)
      ensures added != [] ==> Wanted(old(Pools()), dependency)
      ensures Satisfied(Pools(), dependency)
      ensures status == old(status)
      ensures !Wanted(old(Pools()), dependency) ==>
                Pools() == old(Pools()) && missingDependencies == old(missingDependencies)
      ensures Wanted(old(Pools()), dependency) && old(AnyProvides(candidateMods, dependency)) ==>
                var c := old(FirstProvider(candidateMods, dependency));
                && testingMods == old(testingMods) + [old(candidateMods[c])]
                && candidateMods == old(RemoveAt(candidateMods, c))
                && testingDependencies == old(testingDependencies)
                && missingDependencies == old(missingDependencies)
      ensures Wanted(old(Pools()), dependency) && old(!AnyProvides(candidateMods, dependency)
                && AnyProvides(workingMods, dependency)) ==>
                && testingDependencies
                   == old(testingDependencies) + [old(workingMods[FirstProvider(workingMods, dependency)])]
                && testingMods == old(testingMods) && candidateMods == old(candidateMods)
                && missingDependencies == old(missingDependencies)
      ensures Wanted(old(Pools()), dependency) && old(!AnyProvides(candidateMods, dependency)
                && !AnyProvides(workingMods, dependency)) ==>
                Pools() == old(Pools()) && missingDependencies == old(missingDependencies) + [dependency]
    {
      added := [];
      ResolvedNothing(Pools(), {});
      if IsPlatform(dependency) {
        return;
      }
      if AnyProvides(testingMods, dependency) || AnyProvides(testingDependencies, dependency) {
        return;
      }
      var c := FindProvider(candidateMods, dependency);
      if c >= 0 {
        added := PullCandidate(c, dependency);
        return;
      }
      var w := FindProvider(workingMods, dependency);
      if w >= 0 {
        added := PullWorking(w, dependency);
        return;
      }
      if AnyProvides(mods, dependency) {
        // The "I did an oops" message: every mod is working, a candidate or under test.
        assert false;
      }
      missingDependencies := missingDependencies + [dependency];
    }
  
    /** `testingMods.add(candidateMods.remove(c))`. */
    method PullCandidate(c: nat, dependency: string) returns (ghost added: seq<Mod>)
      requires Valid() && c < |candidateMods| && Provides(candidateMods[c], dependency)
      requires Wanted(Pools(), dependency)
      modifies this
      ensures Valid()
      ensures Extends(old(Pools()), Pools())
      ensures ResolvedDirectly(old(Pools()), Pools(), {dependency}, added)
      ensures testingMods == old(testingMods) + [old(candidateMods[c])]
      ensures candidateMods == old(RemoveAt(candidateMods, c))
      ensures AnyProvides(testingMods, dependency)
      ensures mods == old(mods) && workingMods == old(workingMods)
      ensures testingDependencies == old(testingDependencies)
      ensures status == old(status) && missingDependencies == old(missingDependencies)
    {
      var candidateMod := candidateMods[c];
      RemoveAtSubsequence(candidateMods, c);
      candidateMods := RemoveAt(candidateMods, c);
      testingMods := testingMods + [candidateMod];
      assert candidateMod in testingMods;
      assert multiset(candidateMods) <= old(multiset(candidateMods));
      assert Extends(old(Pools()), Pools());
      ExtendsCovered(old(Pools()), Pools());
      added := [candidateMod];
      AddedOne(old(Pools()), Pools(), candidateMod);
      WantedUnheld(old(Pools()), dependency);
      DirectForOne(TrialIds(old(Pools())), {dependency}, candidateMod, dependency);
    }

    /** `testingDependencies.add(workingMod)`: the working mod stays a working mod. */
    method PullWorking(w: nat, dependency: string) returns (ghost added: seq<Mod>)
      requires Valid() && w < |workingMods| && Provides(workingMods[w], dependency)
      requires Wanted(Pools(), dependency)
      modifies this
      ensures Valid()
      ensures Extends(old(Pools()), Pools())
      ensures ResolvedDirectly(old(Pools()), Pools(), {dependency}, added)
      ensures testingDependencies == old(testingDependencies) + [old(workingMods[w])]
      ensures AnyProvides(testingDependencies, dependency)
      ensures mods == old(mods) && workingMods == old(workingMods)
      ensures candidateMods == old(candidateMods) && testingMods == old(testingMods)
      ensures status == old(status) && missingDependencies == old(missingDependencies)
    {
      testingDependencies := testingDependencies + [workingMods[w]];
      assert workingMods[w] in testingDependencies;
      added := [workingMods[w]];
      AddedOne(old(Pools()), Pools(), workingMods[w]);
      WantedUnheld(old(Pools()), dependency);
      DirectForOne(TrialIds(old(Pools())), {dependency}, workingMods[w], dependency);
    }
  }

  /** Starting a fresh window on mods already in dependency order, each of whose first half
      needs only ids that it or one before it provides, tests exactly that first half, in the
      order found, and leaves the second half as the candidates. */
  method FrontHalfTested(found: seq<Mod>) returns (g: SearchGui)
    requires |found| >= 2 && SortedByDeps(found)
    requires ProvidedInOrder(found[..|found| / 2])
    ensures g.Valid() && g.status == Searching
    ensures g.testingMods == found[..|found| / 2] && g.candidateMods == found[|found| / 2..]
    ensures g.testingDependencies == [] && g.workingMods == []
  {
    g := new SearchGui();
    assert [] + [] + found == found;
    ghost var chosen, rounds, adds := g.Start(found);
    FrontHalfPartitioned(found, g.Pools(), rounds, adds);
  }

  /** Six mods found in dependency order, the last needing an id no mod provides: the first
      trial tests exactly the first three, and the unresolvable one stays a candidate. */
  method SixModsFirstHalf() returns (g: SearchGui)
    ensures g.Valid() && g.status == Searching
    ensures g.testingMods == [Solo("a"), Solo("b"), Solo("c")]
    ensures g.candidateMods == [Solo("d"), Solo("e"), Mod("f", "f", {"f"}, {"x"}, "f")]
    ensures g.testingDependencies == [] && g.workingMods == []
  {
    var f := Mod("f", "f", {"f"}, {"x"}, "f");
    var discovered := [Solo("a"), Solo("b"), Solo("c"), Solo("d"), Solo("e"), f];
    assert discovered[..3] == [Solo("a"), Solo("b"), Solo("c")];
    assert discovered[3..] == [Solo("d"), Solo("e"), f];
    g := FrontHalfTested(discovered);
  }

  /** Six mods found in dependency order: `t` provides the id "d" besides its own, `m` depends
      on "d", `x` provides "d" too, and the rest depend only on the game. When `m` is moved
      into testing, "d" is already provided by `t`, so `x` is not pulled in: the fresh window
      tests exactly `t`, `m` and `y`. */
  method ProvidedDependencySkipped() returns (g: SearchGui)
    ensures g.Valid() && g.status == Searching
    ensures g.testingMods == [Mod("t", "t", {"t", "d"}, {}, "t"), Mod("m", "m", {"m"}, {"d"}, "m"),
                              Mod("y", "y", {"y"}, {"minecraft"}, "y")]
    ensures g.candidateMods == [Mod("x", "x", {"x", "d"}, {"minecraft"}, "x"),
                                Mod("z", "z", {"z"}, {"minecraft"}, "z"), Mod("w", "w", {"w"}, {"minecraft"}, "w")]
    ensures g.testingDependencies == [] && g.workingMods == []
  {
    var t, m := Mod("t", "t", {"t", "d"}, {}, "t"), Mod("m", "m", {"m"}, {"d"}, "m");
    var y, x := Mod("y", "y", {"y"}, {"minecraft"}, "y"), Mod("x", "x", {"x", "d"}, {"minecraft"}, "x");
    var z, w := Mod("z", "z", {"z"}, {"minecraft"}, "z"), Mod("w", "w", {"w"}, {"minecraft"}, "w");
    var found := [t, m, y, x, z, w];
    SixProvided(t, m, y, x, z, w);
    g := FrontHalfTested(found);
  }
}
