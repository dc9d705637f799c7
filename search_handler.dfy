/** `SearchHandler`, the newer bisection engine: reading a mod's identity from its jar, and the
    engine object that keeps the mod lists, resolves dependencies recursively and folds each
    trial's result into the lists.

    Enabling and disabling a mod's file, and the retry prompts that repeat a failed toggle until
    it succeeds or the user aborts, are not modelled: the model assumes every toggle eventually
    succeeds, so they change nothing the engine keeps. Dialogs that end the program are recorded
    in `status`; the missing-dependency warning is recorded in `missingDependencies`. */
module SearchHandler {
  import opened ModModel
  import opened FabricModJson
  import opened Pools

  /** `parseMod`: a jar without a `fabric.mod.json` is not a mod; otherwise its record is
      normalised. The main id is `id`; the name defaults to it; the ids are the id, the
      `provides` aliases and every nested jar's ids; the dependencies are the declared ones and
      every nested jar's, less those the jar provides itself; the file name is cut before its
      last `.jar`. A missing `id` anywhere in the tree, or a file name without `.jar`, fails. */
  method ParseMod(jar: JarFile) returns (r: Result<Option<Mod>, ParseError>)
    ensures jar.fmj.None? ==> r == Ok(None)
    ensures jar.fmj.Some? && jar.fmj.value.id.None? ==> r == Err(MissingId)
    ensures jar.fmj.Some? && jar.fmj.value.id.Some? && LastIndexOf(jar.fileName, JarExtension) == -1
            ==> r == Err(NoJarExtension)
    ensures jar.fmj.Some? && LastIndexOf(jar.fileName, JarExtension) >= 0
            ==> (r.Ok? <==> IdsPresent(jar.fmj.value)) && (r.Err? ==> r.error == MissingId)
    ensures jar.fmj.Some? && r.Ok? ==> r.value.Some?
    ensures r.Ok? && r.value.Some? ==>
              && jar.fmj.Some?
              && var j, m := jar.fmj.value, r.value.value;
              && IdsPresent(j)
              && m.mainId == j.id.value
              && m.name == j.name.GetOr(j.id.value)
              && m.ids == AllIds(j)
              && m.deps == AllDeps(j) - AllIds(j)
              && m.deps !! m.ids
              && 0 <= LastIndexOf(jar.fileName, JarExtension)
              && m.filename == jar.fileName[..LastIndexOf(jar.fileName, JarExtension)]
    decreases jar.fmj
  {
    if jar.fmj.None? {
      return Ok(None);
    }
    var j := jar.fmj.value;
    if j.id.None? {
      return Err(MissingId);
    }
    var id := j.id.value;
    var name := if j.name.Some? then j.name.value else id;
    var ids := OwnIdsOf(j);
    var deps := j.depends;
    var extensionIndex := LastIndexOf(jar.fileName, JarExtension);
    if extensionIndex == -1 {
      return Err(NoJarExtension);
    }
    NestedJarNameHasExtension();
    var k := 0;
    while k < |j.jars|
      invariant 0 <= k <= |j.jars|
      invariant forall l :: 0 <= l < k && j.jars[l].Some? ==> IdsPresent(j.jars[l].value)
      invariant ids == OwnIds(j) + NestedIds(j, k)
      invariant deps <= j.depends + NestedDeps(j, k)
      invariant (j.depends + NestedDeps(j, k)) - NestedIds(j, k) <= deps
    {
      var jij := ParseMod(JarFile(NestedJarName, j.jars[k]));
      if jij.Err? {
        return Err(jij.error);
      }
      assert j.jars[k].Some? ==> IdsPresent(j.jars[k].value);
      if jij.value.Some? {
        NestedStep(j, k, ids, deps, jij.value.value.ids, jij.value.value.deps);
        ids := ids + jij.value.value.ids;
        deps := deps + jij.value.value.deps;
      } else {
        NestedStep(j, k, ids, deps, {}, {});
      }
      k := k + 1;
    }
    // Dependencies a jar provides itself (modules of one bundle depending on each other) are
    // dropped.
    deps := deps - ids;
    return Ok(Some(Mod(name, id, ids, deps, jar.fileName[..extensionIndex])));
  }

  class SearchHandler {
    /** Every discovered mod. */
    var mods: seq<Mod>
    /** Mods verified as working. */
    var workingMods: seq<Mod>
    /** Mods that may be the problem. */
    var candidateMods: seq<Mod>
    /** Mods enabled for the current trial. */
    var testingMods: seq<Mod>
    /** Working mods enabled for the current trial because testing mods need them. */
    var testingDependencies: seq<Mod>
    var forceEnabled: seq<Mod>
    var iterations: int
    var status: Status
    /** The dependency ids reported in a "Missing dependency" warning, in order. */
    var missingDependencies: seq<string>

    function Pools(): PoolState
      reads this
    {
      PoolState(mods, workingMods, candidateMods, testingMods, testingDependencies, forceEnabled)
    }

    ghost predicate Valid()
      reads this
    {
      Covered(Pools())
    }

    /** The engine once `discoverMods` has listed the mods: all of them are candidates. */
    constructor (discovered: seq<Mod>)
      ensures Valid()
      ensures Pools() == Discovered(discovered)
      ensures iterations == 0 && status == Searching && missingDependencies == []
    {
      mods := discovered;
      workingMods := [];
      candidateMods := discovered;
      testingMods := [];
      testingDependencies := [];
      forceEnabled := [];
      iterations := 0;
      status := Searching;
      missingDependencies := [];
    }

    /** `addDeps`: makes every dependency of `mod` available to the trial, pulling providers in
        from the working mods (copied into the testing dependencies) or from the candidates
        (moved into testing), and resolving their dependencies in turn. Every mod it adds is
        itself closed; the "Mod gone wot" dialog is never reached. The mods appended, `added`,
        are all there because `mod` or a mod appended before them needs them. */
    method AddDeps(mod: Mod) returns (ghost added: seq<Mod>)
      requires Valid()
      modifies this
      ensures Valid()
      ensures Extends(old(Pools()), Pools())
      ensures ResolvedFor(old(Pools()), Pools(), NeedsOf(mod), added)
      ensures Closed(Pools(), mod)
      ensures ClosedFrom(Pools(), |old(testingMods)|, |old(testingDependencies)|)
      ensures iterations == old(iterations) && status == old(status)
      ensures old(missingDependencies) <= missingDependencies
      decreases |candidateMods|, |Elems(workingMods) - Elems(testingDependencies)|, 2
    {
      added := [];
      ResolvedNothing(Pools(), NeedsOf(mod));
      var todo := mod.deps;
      while todo != {}
        invariant todo <= mod.deps
        invariant Valid() && Extends(old(Pools()), Pools())
        invariant ResolvedFor(old(Pools()), Pools(), NeedsOf(mod), added)
        invariant forall d :: d in mod.deps && d !in todo ==> Satisfied(Pools(), d)
        invariant ClosedFrom(Pools(), |old(testingMods)|, |old(testingDependencies)|)
        invariant iterations == old(iterations) && status == old(status)
        invariant old(missingDependencies) <= missingDependencies
        decreases todo
      {
        var dependency :| dependency in todo;
        ghost var before := Pools();
        MeasureNonIncreasing(old(Pools()), before);
        ghost var more := ResolveDependency(dependency);
        DependencyRound(old(Pools()), before, Pools(), mod, todo, dependency,
                        |old(testingMods)|, |old(testingDependencies)|, added, more);
        added := added + more;
        todo := todo - {dependency};
      }
    }

    /** The body of `addDeps`'s loop for one dependency. Platform ids and ids the trial already
        provides are skipped. Otherwise the first working mod that provides it wins and is
        appended to the testing dependencies; failing that, the first candidate that provides it
        is moved into testing; failing both, the id is reported missing. */
    method ResolveDependency(dependency: string) returns (ghost added: seq<Mod>)
      requires Valid()
      modifies this
      ensures Valid()
      ensures Extends(old(Pools()), Pools())
      ensures ResolvedFor(old(Pools()), Pools(), {dependency}, added)
      ensures added != [] ==> !IsPlatform(dependency)
      ensures Satisfied(Pools(), dependency)
      ensures ClosedFrom(Pools(), |old(testingMods)|, |old(testingDependencies)|)
      ensures iterations == old(iterations) && status == old(status)
      ensures old(missingDependencies) <= missingDependencies
      ensures !Wanted(old(Pools()), dependency) ==>
                Pools() == old(Pools()) && missingDependencies == old(missingDependencies)
      ensures Wanted(old(Pools()), dependency) && old(AnyProvides(workingMods, dependency)) ==>
                && |testingDependencies| > |old(testingDependencies)|
                && testingDependencies[|old(testingDependencies)|]
                   == old(workingMods[FirstProvider(workingMods, dependency)])
      ensures Wanted(old(Pools()), dependency) && old(!AnyProvides(workingMods, dependency)
                && AnyProvides(candidateMods, dependency)) ==>
                && |testingMods| > |old(testingMods)|
                && testingMods[|old(testingMods)|]
                   == old(candidateMods[FirstProvider(candidateMods, dependency)])
      ensures Wanted(old(Pools()), dependency) && old(!AnyProvides(workingMods, dependency)
                && !AnyProvides(candidateMods, dependency)) ==>
                Pools() == old(Pools()) && missingDependencies == old(missingDependencies) + [dependency]
      decreases |candidateMods|, |Elems(workingMods) - Elems(testingDependencies)|, 1
    {
      added := [];
      ResolvedNothing(Pools(), {dependency});
      if IsPlatform(dependency) {
        return;
      }
      if AnyProvides(testingMods, dependency) || AnyProvides(testingDependencies, dependency) {
        return;
      }
      var w := FindProvider(workingMods, dependency);
      if w >= 0 {
        added := PullWorking(w, dependency);
        return;
      }
      var c := FindProvider(candidateMods, dependency);
      if c >= 0 {
        added := PullCandidate(c, dependency);
        return;
      }
      if AnyProvides(mods, dependency) {
        // The "Mod gone wot" dialog, which would end the search: unreachable, because the pool
        // invariant puts every mod in a list searched above.
        assert false;
      }
      missingDependencies := missingDependencies + [dependency];
    }

    /** A working mod that provides `dependency` is appended to the testing dependencies (and
        stays a working mod); its own dependencies are resolved. */
    method PullWorking(w: nat, dependency: string) returns (ghost added: seq<Mod>)
      requires Valid()
      requires w < |workingMods| && Provides(workingMods[w], dependency)
      requires Wanted(Pools(), dependency)
      modifies this
      ensures Valid()
      ensures Extends(old(Pools()), Pools())
      ensures ResolvedFor(old(Pools()), Pools(), {dependency}, added)
      ensures |testingDependencies| > |old(testingDependencies)|
      ensures testingDependencies[|old(testingDependencies)|] == old(workingMods[w])
      ensures AnyProvides(testingDependencies, dependency)
      ensures ClosedFrom(Pools(), |old(testingMods)|, |old(testingDependencies)|)
      ensures iterations == old(iterations) && status == old(status)
      ensures old(missingDependencies) <= missingDependencies
      decreases |candidateMods|, |Elems(workingMods) - Elems(testingDependencies)|, 0
    {
      var workingMod := workingMods[w];
      assert workingMod !in testingDependencies;
      assert Elems(workingMods) - Elems(testingDependencies + [workingMod])
          == (Elems(workingMods) - Elems(testingDependencies)) - {workingMod};
      testingDependencies := testingDependencies + [workingMod];
      ghost var before := Pools();
      ghost var rest := AddDeps(workingMod);
      PulledWorking(old(Pools()), before, Pools(), dependency, workingMod, rest);
      added := [workingMod] + rest;
    }

    /** The candidate at index `c`, which provides `dependency`, is moved into testing; its own
        dependencies are resolved. */
    method PullCandidate(c: nat, dependency: string) returns (ghost added: seq<Mod>)
      requires Valid()
      requires c < |candidateMods| && Provides(candidateMods[c], dependency)
      requires Wanted(Pools(), dependency)
      modifies this
      ensures Valid()
      ensures Extends(old(Pools()), Pools())
      ensures ResolvedFor(old(Pools()), Pools(), {dependency}, added)
      ensures |testingMods| > |old(testingMods)|
      ensures testingMods[|old(testingMods)|] == old(candidateMods[c])
      ensures AnyProvides(testingMods, dependency)
      ensures ClosedFrom(Pools(), |old(testingMods)|, |old(testingDependencies)|)
      ensures iterations == old(iterations) && status == old(status)
      ensures old(missingDependencies) <= missingDependencies
      decreases |candidateMods|, |Elems(workingMods) - Elems(testingDependencies)|, 0
    {
      var candidateMod := candidateMods[c];
      RemoveAtSubsequence(candidateMods, c);
      candidateMods := RemoveAt(candidateMods, c);
      testingMods := testingMods + [candidateMod];
      ghost var before := Pools();
      assert Extends(old(Pools()), before);
      ExtendsCovered(old(Pools()), before);
      ghost var rest := AddDeps(candidateMod);
      PulledCandidate(old(Pools()), before, Pools(), dependency, c, rest);
      added := [candidateMod] + rest;
    }

    /** `forceEnable`: a mod not yet force-enabled becomes a working mod and stops being a
        candidate; the call answers whether it did anything. The mod stays in testing if it is
        there. */
    method ForceEnable(mod: Mod) returns (ok: bool)
      requires Valid()
      modifies this
      ensures Valid()
      ensures ok <==> old(mod !in forceEnabled)
      ensures !ok ==> Pools() == old(Pools())
      ensures ok ==>
                && forceEnabled == old(forceEnabled) + [mod]
                && workingMods == old(workingMods) + [mod]
                && candidateMods == RemoveFirst(old(candidateMods), mod)
                && mods == old(mods) && testingMods == old(testingMods)
                && testingDependencies == old(testingDependencies)
      ensures mod in forceEnabled && mod in workingMods
      ensures iterations == old(iterations) && status == old(status)
      ensures missingDependencies == old(missingDependencies)
    {
      if mod in forceEnabled {
        return false;
      }
      forceEnabled := forceEnabled + [mod];
      workingMods := workingMods + [mod];
      candidateMods := RemoveFirst(candidateMods, mod);
      ok := true;
    }

    /** `bisect`: folds the last trial's result into the lists, stops when one candidate (found)
        or none (fatal) is left, and otherwise sorts the candidates by dependency count and moves
        them into testing, with their dependencies, until testing holds at least half of them.
        The force-enabled mods' dependencies are resolved last. The partition runs in
        `rounds`, each taking the front of the remaining sorted candidates, up to
        `partitioned`; the force-enabled mods' resolution then adds providers only for ids they
        need and the trial lacks (`forcedAdded`). */
    method Bisect(lastSuccessful: bool)
      returns (ghost rounds: seq<PoolState>, ghost adds: seq<seq<Mod>>,
               ghost partitioned: PoolState, ghost forcedAdded: seq<Mod>)
      requires Valid()
      modifies this
      ensures Valid()
      ensures var q := Fold(old(Pools()), lastSuccessful);
        if |q.candidates| == 1 then
          Pools() == q && status == Finished(q.candidates[0]) && iterations == old(iterations) + 2
        else if |q.candidates| == 0 then
          Pools() == q && status == Fatal && iterations == old(iterations) + 1
        else
          && iterations == old(iterations) + 1 && status == old(status)
          && Bisected(q, partitioned, Pools(), rounds, adds, Needs(forceEnabled), forcedAdded)
          && (forall k :: 0 <= k < |forceEnabled| ==> Closed(Pools(), forceEnabled[k]))
      ensures forall c :: HonestTrial(old(Pools()), lastSuccessful, c) ==>
                && (c in candidateMods || c in testingMods)
                && (old(status) != Fatal ==> status != Fatal)
                && (|Fold(old(Pools()), lastSuccessful).candidates| == 1 ==> status == Finished(c))
      ensures old(missingDependencies) <= missingDependencies
    {
      // The previous trial's mods are disabled here (toggles are not modelled).
      ghost var start := Pools();
      rounds, adds, partitioned, forcedAdded := [start], [], start, [];
      FoldTrial(lastSuccessful);

      forall c | HonestTrial(start, lastSuccessful, c) ensures c in candidateMods {
        FoldKeepsCulprit(start, lastSuccessful, c);
      }

      if |candidateMods| == 1 {
        iterations := iterations + 1;
        status := Finished(candidateMods[0]);
        return;
      } else if |candidateMods| == 0 {
        status := Fatal;
        return;
      }

      ghost var folded := Pools();
      rounds, adds := Partition();
      partitioned := Pools();
      forcedAdded := ResolveForceEnabled();
      ExtendsTransitive(folded.(candidates := SortByDeps(folded.candidates)), partitioned, Pools());
      if Needs(forceEnabled) <= TrialIds(partitioned) {
        NothingWanted(partitioned, Pools(), Needs(forceEnabled), forcedAdded);
      }

      CulpritKept(start, lastSuccessful, Pools());
    }

    /** The start of `bisect`: the last trial's result is folded into the lists and the
        iteration is counted. */
    method FoldTrial(lastSuccessful: bool)
      requires Valid()
      modifies this
      ensures Valid()
      ensures Pools() == Fold(old(Pools()), lastSuccessful)
      ensures iterations == old(iterations) + 1
      ensures status == old(status) && missingDependencies == old(missingDependencies)
    {
      FoldCovered(Pools(), lastSuccessful);
      if lastSuccessful {
        workingMods := workingMods + testingMods;
      } else {
        workingMods := workingMods + candidateMods;
        candidateMods := testingMods;
      }
      testingMods := [];
      testingDependencies := [];
      iterations := iterations + 1;
    }

    /** The partition step of `bisect`: sort ascending by dependency count, then move the
        front candidate into testing and resolve its dependencies until testing holds at least
        half as many mods as there were candidates. `removeFirst` never meets an empty list;
        the candidates may end empty when the dependencies pull them all in. The loop's
        `rounds` each take the front of
        the remaining sorted candidates and keep the order of the others; when each of the first
        half of the sorted candidates needs only ids that it or one before it provides, exactly
        that half is tested. */
    method Partition() returns (ghost rounds: seq<PoolState>, ghost adds: seq<seq<Mod>>)
      requires Valid() && testingMods == [] && testingDependencies == [] && |candidateMods| >= 2
      modifies this
      ensures Valid()
      ensures Partitioned(old(Pools()), Pools(), rounds, adds)
      ensures ClosedFrom(Pools(), 0, 0)
      ensures iterations == old(iterations) && status == old(status)
      ensures old(missingDependencies) <= missingDependencies
    {
      ghost var q := Pools();
      candidateMods := SortByDeps(candidateMods);
      MultisetSubsetMembers(q.candidates, candidateMods);
      rounds, adds := FillTrial(q, |candidateMods|);
    }

    /** The partition loop over the sorted candidates of `q`: front candidates move into the
        trial, with what they need, until the trial holds half of the `previousSize`
        candidates, which leaves `q` partitioned. */
    method FillTrial(ghost q: PoolState, previousSize: nat)
      returns (ghost rounds: seq<PoolState>, ghost adds: seq<seq<Mod>>)
      requires Valid() && |q.candidates| >= 2 && q.testing == [] && q.testingDeps == []
      requires Pools() == q.(candidates := SortByDeps(q.candidates))
      requires previousSize == |candidateMods|
      modifies this
      ensures Valid() && Partitioned(q, Pools(), rounds, adds) && ClosedFrom(Pools(), 0, 0)
      ensures iterations == old(iterations) && status == old(status)
      ensures old(missingDependencies) <= missingDependencies
    {
      ghost var sorted := Pools();
      PartitionStart(sorted);
      rounds, adds := [sorted], [];
      while |testingMods| < previousSize / 2
        invariant Valid() && PartitionInv(sorted, Pools(), rounds, adds)
        invariant ClosedFrom(Pools(), 0, 0)
        invariant iterations == old(iterations) && status == old(status)
        invariant old(missingDependencies) <= missingDependencies
        decreases previousSize - |testingMods|
      {
        ghost var before := Pools();
        ghost var added := TestFront();
        PartitionStep(sorted, before, Pools(), rounds, adds, added);
        rounds, adds := rounds + [Pools()], adds + [added];
      }
      PartitionDone(q, sorted, Pools(), rounds, adds);
    }

    /** One round of the partition loop: the front candidate is removed, appended to testing,
        and its dependencies are resolved. Mods already in the trial stay closed. */
    method TestFront() returns (ghost added: seq<Mod>)
      requires Valid() && |candidateMods| > 0
      requires ClosedFrom(Pools(), 0, 0)
      modifies this
      ensures Valid()
      ensures Extends(old(Pools()), Pools())
      ensures FrontRound(old(Pools()), Pools(), added)
      ensures |testingMods| > |old(testingMods)| && testingMods[|old(testingMods)|] == old(candidateMods[0])
      ensures ClosedFrom(Pools(), 0, 0)
      ensures iterations == old(iterations) && status == old(status)
      ensures old(missingDependencies) <= missingDependencies
    {
      var mod := candidateMods[0];
      candidateMods := candidateMods[1..];
      testingMods := testingMods + [mod];
      ghost var moved := Pools();
      assert moved == MovedFront(old(Pools()));
      assert old(candidateMods) == [mod] + candidateMods;
      assert Extends(old(Pools()), moved);
      ExtendsCovered(old(Pools()), moved);
      added := AddDeps(mod);
      ExtendsTransitive(old(Pools()), moved, Pools());
      assert testingMods[|old(testingMods)|] == moved.testing[|old(testingMods)|];
      ClosedFromKept(old(Pools()), Pools(), 0, 0);
    }

    /** The last step of `bisect`: each force-enabled mod is enabled (not modelled) and its
        dependencies are resolved, so that it has everything it needs in every trial. Only
        providers of ids those mods need and the trial lacks are added. */
    method ResolveForceEnabled() returns (ghost added: seq<Mod>)
      requires Valid()
      requires ClosedFrom(Pools(), 0, 0)
      modifies this
      ensures Valid()
      ensures Extends(old(Pools()), Pools())
      ensures ResolvedFor(old(Pools()), Pools(), Needs(forceEnabled), added)
      ensures ClosedFrom(Pools(), 0, 0)
      ensures forall k :: 0 <= k < |forceEnabled| ==> Closed(Pools(), forceEnabled[k])
      ensures iterations == old(iterations) && status == old(status)
      ensures old(missingDependencies) <= missingDependencies
    {
      ExtendsReflexive(Pools());
      added := [];
      ResolvedNothing(Pools(), Needs(forceEnabled[..0]));
      var i := 0;
      while i < |forceEnabled|
        invariant 0 <= i <= |forceEnabled|
        invariant Valid() && Extends(old(Pools()), Pools())
        invariant ResolvedFor(old(Pools()), Pools(), Needs(forceEnabled[..i]), added)
        invariant ClosedFrom(Pools(), 0, 0)
        invariant forall k :: 0 <= k < i ==> Closed(Pools(), forceEnabled[k])
        invariant iterations == old(iterations) && status == old(status)
        invariant old(missingDependencies) <= missingDependencies
      {
        ghost var before := Pools();
        ghost var more := AddDeps(forceEnabled[i]);
        ForcedRound(old(Pools()), before, Pools(), forceEnabled, i, added, more);
        added := added + more;
        i := i + 1;
      }
      assert forceEnabled[..i] == forceEnabled;
    }
  }

  lemma MultisetCardinality(a: multiset<Mod>, b: multiset<Mod>)
    requires a <= b
    ensures |a| <= |b|
  {
    assert b == a + (b - a);
  }

  /** Dependency resolution never lets the termination measure grow. */
  lemma MeasureNonIncreasing(p: PoolState, q: PoolState)
    requires Extends(p, q)
    ensures |q.candidates| <= |p.candidates|
    ensures |Elems(q.working) - Elems(q.testingDeps)| <= |Elems(p.working) - Elems(p.testingDeps)|
  {
    MultisetCardinality(multiset(q.candidates), multiset(p.candidates));
    assert forall m :: m in p.testingDeps ==> m in q.testingDeps;
    ghost var sq, sp := Elems(q.working) - Elems(q.testingDeps), Elems(p.working) - Elems(p.testingDeps);
    assert sp == sq + (sp - sq);
  }

  /** Two mods that depend on each other, discovered together. */
  const EntangledA := Mod("a", "a", {"a"}, {"b"}, "a")
  const EntangledB := Mod("b", "b", {"b"}, {"a"}, "b")

  /** Any resolution from the sorted pair that puts `a` under test with its dependencies
      satisfied has moved `b` into testing too. */
  lemma {:induction false} EntangledPairDrained(r: PoolState)
    requires Extends(Discovered([EntangledA, EntangledB]), r) && ClosedFrom(r, 0, 0)
    requires |r.testing| > 0 && r.testing[0] == EntangledA
    ensures r.candidates == [] && r.testing == [EntangledA, EntangledB]
  {
    var a, b := EntangledA, EntangledB;
    assert multiset(r.candidates) + multiset(r.testing) == multiset{a, b};
    assert Closed(r, a) && "b" in a.deps;
    assert Satisfied(r, "b");
    assert !AnyProvides(r.testingDeps, "b");
    assert AnyProvides(r.testing, "b") by {
      if !AnyProvides(r.testing, "b") {
        assert b in multiset(r.candidates) + multiset(r.testing);
        if b in r.candidates {
          assert AnyProvides(r.candidates, "b");
        }
        assert b in r.testing;
      }
    }
    var m :| m in r.testing && Provides(m, "b");
    assert m in multiset(r.candidates) + multiset(r.testing);
    assert m == b;
    assert |r.candidates| + |r.testing| == 2 by {
      assert |multiset(r.candidates) + multiset(r.testing)| == 2;
    }
    assert r.testing[0] != m;
    assert |r.testing| == 2;
    assert r.testing[1] == b;
  }

  /** Nothing retries a partition that drains the candidates: two discovered mods that depend
      on each other are both put under test by the first `bisect(true)`, leaving no candidate
      for a later trial to narrow down. */
  method EntangledPairEmptiesCandidates() returns (h: SearchHandler)
    ensures h.Valid()
    ensures h.candidateMods == [] && h.status == Searching && h.iterations == 1
    ensures h.testingMods == [EntangledA, EntangledB]
  {
    h := new SearchHandler([EntangledA, EntangledB]);
    EntangledStart();
    ghost var rounds, adds, partitioned, forcedAdded := h.Bisect(true);
    EntangledPairDrained(h.Pools());
  }

  /** The first fold leaves the discovered pair as it is, and the sort keeps its order. */
  lemma EntangledStart()
    ensures var q := Fold(Discovered([EntangledA, EntangledB]), true);
      && q == Discovered([EntangledA, EntangledB])
      && SortByDeps(q.candidates) == q.candidates
  {
    FoldFirstTrial(Discovered([EntangledA, EntangledB]));
    assert SortByDeps([EntangledB]) == [EntangledB];
  }

  /** When the discovered mods are already in ascending dependency order and each of the
      first half of them needs only ids that it or one before it provides, the first
      `bisect(true)` after discovery tests exactly that first half, in discovery order, and
      leaves the second half as the candidates. */
  method FrontHalfTested(discovered: seq<Mod>) returns (h: SearchHandler)
    requires |discovered| >= 2 && SortedByDeps(discovered)
    requires ProvidedInOrder(discovered[..|discovered| / 2])
    ensures h.Valid() && h.status == Searching && h.iterations == 1
    ensures h.testingMods == discovered[..|discovered| / 2]
    ensures h.candidateMods == discovered[|discovered| / 2..]
    ensures h.testingDependencies == [] && h.workingMods == []
  {
    h := new SearchHandler(discovered);
    FoldFirstTrial(h.Pools());
    ghost var rounds, adds, partitioned, forcedAdded := h.Bisect(true);
    assert h.forceEnabled == [];
    assert h.Pools() == partitioned;
    FrontHalfPartitioned(discovered, h.Pools(), rounds, adds);
  }

  /** Six mods found in dependency order, the last needing an id no mod provides: the first
      trial tests exactly the first three, and the unresolvable one stays a candidate. */
  method SixModsFirstHalf() returns (h: SearchHandler)
    ensures h.Valid() && h.status == Searching && h.iterations == 1
    ensures h.testingMods == [Solo("a"), Solo("b"), Solo("c")]
    ensures h.candidateMods == [Solo("d"), Solo("e"), Mod("f", "f", {"f"}, {"x"}, "f")]
    ensures h.testingDependencies == [] && h.workingMods == []
  {
    var f := Mod("f", "f", {"f"}, {"x"}, "f");
    var discovered := [Solo("a"), Solo("b"), Solo("c"), Solo("d"), Solo("e"), f];
    assert discovered[..3] == [Solo("a"), Solo("b"), Solo("c")];
    assert discovered[3..] == [Solo("d"), Solo("e"), f];
    h := FrontHalfTested(discovered);
  }

  /** Six mods found in dependency order: `t` provides the id "d" besides its own, `m` depends
      on "d", `x` provides "d" too, and the rest depend only on the game. When `m` is moved
      into testing, "d" is already provided by `t`, so `x` is not pulled in: the first trial
      tests exactly `t`, `m` and `y`. */
  method ProvidedDependencySkipped() returns (h: SearchHandler)
    ensures h.Valid() && h.status == Searching && h.iterations == 1
    ensures h.testingMods == [Mod("t", "t", {"t", "d"}, {}, "t"), Mod("m", "m", {"m"}, {"d"}, "m"),
                              Mod("y", "y", {"y"}, {"minecraft"}, "y")]
    ensures h.candidateMods == [Mod("x", "x", {"x", "d"}, {"minecraft"}, "x"),
                                Mod("z", "z", {"z"}, {"minecraft"}, "z"), Mod("w", "w", {"w"}, {"minecraft"}, "w")]
    ensures h.testingDependencies == [] && h.workingMods == []
  {
    var t, m := Mod("t", "t", {"t", "d"}, {}, "t"), Mod("m", "m", {"m"}, {"d"}, "m");
    var y, x := Mod("y", "y", {"y"}, {"minecraft"}, "y"), Mod("x", "x", {"x", "d"}, {"minecraft"}, "x");
    var z, w := Mod("z", "z", {"z"}, {"minecraft"}, "z"), Mod("w", "w", {"w"}, {"minecraft"}, "w");
    var discovered := [t, m, y, x, z, w];
    SixProvided(t, m, y, x, z, w);
    h := FrontHalfTested(discovered);
  }
}
