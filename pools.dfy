/** The engine's lists as one value, and what the engine promises about them.

    `mods` holds every discovered mod; `working` the mods cleared of suspicion; `candidates` the
    mods still suspected; `testing` the candidates enabled for the current trial;
    `testingDeps` the working mods enabled because the trial's mods need them; `forced` the mods
    the user force-enabled. Both engines (`SearchHandler` and the older `SearchGui`) keep these
    lists and update them the same way after a trial. */
module Pools {
  import opened ModModel

  datatype PoolState = PoolState(
    mods: seq<Mod>,
    working: seq<Mod>,
    candidates: seq<Mod>,
    testing: seq<Mod>,
    testingDeps: seq<Mod>,
    forced: seq<Mod>)

  /** The pool invariant: every discovered mod is working, a candidate or under test, and the
      testing dependencies and force-enabled mods are working mods. */
  predicate Covered(p: PoolState) {
    && (forall m :: m in p.mods ==> m in p.working || m in p.candidates || m in p.testing)
    && (forall m :: m in p.testingDeps ==> m in p.working)
    && (forall m :: m in p.forced ==> m in p.working)
  }

  /** The state right after discovery: every discovered mod is a candidate. */
  function Discovered(mods: seq<Mod>): (p: PoolState)
    ensures Covered(p)
  {
    PoolState(mods, [], mods, [], [], [])
  }

  /** Folding the last trial's result into the lists: a successful trial clears the tested mods;
      a failed one clears every untested candidate and keeps the tested mods as the candidates.
      The testing lists are emptied either way. */
  function Fold(p: PoolState, lastSuccessful: bool): PoolState {
    if lastSuccessful then
      PoolState(p.mods, p.working + p.testing, p.candidates, [], [], p.forced)
    else
      PoolState(p.mods, p.working + p.candidates, p.testing, [], [], p.forced)
  }

  /** Folding a trial keeps the pool invariant, never adds a suspect, and leaves the testing
      lists empty. */
  lemma FoldCovered(p: PoolState, lastSuccessful: bool)
    requires Covered(p)
    ensures var q := Fold(p, lastSuccessful);
      && Covered(q)
      && q.testing == [] && q.testingDeps == []
      && multiset(q.candidates) <= multiset(p.candidates) + multiset(p.testing)
  {
  }

  /** If the trial reported honestly whether the one culprit was under test (success exactly
      when it was not), the culprit is still a candidate after the fold. */
  lemma FoldKeepsCulprit(p: PoolState, lastSuccessful: bool, culprit: Mod)
    requires culprit in p.candidates || culprit in p.testing
    requires lastSuccessful <==> culprit !in p.testing
    ensures culprit in Fold(p, lastSuccessful).candidates
  {
  }

  /** The first trial folds a success over empty testing lists: the working and candidate lists
      are left as they were. */
  lemma FoldFirstTrial(p: PoolState)
    requires p.testing == [] && p.testingDeps == []
    ensures Fold(p, true) == p
  {
    assert p.working + [] == p.working;
  }

  /** What the engine has reported: still searching, the one remaining candidate, or a fatal
      error. The handler's fatal dialogs end the program; the window's fatal dialog calls an
      `onFatalError` that does nothing, so the window stays open. */
  datatype Status = Searching | Finished(culprit: Mod) | Fatal

  /** The culprit `c` is still suspected, and the trial that ran reported a failure exactly when
      `c` was among the tested mods. */
  predicate HonestTrial(p: PoolState, lastSuccessful: bool, c: Mod) {
    (c in p.candidates || c in p.testing) && (lastSuccessful <==> c !in p.testing)
  }

  /** `dependency` needs nothing more for the current trial: it names the platform, a mod under
      test or a testing dependency provides it, or no working mod and no candidate does. */
  predicate Satisfied(p: PoolState, dependency: string) {
    || IsPlatform(dependency)
    || AnyProvides(p.testing, dependency)
    || AnyProvides(p.testingDeps, dependency)
    || !(AnyProvides(p.working, dependency) || AnyProvides(p.candidates, dependency))
  }

  /** `dependency` still has to be looked up: it is not a platform id and nothing in the trial
      provides it yet. */
  predicate Wanted(p: PoolState, dependency: string) {
    !IsPlatform(dependency) && !AnyProvides(p.testing, dependency) && !AnyProvides(p.testingDeps, dependency)
  }

  /** Every dependency of `m` is satisfied. */
  predicate Closed(p: PoolState, m: Mod) {
    forall dependency :: dependency in m.deps ==> Satisfied(p, dependency)
  }

  /** What dependency resolution may do to the lists: append to the testing lists, move
      candidates into testing (the remaining candidates keep their order), and draw testing
      dependencies only from the working mods. */
  predicate Extends(p: PoolState, q: PoolState) {
    && q.mods == p.mods && q.working == p.working && q.forced == p.forced
    && p.testing <= q.testing
    && p.testingDeps <= q.testingDeps
    && Subsequence(q.candidates, p.candidates)
    && multiset(q.candidates) <= multiset(p.candidates)
    && multiset(q.candidates) + multiset(q.testing) == multiset(p.candidates) + multiset(p.testing)
    && (forall m :: m in q.testingDeps ==> m in p.testingDeps || m in p.working)
  }

  lemma ExtendsReflexive(p: PoolState)
    ensures Extends(p, p)
  {
  }

  lemma {:induction false} ExtendsTransitive(p: PoolState, q: PoolState, r: PoolState)
    requires Extends(p, q) && Extends(q, r)
    ensures Extends(p, r)
  {
    assert multiset(r.candidates) + multiset(r.testing)
      == multiset(p.candidates) + multiset(p.testing);
    SubsequenceTransitive(r.candidates, q.candidates, p.candidates);
  }

  lemma {:induction false} MultisetSubsetMembers(a: seq<Mod>, b: seq<Mod>)
    requires multiset(a) <= multiset(b)
    ensures forall m :: m in a ==> m in b
  {
    forall m | m in a ensures m in b {
      assert m in multiset(a);
    }
  }

  /** Resolution never undoes what it has settled: a satisfied dependency stays satisfied. */
  lemma SatisfiedMonotone(p: PoolState, q: PoolState, dependency: string)
    requires Extends(p, q) && Satisfied(p, dependency)
    ensures Satisfied(q, dependency)
  {
    MultisetSubsetMembers(q.candidates, p.candidates);
    if AnyProvides(p.testing, dependency) {
      var m :| m in p.testing && Provides(m, dependency);
      assert m in q.testing;
    } else if AnyProvides(p.testingDeps, dependency) {
      var m :| m in p.testingDeps && Provides(m, dependency);
      assert m in q.testingDeps;
    }
  }

  lemma ClosedMonotone(p: PoolState, q: PoolState, m: Mod)
    requires Extends(p, q) && Closed(p, m)
    ensures Closed(q, m)
  {
    forall dependency | dependency in m.deps ensures Satisfied(q, dependency) {
      SatisfiedMonotone(p, q, dependency);
    }
  }

  /** Every mod in testing from index `nt` on, and in the testing dependencies from index `nd`
      on, is closed; `ClosedFrom(p, 0, 0)` says the whole trial is. */
  predicate ClosedFrom(p: PoolState, nt: nat, nd: nat) {
    && (forall k :: nt <= k < |p.testing| ==> Closed(p, p.testing[k]))
    && (forall k :: nd <= k < |p.testingDeps| ==> Closed(p, p.testingDeps[k]))
  }

  /** Closure survives a resolution step that closes every mod it appends. */
  lemma ClosedFromKept(p: PoolState, q: PoolState, nt: nat, nd: nat)
    requires Extends(p, q) && ClosedFrom(p, nt, nd)
    requires ClosedFrom(q, |p.testing|, |p.testingDeps|)
    ensures ClosedFrom(q, nt, nd)
  {
    forall k | nt <= k < |p.testing| ensures Closed(q, q.testing[k]) {
      assert q.testing[k] == p.testing[k];
      ClosedMonotone(p, q, p.testing[k]);
    }
    forall k | nd <= k < |p.testingDeps| ensures Closed(q, q.testingDeps[k]) {
      assert q.testingDeps[k] == p.testingDeps[k];
      ClosedMonotone(p, q, p.testingDeps[k]);
    }
  }

  /** Resolution keeps the pool invariant. */
  lemma ExtendsCovered(p: PoolState, q: PoolState)
    requires Covered(p) && Extends(p, q)
    ensures Covered(q)
  {
    forall m | m in q.mods ensures m in q.working || m in q.candidates || m in q.testing {
      if m in p.testing {
        assert m in q.testing;
      } else if m in p.candidates {
        assert m in multiset(p.candidates) + multiset(p.testing);
      }
    }
  }

  /** Whatever resolution does after the fold, an honestly reported culprit is still a candidate
      or under test. */
  lemma CulpritKept(p: PoolState, lastSuccessful: bool, r: PoolState)
    requires var q := Fold(p, lastSuccessful); Extends(q.(candidates := SortByDeps(q.candidates)), r)
    ensures forall c :: HonestTrial(p, lastSuccessful, c) ==> c in r.candidates || c in r.testing
  {
    var q := Fold(p, lastSuccessful);
    forall c | HonestTrial(p, lastSuccessful, c) ensures c in r.candidates || c in r.testing {
      FoldKeepsCulprit(p, lastSuccessful, c);
      assert c in multiset(SortByDeps(q.candidates)) + multiset(q.testing);
      assert c in multiset(r.candidates) + multiset(r.testing);
    }
  }

  // ----- What resolution appends, and why

  /** The dependencies of `m` that resolution looks up: all but the platform ids. */
  function NeedsOf(m: Mod): set<string> {
    set d | d in m.deps && !IsPlatform(d)
  }

  /** The looked-up dependencies of every mod of `s`. */
  function Needs(s: seq<Mod>): set<string> {
    if s == [] then {} else NeedsOf(s[0]) + Needs(s[1..])
  }

  lemma {:induction false} NeedsAppend(a: seq<Mod>, b: seq<Mod>)
    ensures Needs(a + b) == Needs(a) + Needs(b)
  {
    if a == [] {
      assert a + b == b;
    } else {
      assert (a + b)[1..] == a[1..] + b;
      NeedsAppend(a[1..], b);
    }
  }

  /** Every id some mod of `s` provides. */
  function IdsOf(s: seq<Mod>): set<string> {
    set m, d | m in s && d in m.ids :: d
  }

  /** Every id the trial provides: those of the mods under test and of the testing
      dependencies. */
  function TrialIds(p: PoolState): set<string> {
    IdsOf(p.testing + p.testingDeps)
  }

  /** Some mod of `s` provides `dependency` exactly when `dependency` is one of its ids. */
  lemma ProvidedIds(s: seq<Mod>, dependency: string)
    ensures AnyProvides(s, dependency) <==> dependency in IdsOf(s)
  {
    if dependency in IdsOf(s) {
      var m :| m in s && dependency in m.ids;
      assert Provides(m, dependency);
    }
  }

  lemma {:induction false} IdsOfAppend(a: seq<Mod>, b: seq<Mod>)
    ensures IdsOf(a + b) == IdsOf(a) + IdsOf(b)
  {
    forall d | d in IdsOf(a + b) ensures d in IdsOf(a) + IdsOf(b) {
      var m :| m in a + b && d in m.ids;
      if m in a {
        assert d in IdsOf(a);
      } else {
        assert d in IdsOf(b);
      }
    }
    forall d | d in IdsOf(a) + IdsOf(b) ensures d in IdsOf(a + b) {
      if d in IdsOf(a) {
        var m :| m in a && d in m.ids;
        assert m in a + b;
      } else {
        var m :| m in b && d in m.ids;
        assert m in a + b;
      }
    }
  }

  /** An id still to be looked up is one the trial does not provide. */
  lemma WantedUnheld(p: PoolState, dependency: string)
    requires Wanted(p, dependency)
    ensures dependency !in TrialIds(p)
  {
    IdsOfAppend(p.testing, p.testingDeps);
    ProvidedIds(p.testing, dependency);
    ProvidedIds(p.testingDeps, dependency);
  }

  /** Each mod of `s` provides an id of `need`, or a dependency of a mod listed before it, that
      neither the ids `held` nor a mod listed before it provide: it was looked up because
      nothing there yet provided it. */
  predicate JustifiedFrom(held: set<string>, need: set<string>, s: seq<Mod>) {
    forall i :: 0 <= i < |s| ==> JustifiedAt(held, need, s, i)
  }

  /** The `i`th mod of `s` provides an id of `need`, or a dependency of a mod before it, that
      neither `held` nor a mod before it provides. */
  predicate JustifiedAt(held: set<string>, need: set<string>, s: seq<Mod>, i: nat)
    requires i < |s|
  {
    s[i].ids * (need + Needs(s[..i])) - held - IdsOf(s[..i]) != {}
  }

  /** Each mod of `s` provides an id of `need` that neither the ids `held` nor a mod before it
      in `s` provide, so at most one mod is there for each id, and none for an id already
      held. */
  predicate DirectFor(held: set<string>, need: set<string>, s: seq<Mod>) {
    forall i :: 0 <= i < |s| ==> s[i].ids * need - held - IdsOf(s[..i]) != {}
  }

  /** A single mod that provides an id of `need` not held is there for that id. */
  lemma DirectForOne(held: set<string>, need: set<string>, m: Mod, dependency: string)
    requires dependency in need && dependency !in held && Provides(m, dependency)
    ensures DirectFor(held, need, [m])
  {
    assert [m][..0] == [];
    assert dependency in [m][0].ids * need - held - IdsOf([m][..0]);
  }

  /** `added` holds, in some order, exactly the mods appended to the two testing lists from `p`
      to `q`. */
  predicate AddedBy(p: PoolState, q: PoolState, added: seq<Mod>) {
    && |p.testing| <= |q.testing| && |p.testingDeps| <= |q.testingDeps|
    && multiset(q.testing[|p.testing|..]) + multiset(q.testingDeps[|p.testingDeps|..]) == multiset(added)
  }

  /** `q` is `p` after resolving the ids `need`: the mods appended to the trial are `added`, in
      the order they were appended, each providing one of those ids or a dependency of a mod
      appended before it that the trial did not provide when it was appended; when nothing is
      appended nothing changes. */
  predicate ResolvedFor(p: PoolState, q: PoolState, need: set<string>, added: seq<Mod>) {
    AddedBy(p, q, added) && JustifiedFrom(TrialIds(p), need, added) && (added == [] ==> q == p)
  }

  lemma ResolvedNothing(p: PoolState, need: set<string>)
    ensures ResolvedFor(p, p, need, [])
  {
    assert p.testing[|p.testing|..] == [] && p.testingDeps[|p.testingDeps|..] == [];
  }

  /** The mods `added` are all in the trial of `q`. */
  lemma AddedMembers(p: PoolState, q: PoolState, added: seq<Mod>)
    requires AddedBy(p, q, added)
    ensures forall m :: m in added ==> m in q.testing || m in q.testingDeps
  {
    forall m | m in added ensures m in q.testing || m in q.testingDeps {
      assert m in multiset(added);
      if m in multiset(q.testing[|p.testing|..]) {
        assert m in q.testing[|p.testing|..];
      } else {
        assert m in q.testingDeps[|p.testingDeps|..];
      }
    }
  }

  /** One mod appended to one of the testing lists. */
  lemma AddedOne(p: PoolState, q: PoolState, m: Mod)
    requires || (q.testing == p.testing + [m] && q.testingDeps == p.testingDeps)
             || (q.testing == p.testing && q.testingDeps == p.testingDeps + [m])
    ensures AddedBy(p, q, [m])
  {
    if q.testing == p.testing + [m] {
      assert q.testing[|p.testing|..] == [m] && q.testingDeps[|p.testingDeps|..] == [];
    } else {
      assert q.testing[|p.testing|..] == [] && q.testingDeps[|p.testingDeps|..] == [m];
    }
  }

  /** A resolution for some ids is one for any larger set of ids. */
  lemma {:induction false} ResolvedWiden(p: PoolState, q: PoolState, need: set<string>, wider: set<string>, added: seq<Mod>)
    requires ResolvedFor(p, q, need, added)
    requires added != [] ==> need <= wider
    ensures ResolvedFor(p, q, wider, added)
  {
    forall i | 0 <= i < |added| ensures JustifiedAt(TrialIds(p), wider, added, i) {
      assert JustifiedAt(TrialIds(p), need, added, i);
      var d :| d in added[i].ids * (need + Needs(added[..i])) - TrialIds(p) - IdsOf(added[..i]);
      assert d in added[i].ids * (wider + Needs(added[..i])) - TrialIds(p) - IdsOf(added[..i]);
    }
  }

  lemma {:induction false} IdsOfMultiset(a: seq<Mod>, b: seq<Mod>)
    requires multiset(a) == multiset(b)
    ensures IdsOf(a) == IdsOf(b)
  {
    forall d | d in IdsOf(a) ensures d in IdsOf(b) {
      var m :| m in a && d in m.ids;
      assert m in multiset(b);
    }
    forall d | d in IdsOf(b) ensures d in IdsOf(a) {
      var m :| m in b && d in m.ids;
      assert m in multiset(a);
    }
  }

  /** After a resolution the trial provides what it provided before and what was appended. */
  lemma TrialAdded(p: PoolState, q: PoolState, added: seq<Mod>)
    requires AddedBy(p, q, added) && p.testing <= q.testing && p.testingDeps <= q.testingDeps
    ensures TrialIds(q) == TrialIds(p) + IdsOf(added)
  {
    var tt, td := q.testing[|p.testing|..], q.testingDeps[|p.testingDeps|..];
    assert q.testing == p.testing + tt && q.testingDeps == p.testingDeps + td;
    IdsOfAppend(p.testing, tt);
    IdsOfAppend(p.testingDeps, td);
    IdsOfAppend(q.testing, q.testingDeps);
    IdsOfAppend(p.testing, p.testingDeps);
    IdsOfAppend(tt, td);
    IdsOfMultiset(tt + td, added);
  }

  lemma {:induction false} AddedByChain(p: PoolState, q: PoolState, r: PoolState, a: seq<Mod>, b: seq<Mod>)
    requires AddedBy(p, q, a) && AddedBy(q, r, b)
    requires q.testing <= r.testing && q.testingDeps <= r.testingDeps
    ensures AddedBy(p, r, a + b)
  {
    assert r.testing[|p.testing|..] == q.testing[|p.testing|..] + r.testing[|q.testing|..];
    assert r.testingDeps[|p.testingDeps|..] == q.testingDeps[|p.testingDeps|..] + r.testingDeps[|q.testingDeps|..];
  }

  /** The `j`th mod of `b`, justified after `a`, is justified in `a + b`. */
  lemma {:induction false} JustifiedAfter(held: set<string>, need: set<string>, a: seq<Mod>, b: seq<Mod>, j: nat)
    requires j < |b| && JustifiedAt(held + IdsOf(a), need + Needs(a), b, j)
    ensures JustifiedAt(held, need, a + b, |a| + j)
  {
    var d :| d in b[j].ids * ((need + Needs(a)) + Needs(b[..j])) - (held + IdsOf(a)) - IdsOf(b[..j]);
    var s := a + b;
    AppendPrefix(a, b, j);
    NeedsAppend(a, b[..j]);
    IdsOfAppend(a, b[..j]);
    assert s[|a| + j] == b[j] && s[..|a| + j] == a + b[..j];
    assert d in s[|a| + j].ids && d !in held;
    assert d in need + Needs(s[..|a| + j]);
    assert d !in IdsOf(s[..|a| + j]);
  }

  /** The `i`th mod of `a`, justified in `a`, is justified in `a + b`. */
  lemma {:induction false} JustifiedBefore(held: set<string>, need: set<string>, a: seq<Mod>, b: seq<Mod>, i: nat)
    requires i < |a| && JustifiedAt(held, need, a, i)
    ensures JustifiedAt(held, need, a + b, i)
  {
    var d :| d in a[i].ids * (need + Needs(a[..i])) - held - IdsOf(a[..i]);
    AppendPrefixShort(a, b, i);
    assert (a + b)[i] == a[i];
    assert d in (a + b)[i].ids * (need + Needs((a + b)[..i])) - held - IdsOf((a + b)[..i]);
  }

  /** Mods justified from `need`, followed by mods justified from `need` and what the first ones
      need, with the first ones' ids held too, are justified from `need` together. */
  lemma {:induction false} JustifiedAppend(held: set<string>, need: set<string>, a: seq<Mod>, b: seq<Mod>)
    requires JustifiedFrom(held, need, a) && JustifiedFrom(held + IdsOf(a), need + Needs(a), b)
    ensures JustifiedFrom(held, need, a + b)
  {
    forall i | 0 <= i < |a + b| ensures JustifiedAt(held, need, a + b, i) {
      if i < |a| {
        JustifiedBefore(held, need, a, b, i);
      } else {
        JustifiedAfter(held, need, a, b, i - |a|);
      }
    }
  }

  /** Two resolutions in a row, the second one also free to serve the mods the first appended,
      make one resolution. */
  lemma ResolvedChain(p: PoolState, q: PoolState, r: PoolState, need: set<string>, a: seq<Mod>, b: seq<Mod>)
    requires Extends(p, q) && Extends(q, r)
    requires ResolvedFor(p, q, need, a) && ResolvedFor(q, r, need + Needs(a), b)
    ensures ResolvedFor(p, r, need, a + b)
  {
    AddedByChain(p, q, r, a, b);
    TrialAdded(p, q, a);
    JustifiedAppend(TrialIds(p), need, a, b);
  }

  /** A mod appended because it provides a needed id, followed by the resolution of its own
      dependencies. */
  lemma {:induction false} ResolvedPull(p: PoolState, q: PoolState, r: PoolState, need: set<string>,
                                        dependency: string, m: Mod, b: seq<Mod>)
    requires dependency in need && dependency !in TrialIds(p) && Provides(m, dependency)
    requires AddedBy(p, q, [m]) && Extends(p, q) && Extends(q, r) && ResolvedFor(q, r, NeedsOf(m), b)
    ensures ResolvedFor(p, r, need, [m] + b)
  {
    assert [m][..0] == [];
    assert dependency in [m][0].ids * (need + Needs([m][..0])) - TrialIds(p) - IdsOf([m][..0]);
    assert Needs([m]) == NeedsOf(m) + Needs([]);
    ResolvedWiden(q, r, NeedsOf(m), need + Needs([m]), b);
    ResolvedChain(p, q, r, need, [m], b);
  }

  /** A resolution of ids the trial already provides (none at all, say) appends nothing and
      changes nothing. */
  lemma NothingWanted(p: PoolState, q: PoolState, need: set<string>, added: seq<Mod>)
    requires ResolvedFor(p, q, need, added) && need <= TrialIds(p)
    ensures added == [] && q == p
  {
    if added != [] {
      JustifiedFirst(TrialIds(p), need, added);
      assert false;
    }
  }

  /** The first mod of a justified list provides an id of `need` not held. */
  lemma JustifiedFirst(held: set<string>, need: set<string>, s: seq<Mod>)
    requires |s| > 0 && JustifiedFrom(held, need, s)
    ensures s[0].ids * need - held != {}
  {
    assert JustifiedAt(held, need, s, 0);
    assert s[..0] == [];
  }

  /** A working mod that provides `dependency` appended to the testing dependencies (`p` to
      `q`), then its own dependencies resolved (`q` to `r`). */
  lemma PulledWorking(p: PoolState, q: PoolState, r: PoolState, dependency: string, m: Mod, rest: seq<Mod>)
    requires q == p.(testingDeps := p.testingDeps + [m]) && m in p.working && Provides(m, dependency)
    requires Wanted(p, dependency)
    requires Extends(q, r) && ResolvedFor(q, r, NeedsOf(m), rest)
    requires Closed(r, m) && ClosedFrom(r, |q.testing|, |q.testingDeps|)
    ensures Extends(p, r) && ResolvedFor(p, r, {dependency}, [m] + rest)
    ensures |r.testingDeps| > |p.testingDeps| && r.testingDeps[|p.testingDeps|] == m
    ensures AnyProvides(r.testingDeps, dependency)
    ensures ClosedFrom(r, |p.testing|, |p.testingDeps|)
  {
    assert Extends(p, q);
    AddedOne(p, q, m);
    ExtendsTransitive(p, q, r);
    WantedUnheld(p, dependency);
    ResolvedPull(p, q, r, {dependency}, dependency, m, rest);
    assert r.testingDeps[|p.testingDeps|] == q.testingDeps[|p.testingDeps|];
  }

  /** The candidate at index `c`, which provides `dependency`, moved into testing (`p` to `q`),
      then its own dependencies resolved (`q` to `r`). */
  lemma PulledCandidate(p: PoolState, q: PoolState, r: PoolState, dependency: string, c: nat, rest: seq<Mod>)
    requires c < |p.candidates| && Provides(p.candidates[c], dependency) && Wanted(p, dependency)
    requires q == p.(candidates := RemoveAt(p.candidates, c), testing := p.testing + [p.candidates[c]])
    requires Extends(q, r) && ResolvedFor(q, r, NeedsOf(p.candidates[c]), rest)
    requires Closed(r, p.candidates[c]) && ClosedFrom(r, |q.testing|, |q.testingDeps|)
    ensures Extends(p, r) && ResolvedFor(p, r, {dependency}, [p.candidates[c]] + rest)
    ensures |r.testing| > |p.testing| && r.testing[|p.testing|] == p.candidates[c]
    ensures AnyProvides(r.testing, dependency)
    ensures ClosedFrom(r, |p.testing|, |p.testingDeps|)
  {
    var m := p.candidates[c];
    RemoveAtSubsequence(p.candidates, c);
    assert Extends(p, q);
    AddedOne(p, q, m);
    ExtendsTransitive(p, q, r);
    WantedUnheld(p, dependency);
    ResolvedPull(p, q, r, {dependency}, dependency, m, rest);
    assert r.testing[|p.testing|] == q.testing[|p.testing|];
  }

  /** Mods that directly provide a needed id are justified by it. */
  lemma {:induction false} DirectJustified(held: set<string>, need: set<string>, s: seq<Mod>)
    requires DirectFor(held, need, s)
    ensures JustifiedFrom(held, need, s)
  {
    forall i | 0 <= i < |s| ensures JustifiedAt(held, need, s, i) {
      assert s[i].ids * need - held - IdsOf(s[..i])
          <= s[i].ids * (need + Needs(s[..i])) - held - IdsOf(s[..i]);
    }
  }

  /** The resolutions for the dependencies of `ms[..i]` and then for those of `ms[i]` make one
      resolution for the dependencies of `ms[..i + 1]`. */
  lemma ResolvedForNext(p: PoolState, q: PoolState, r: PoolState, ms: seq<Mod>, i: nat,
                        a: seq<Mod>, b: seq<Mod>)
    requires i < |ms| && Extends(p, q) && Extends(q, r)
    requires ResolvedFor(p, q, Needs(ms[..i]), a) && ResolvedFor(q, r, NeedsOf(ms[i]), b)
    ensures ResolvedFor(p, r, Needs(ms[..i + 1]), a + b)
  {
    assert ms[..i + 1] == ms[..i] + [ms[i]];
    NeedsAppend(ms[..i], [ms[i]]);
    assert Needs([ms[i]]) == NeedsOf(ms[i]) + Needs([]);
    var need := Needs(ms[..i + 1]);
    ResolvedWiden(p, q, Needs(ms[..i]), need, a);
    ResolvedWiden(q, r, NeedsOf(ms[i]), need + Needs(a), b);
    ResolvedChain(p, q, r, need, a, b);
  }
  /** One round of the pass over force-enabled mods `ms`: after the `i`th has its
      dependencies resolved, the ids needed by the first `i + 1` are resolved, the trial is
      still closed and so is each of those mods. */
  lemma ForcedRound(p: PoolState, q: PoolState, r: PoolState, ms: seq<Mod>, i: nat,
                    a: seq<Mod>, b: seq<Mod>)
    requires i < |ms|
    requires Extends(p, q) && ResolvedFor(p, q, Needs(ms[..i]), a) && ClosedFrom(q, 0, 0)
    requires forall k :: 0 <= k < i ==> Closed(q, ms[k])
    requires Extends(q, r) && ResolvedFor(q, r, NeedsOf(ms[i]), b) && Closed(r, ms[i])
    requires ClosedFrom(r, |q.testing|, |q.testingDeps|)
    ensures Extends(p, r) && ResolvedFor(p, r, Needs(ms[..i + 1]), a + b)
    ensures ClosedFrom(r, 0, 0)
    ensures forall k :: 0 <= k < i + 1 ==> Closed(r, ms[k])
  {
    ExtendsTransitive(p, q, r);
    ClosedFromKept(q, r, 0, 0);
    forall k | 0 <= k < i ensures Closed(r, ms[k]) {
      ClosedMonotone(q, r, ms[k]);
    }
    ResolvedForNext(p, q, r, ms, i, a, b);
  }


  /** A resolution for `mod`'s dependencies followed by one for a further dependency of `mod`
      is a resolution for `mod`'s dependencies. */
  lemma ResolvedStep(p: PoolState, q: PoolState, r: PoolState, mod: Mod, dependency: string,
                     a: seq<Mod>, b: seq<Mod>)
    requires Extends(p, q) && Extends(q, r) && dependency in mod.deps && (b != [] ==> !IsPlatform(dependency))
    requires ResolvedFor(p, q, NeedsOf(mod), a) && ResolvedFor(q, r, {dependency}, b)
    ensures ResolvedFor(p, r, NeedsOf(mod), a + b)
  {
    ResolvedWiden(q, r, {dependency}, NeedsOf(mod) + Needs(a), b);
    ResolvedChain(p, q, r, NeedsOf(mod), a, b);
  }

  /** One round of resolving the dependencies of `mod`, from `p` through `q` to `r`, where the
      round resolved `dependency`: everything settled or closed before stays so, and each mod
      appended still serves a dependency of `mod`, or of a mod appended before it, that the
      trial lacked when it joined. */
  lemma DependencyRound(p: PoolState, q: PoolState, r: PoolState, mod: Mod, todo: set<string>,
                        dependency: string, nt: nat, nd: nat, a: seq<Mod>, b: seq<Mod>)
    requires Extends(p, q) && Extends(q, r)
    requires todo <= mod.deps && dependency in todo
    requires forall d :: d in mod.deps && d !in todo ==> Satisfied(q, d)
    requires Satisfied(r, dependency)
    requires ClosedFrom(q, nt, nd) && ClosedFrom(r, |q.testing|, |q.testingDeps|)
    requires ResolvedFor(p, q, NeedsOf(mod), a) && ResolvedFor(q, r, {dependency}, b)
    requires b != [] ==> !IsPlatform(dependency)
    ensures Extends(p, r)
    ensures forall d :: d in mod.deps && d !in todo - {dependency} ==> Satisfied(r, d)
    ensures ClosedFrom(r, nt, nd)
    ensures ResolvedFor(p, r, NeedsOf(mod), a + b)
  {
    ExtendsTransitive(p, q, r);
    forall d | d in mod.deps && d !in todo ensures Satisfied(r, d) {
      SatisfiedMonotone(q, r, d);
    }
    ClosedFromKept(q, r, nt, nd);
    ResolvedStep(p, q, r, mod, dependency, a, b);
  }

  /** `p`'s front candidate moved to the end of testing. */
  function MovedFront(p: PoolState): PoolState
    requires |p.candidates| > 0
  {
    p.(candidates := p.candidates[1..], testing := p.testing + [p.candidates[0]])
  }

  /** One round of the partition loop, from `p` to `q`: the front candidate is moved into
      testing, and the mods `added` are resolved for its dependencies and nothing else. */
  predicate FrontRound(p: PoolState, q: PoolState, added: seq<Mod>) {
    && |p.candidates| > 0
    && Extends(MovedFront(p), q)
    && ResolvedFor(MovedFront(p), q, NeedsOf(p.candidates[0]), added)
  }

  /** The first `k` mods of `s` are under test, the rest are the candidates, and no working
      mod is. */
  predicate SplitAt(p: PoolState, s: seq<Mod>, k: nat) {
    k <= |s| && p.testing == s[..k] && p.candidates == s[k..] && p.testingDeps == []
  }

  /** Each mod of `s` needs only ids that it or a mod before it in `s` provides. */
  predicate ProvidedInOrder(s: seq<Mod>) {
    forall k :: 0 <= k < |s| ==> NeedsOf(s[k]) <= IdsOf(s[..k + 1])
  }

  /** When the trial, with the front candidate moved in, already provides every dependency of
      that candidate (none beyond the platform, say), a partition round over a split list moves
      exactly that candidate, and nothing else. */
  lemma ProvidedRound(s: seq<Mod>, k: nat, p: PoolState, q: PoolState, added: seq<Mod>)
    requires k < |s| && NeedsOf(s[k]) <= IdsOf(s[..k + 1]) && SplitAt(p, s, k)
    requires FrontRound(p, q, added)
    ensures SplitAt(q, s, k + 1) && |q.testing| == k + 1
    ensures q.mods == p.mods && q.working == p.working && q.forced == p.forced
  {
    assert s[..k] + [s[k]] == s[..k + 1];
    assert s[k..][1..] == s[k + 1..];
    assert MovedFront(p).testing + MovedFront(p).testingDeps == s[..k + 1];
    NothingWanted(MovedFront(p), q, NeedsOf(s[k]), added);
  }

  /** The rounds of a partition loop over `n` sorted candidates, given as the lists before each
      round and after the last one: round `k` started from `rounds[k]` with fewer than half of
      the `n` under test, moved the front of the remaining candidates into testing, keeping the
      order of the others, and added `adds[k]`: providers only for ids that mod, or a mod added
      before them, needs and the trial lacked. */
  predicate FrontRounds(rounds: seq<PoolState>, adds: seq<seq<Mod>>, n: nat) {
    && |rounds| == |adds| + 1
    && forall k :: 0 <= k < |adds| ==>
         |rounds[k].testing| < n / 2 && FrontRound(rounds[k], rounds[k + 1], adds[k])
  }

  lemma FrontRoundsGrow(rounds: seq<PoolState>, adds: seq<seq<Mod>>, n: nat, q: PoolState, added: seq<Mod>)
    requires FrontRounds(rounds, adds, n)
    requires |rounds[|rounds| - 1].testing| < n / 2 && FrontRound(rounds[|rounds| - 1], q, added)
    ensures FrontRounds(rounds + [q], adds + [added], n)
  {
    var rounds', adds' := rounds + [q], adds + [added];
    forall k | 0 <= k < |adds'|
      ensures |rounds'[k].testing| < n / 2 && FrontRound(rounds'[k], rounds'[k + 1], adds'[k])
    {
      assert rounds'[k] == rounds[k] && adds'[k] == (if k < |adds| then adds[k] else added);
      assert rounds'[k + 1] == (if k < |adds| then rounds[k + 1] else q);
    }
  }

  /** The partition loop's invariant, from the sorted lists `sorted` through the `rounds` so
      far to the current lists `p`: what is under test was resolved from `sorted`, round by
      round from the front of the remaining candidates, the first sorted candidate first.
      While each of the first half of the sorted candidates needs only what it or one before it
      provides, the trial is a prefix of the sorted candidates no longer than half. */
  predicate PartitionInv(sorted: PoolState, p: PoolState, rounds: seq<PoolState>, adds: seq<seq<Mod>>) {
    var n := |sorted.candidates|;
    && sorted.testing == [] && sorted.testingDeps == []
    && FrontRounds(rounds, adds, n) && rounds[0] == sorted && rounds[|rounds| - 1] == p
    && Extends(sorted, p)
    && |p.candidates| + |p.testing| == n
    && (p.testing == [] ==> p == sorted)
    && (p.testing != [] ==> p.testing[0] == sorted.candidates[0])
    && (ProvidedInOrder(sorted.candidates[..n / 2]) ==> |p.testing| <= n / 2 && SplitAt(p, sorted.candidates, |p.testing|))
  }

  lemma PartitionStart(sorted: PoolState)
    requires sorted.testing == [] && sorted.testingDeps == []
    ensures PartitionInv(sorted, sorted, [sorted], [])
  {
    ExtendsReflexive(sorted);
    assert sorted.candidates[..0] == [] && sorted.candidates[0..] == sorted.candidates;
  }

  /** A round keeps the trial and the candidates together the size of the sorted list. */
  lemma StepCount(sorted: PoolState, p: PoolState, q: PoolState)
    requires Extends(sorted, p) && Extends(p, q)
    requires |p.candidates| + |p.testing| == |sorted.candidates|
    ensures Extends(sorted, q) && |q.candidates| + |q.testing| == |sorted.candidates|
  {
    ExtendsTransitive(sorted, p, q);
    assert |multiset(q.candidates) + multiset(q.testing)| == |multiset(p.candidates) + multiset(p.testing)|;
  }

  /** After a round, the trial starts with the first sorted candidate. */
  lemma StepFront(sorted: PoolState, p: PoolState, q: PoolState, added: seq<Mod>)
    requires |sorted.candidates| > 0 && (p.testing == [] ==> p == sorted)
    requires p.testing != [] ==> p.testing[0] == sorted.candidates[0]
    requires FrontRound(p, q, added)
    ensures q.testing != [] && q.testing[0] == sorted.candidates[0]
  {
    assert MovedFront(p).testing <= q.testing;
    if p.testing == [] {
      assert q.testing[0] == MovedFront(p).testing[0];
    } else {
      assert q.testing[0] == p.testing[0];
    }
  }

  /** With each of the first half of the sorted candidates needing only what it or one before
      it provides, a round below half moves the next one of them and nothing else. */
  lemma StepSplit(s: seq<Mod>, p: PoolState, q: PoolState, added: seq<Mod>)
    requires ProvidedInOrder(s[..|s| / 2]) && |p.testing| < |s| / 2 && SplitAt(p, s, |p.testing|)
    requires FrontRound(p, q, added)
    ensures |q.testing| <= |s| / 2 && SplitAt(q, s, |q.testing|)
  {
    var k := |p.testing|;
    assert s[k] == s[..|s| / 2][k] && s[..k + 1] == s[..|s| / 2][..k + 1];
    ProvidedRound(s, k, p, q, added);
  }

  /** One more round below half keeps the invariant. */
  lemma PartitionStep(sorted: PoolState, p: PoolState, q: PoolState, rounds: seq<PoolState>,
                      adds: seq<seq<Mod>>, added: seq<Mod>)
    requires PartitionInv(sorted, p, rounds, adds) && |p.testing| < |sorted.candidates| / 2
    requires Extends(p, q) && FrontRound(p, q, added)
    ensures PartitionInv(sorted, q, rounds + [q], adds + [added])
  {
    StepCount(sorted, p, q);
    StepFront(sorted, p, q, added);
    FrontRoundsGrow(rounds, adds, |sorted.candidates|, q, added);
    if ProvidedInOrder(sorted.candidates[..|sorted.candidates| / 2]) {
      StepSplit(sorted.candidates, p, q, added);
    }
  }

  /** What the partition loop leaves when it starts from `q` with at least two candidates:
      `r` is reached from `q` with its candidates sorted by dependency count, at least half as
      many mods are under test as there were candidates, the first of them the front of the
      sorted candidates; `rounds` are the states between rounds, each taking the front of the
      remaining sorted candidates; and when each of the first half of the sorted candidates
      needs only what it or one before it provides, exactly that half is under test. */
  predicate Partitioned(q: PoolState, r: PoolState, rounds: seq<PoolState>, adds: seq<seq<Mod>>) {
    var n := |q.candidates|;
    var sorted := q.(candidates := SortByDeps(q.candidates));
    && n >= 2
    && |rounds| >= 2 && rounds[0] == sorted && rounds[|rounds| - 1] == r
    && Extends(sorted, r)
    && |r.testing| >= n / 2 && r.testing[0] == sorted.candidates[0]
    && FrontRounds(rounds, adds, n)
    && HalfSplit(q, r)
  }

  /** A whole bisection round after the last trial was folded into `q`: the partition loop
      leaves `partitioned`, and resolving the ids `need` of the force-enabled mods then adds
      `forcedAdded` to reach `r`, which adds nothing when the trial already holds all of
      `need`; `r` is reached from the sorted candidates, holds at least half of them under
      test with the front one first, and every mod under test has what it calls for. */
  predicate Bisected(q: PoolState, partitioned: PoolState, r: PoolState, rounds: seq<PoolState>,
                     adds: seq<seq<Mod>>, need: set<string>, forcedAdded: seq<Mod>) {
    && Partitioned(q, partitioned, rounds, adds)
    && Extends(partitioned, r)
    && ResolvedFor(partitioned, r, need, forcedAdded)
    && (need <= TrialIds(partitioned) ==> r == partitioned)
    && Extends(q.(candidates := SortByDeps(q.candidates)), r)
    && |r.testing| >= |q.candidates| / 2
    && r.testing[0] == SortByDeps(q.candidates)[0]
    && ClosedFrom(r, 0, 0)
  }

  /** The partition of `q` into `r` keeps the working mods, and when each of the first half of
      the sorted candidates needs only what it or one before it provides, tests exactly that
      half. */
  predicate HalfSplit(q: PoolState, r: PoolState) {
    var sorted := SortByDeps(q.candidates);
    && r.working == q.working
    && (ProvidedInOrder(sorted[..|q.candidates| / 2]) ==> SplitAt(r, sorted, |q.candidates| / 2))
  }

  /** When the loop leaves the partition, the trial holds at least half of the sorted
      candidates after at least one round, and exactly the first half when that half provides
      all it needs. */
  lemma PartitionDone(q: PoolState, sorted: PoolState, r: PoolState, rounds: seq<PoolState>,
                      adds: seq<seq<Mod>>)
    requires |q.candidates| >= 2 && sorted == q.(candidates := SortByDeps(q.candidates))
    requires PartitionInv(sorted, r, rounds, adds) && |r.testing| >= |q.candidates| / 2
    ensures Partitioned(q, r, rounds, adds)
  {
    DoneSplit(q, sorted, r);
  }

  /** The split clause of a finished partition: at least half under test, and when the first
      half provides what it needs, no more than that half. */
  lemma DoneSplit(q: PoolState, sorted: PoolState, r: PoolState)
    requires sorted == q.(candidates := SortByDeps(q.candidates)) && r.working == q.working
    requires |r.testing| >= |q.candidates| / 2
    requires ProvidedInOrder(sorted.candidates[..|q.candidates| / 2]) ==>
               |r.testing| <= |q.candidates| / 2 && SplitAt(r, sorted.candidates, |r.testing|)
    ensures HalfSplit(q, r)
  {
  }

  /** A partition of freshly discovered mods, already in dependency order and whose first half
      provides, in order, all it needs, tests exactly that first half and keeps the rest as the
      candidates. */
  lemma FrontHalfPartitioned(s: seq<Mod>, r: PoolState, rounds: seq<PoolState>, adds: seq<seq<Mod>>)
    requires SortedByDeps(s) && ProvidedInOrder(s[..|s| / 2])
    requires HalfSplit(Discovered(s), r)
    ensures r.testing == s[..|s| / 2] && r.candidates == s[|s| / 2..]
    ensures r.testingDeps == [] && r.working == []
  {
    SortByDepsSorted(s);
  }

  /** A mod that provides "d", one that depends on "d", and four that depend only on the game,
      the fourth of them also providing "d": in that order they are sorted by dependency count,
      and the first three provide all they need. */
  lemma SixProvided(t: Mod, m: Mod, y: Mod, x: Mod, z: Mod, w: Mod)
    requires t == Mod("t", "t", {"t", "d"}, {}, "t") && m == Mod("m", "m", {"m"}, {"d"}, "m")
    requires y == Mod("y", "y", {"y"}, {"minecraft"}, "y") && x == Mod("x", "x", {"x", "d"}, {"minecraft"}, "x")
    requires z == Mod("z", "z", {"z"}, {"minecraft"}, "z") && w == Mod("w", "w", {"w"}, {"minecraft"}, "w")
    ensures [t, m, y, x, z, w][..3] == [t, m, y] && [t, m, y, x, z, w][3..] == [x, z, w]
    ensures ProvidedInOrder([t, m, y]) && SortedByDeps([t, m, y, x, z, w])
  {
    assert IsPlatform("minecraft");
    assert NeedsOf(m) == {"d"};
    assert [t, m, y][..2] == [t, m] && t in [t, m];
    assert |t.deps| == 0 && |m.deps| == 1 && |y.deps| == 1;
    assert |x.deps| == 1 && |z.deps| == 1 && |w.deps| == 1;
  }

  // ----- The partition order: `candidateMods.sort(Comparator.comparing(m -> m.dependencies().size()))`

  /** Ascending by dependency count. */
  predicate SortedByDeps(s: seq<Mod>) {
    forall i, j :: 0 <= i < j < |s| ==> |s[i].deps| <= |s[j].deps|
  }

  /** The mods of `s` with exactly `n` dependencies, in order. */
  function WithDepCount(s: seq<Mod>, n: nat): seq<Mod> {
    if s == [] then []
    else (if |s[0].deps| == n then [s[0]] else []) + WithDepCount(s[1..], n)
  }

  /** `m` placed before the first mod of `s` with at least as many dependencies. */
  function InsertByDeps(m: Mod, s: seq<Mod>): (r: seq<Mod>)
    ensures multiset(r) == multiset(s) + multiset{m}
  {
    if s == [] || |s[0].deps| >= |m.deps| then [m] + s
    else
      assert s == [s[0]] + s[1..];
      [s[0]] + InsertByDeps(m, s[1..])
  }

  /** A mod with no more dependencies than any mod of a sorted list may be put in front of it. */
  lemma PrependSorted(h: Mod, t: seq<Mod>)
    requires SortedByDeps(t)
    requires forall x :: x in t ==> |h.deps| <= |x.deps|
    ensures SortedByDeps([h] + t)
  {
    var r := [h] + t;
    forall i, j | 0 <= i < j < |r| ensures |r[i].deps| <= |r[j].deps| {
      assert r[j] == t[j - 1];
      if i > 0 {
        assert r[i] == t[i - 1];
      } else {
        assert r[j] in t;
      }
    }
  }

  lemma {:induction false} InsertByDepsSorted(m: Mod, s: seq<Mod>)
    requires SortedByDeps(s)
    ensures SortedByDeps(InsertByDeps(m, s))
  {
    if s == [] || |s[0].deps| >= |m.deps| {
      forall x | x in s ensures |m.deps| <= |x.deps| {
        var k :| 0 <= k < |s| && s[k] == x;
        assert |s[0].deps| <= |s[k].deps|;
      }
      PrependSorted(m, s);
    } else {
      var t := InsertByDeps(m, s[1..]);
      InsertByDepsSorted(m, s[1..]);
      forall x | x in t ensures |s[0].deps| <= |x.deps| {
        assert x in multiset(s[1..]) + multiset{m};
        if x != m {
          var k :| 0 <= k < |s[1..]| && s[1..][k] == x;
          assert s[k + 1] == x;
        }
      }
      PrependSorted(s[0], t);
    }
  }

  /** List.sort is a stable sort: ascending by dependency count, mods with equal counts keeping
      their relative order. */
  function SortByDeps(s: seq<Mod>): (r: seq<Mod>)
    ensures multiset(r) == multiset(s) && |r| == |s|
    ensures SortedByDeps(r)
  {
    if s == [] then []
    else
      assert s == [s[0]] + s[1..];
      InsertByDepsSorted(s[0], SortByDeps(s[1..]));
      InsertByDeps(s[0], SortByDeps(s[1..]))
  }

  /** A list already ascending by dependency count is left as it is. */
  lemma {:induction false} SortByDepsSorted(s: seq<Mod>)
    requires SortedByDeps(s)
    ensures SortByDeps(s) == s
  {
    if s != [] {
      assert SortedByDeps(s[1..]) by {
        forall i, j | 0 <= i < j < |s[1..]| ensures |s[1..][i].deps| <= |s[1..][j].deps| {
          assert s[1..][i] == s[i + 1] && s[1..][j] == s[j + 1];
        }
      }
      SortByDepsSorted(s[1..]);
      assert s == [s[0]] + s[1..];
    }
  }

  lemma {:induction false} InsertByDepsStable(m: Mod, s: seq<Mod>, n: nat)
    ensures WithDepCount(InsertByDeps(m, s), n)
      == (if |m.deps| == n then [m] else []) + WithDepCount(s, n)
  {
    if s == [] || |s[0].deps| >= |m.deps| {
      assert ([m] + s)[1..] == s;
    } else {
      InsertByDepsStable(m, s[1..], n);
      assert ([s[0]] + InsertByDeps(m, s[1..]))[1..] == InsertByDeps(m, s[1..]);
    }
  }

  /** The sort keeps the relative order of mods with equal dependency counts. */
  lemma {:induction false} SortByDepsStable(s: seq<Mod>, n: nat)
    ensures WithDepCount(SortByDeps(s), n) == WithDepCount(s, n)
  {
    if s != [] {
      SortByDepsStable(s[1..], n);
      InsertByDepsStable(s[0], SortByDeps(s[1..]), n);
    }
  }
}
