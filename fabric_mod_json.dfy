/** A mod jar as the engine reads it, already decoded: the jar's file name and, when the jar has
    one, its `fabric.mod.json`. Jars nested in a mod (its `jars` entries) are themselves decoded
    `fabric.mod.json` records, or `None` for a nested jar without one; so a jar is a tree.

    The functions here say what normalising such a tree yields: every id the tree declares, every
    dependency it declares, and where its file name loses its `.jar` extension. */
module FabricModJson {
  import opened ModModel

  /** The decoded `fabric.mod.json`: `id` is `None` when the field is absent, `depends` is the
      key set of the `depends` object. */
  datatype ModJson = ModJson(
    id: Option<string>,
    name: Option<string>,
    provided: seq<string>,  // the `provides` array
    depends: set<string>,
    jars: seq<Option<ModJson>>)

  datatype JarFile = JarFile(fileName: string, fmj: Option<ModJson>)

  /** Why parsing a jar fails: no `id` field (a null dereference in the source), no `.jar` in the
      file name (an I/O error), or a substring cut at index -1 (an index error). */
  datatype ParseError = MissingId | NoJarExtension | SubstringOutOfBounds

  /** Nested jars are copied to a temporary file whose name ends in `.jar`. */
  const NestedJarName: string := "skycatdevbinarysearchtool.jar"

  const JarExtension: string := ".jar"

  /** `pat` occurs in `s` at position `k`. */
  predicate OccursAt(s: string, pat: string, k: int) {
    0 <= k && k + |pat| <= |s| && s[k..k + |pat|] == pat
  }

  /** `s.lastIndexOf(pat)`: the last position at which `pat` occurs in `s`, or -1. */
  function LastIndexOf(s: string, pat: string): (r: int)
    requires pat != []
    ensures r == -1 || OccursAt(s, pat, r)
    ensures forall k :: r < k ==> !OccursAt(s, pat, k)
    decreases |s|
  {
    if |s| < |pat| then -1
    else if s[|s| - |pat|..] == pat then |s| - |pat|
    else
      var r := LastIndexOf(s[..|s| - 1], pat);
      assert forall k :: OccursAt(s, pat, k) && k < |s| - |pat| ==> OccursAt(s[..|s| - 1], pat, k);
      r
  }

  lemma NestedJarNameHasExtension()
    ensures LastIndexOf(NestedJarName, JarExtension) >= 0
  {
    assert NestedJarName[|NestedJarName| - 4..] == JarExtension;
  }

  /** The record's own id and its `provides` aliases. */
  function OwnIds(j: ModJson): set<string> {
    (if j.id.Some? then {j.id.value} else {}) + (set p | p in j.provided)
  }

  /** `ids.add(id)` followed by `provides.forEach(e -> ids.add(e))`. */
  method OwnIdsOf(j: ModJson) returns (ids: set<string>)
    requires j.id.Some?
    ensures ids == OwnIds(j)
    ensures j.id.value in ids && forall p :: p in j.provided ==> p in ids
  {
    ids := {j.id.value};
    var i := 0;
    while i < |j.provided|
      invariant 0 <= i <= |j.provided|
      invariant ids == {j.id.value} + (set p | p in j.provided[..i])
    {
      assert j.provided[..i + 1] == j.provided[..i] + [j.provided[i]];
      ids := ids + {j.provided[i]};
      i := i + 1;
    }
    assert j.provided[..i] == j.provided;
  }

  /** Every record in the tree has an `id`. */
  predicate IdsPresent(j: ModJson)
    decreases j
  {
    j.id.Some? && forall k :: 0 <= k < |j.jars| && j.jars[k].Some? ==> IdsPresent(j.jars[k].value)
  }

  /** Every id the tree declares: its own id, its aliases and those of every nested record. */
  function AllIds(j: ModJson): set<string>
    decreases j, 1, 0
  {
    OwnIds(j) + NestedIds(j, |j.jars|)
  }

  /** The ids declared by the first `k` nested jars of `j`. */
  function NestedIds(j: ModJson, k: nat): set<string>
    requires k <= |j.jars|
    decreases j, 0, k
  {
    if k == 0 then {}
    else
      NestedIds(j, k - 1) + match j.jars[k - 1] case None => {} case Some(n) => AllIds(n)
  }

  /** Every dependency the tree declares, before any pruning. */
  function AllDeps(j: ModJson): set<string>
    decreases j, 1, 0
  {
    j.depends + NestedDeps(j, |j.jars|)
  }

  /** The dependencies declared by the first `k` nested jars of `j`. */
  function NestedDeps(j: ModJson, k: nat): set<string>
    requires k <= |j.jars|
    decreases j, 0, k
  {
    if k == 0 then {}
    else
      NestedDeps(j, k - 1) + match j.jars[k - 1] case None => {} case Some(n) => AllDeps(n)
  }

  /** One nested jar more: adding its ids and its pruned dependencies keeps the ids those of
      the first `k + 1` nested jars, and the dependencies between all declared and those not
      provided. */
  lemma NestedStep(j: ModJson, k: nat, ids: set<string>, deps: set<string>,
                   nestedIds: set<string>, nestedDeps: set<string>)
    requires k < |j.jars|
    requires ids == OwnIds(j) + NestedIds(j, k)
    requires deps <= j.depends + NestedDeps(j, k)
    requires (j.depends + NestedDeps(j, k)) - NestedIds(j, k) <= deps
    requires j.jars[k].Some? ==>
               nestedIds == AllIds(j.jars[k].value) && nestedDeps == AllDeps(j.jars[k].value) - AllIds(j.jars[k].value)
    requires j.jars[k].None? ==> nestedIds == {} && nestedDeps == {}
    ensures ids + nestedIds == OwnIds(j) + NestedIds(j, k + 1)
    ensures deps + nestedDeps <= j.depends + NestedDeps(j, k + 1)
    ensures (j.depends + NestedDeps(j, k + 1)) - NestedIds(j, k + 1) <= deps + nestedDeps
  {
  }
}
