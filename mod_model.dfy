/** The mod record the bisection engine works on, and the provider lookups it performs.

    A mod has a display name, the id it declares itself (its main id), the set of every id it
    provides (its own id, its `provides` aliases and the ids of the jars nested in it), the set
    of ids it depends on, and the file name (without `.jar`) its jar is toggled by. */
module ModModel {

  datatype Option<+T> = None | Some(value: T) {
    function GetOr(default: T): T {
      match this
      case Some(v) => v
      case None => default
    }
  }

  datatype Result<+T, +E> = Ok(value: T) | Err(error: E)

  datatype Mod = Mod(name: string, mainId: string, ids: set<string>, deps: set<string>, filename: string)

  /** A mod named and filed under its own id that provides only that id and needs nothing. */
  function Solo(id: string): Mod {
    Mod(id, id, {id}, {}, id)
  }

  /** Ids that name the game, the loader or the runtime rather than a mod; dependency
      resolution skips them. */
  predicate IsPlatform(dependency: string) {
    dependency == "minecraft" || dependency == "fabricloader" || dependency == "java"
  }

  predicate Provides(m: Mod, dependency: string) {
    dependency in m.ids
  }

  /** The `stream().anyMatch(m -> m.ids().contains(dependency))` test of the engine. */
  predicate AnyProvides(pool: seq<Mod>, dependency: string) {
    exists m :: m in pool && Provides(m, dependency)
  }

  /** The mods of a list, as a set. */
  function Elems(pool: seq<Mod>): set<Mod> {
    set m | m in pool
  }

  /** The index of the first mod of `pool` that provides `dependency`, or -1 if none does. */
  function FirstProvider(pool: seq<Mod>, dependency: string): (r: int)
    ensures -1 <= r < |pool|
    ensures r == -1 <==> !AnyProvides(pool, dependency)
    ensures r >= 0 ==> Provides(pool[r], dependency)
    ensures r >= 0 ==> forall j :: 0 <= j < r ==> !Provides(pool[j], dependency)
  {
    if pool == [] then -1
    else if Provides(pool[0], dependency) then 0
    else
      var k := FirstProvider(pool[1..], dependency);
      assert forall m :: m in pool[1..] ==> m in pool;
      assert forall m :: m in pool ==> m == pool[0] || m in pool[1..];
      if k == -1 then -1 else k + 1
  }

  /** The `for (...) if (pool.get(i).ids().contains(dependency)) ... break;` search the engine
      runs over its working and candidate lists. */
  method FindProvider(pool: seq<Mod>, dependency: string) returns (i: int)
    ensures i == FirstProvider(pool, dependency)
  {
    i := 0;
    while i < |pool|
      invariant 0 <= i <= |pool|
      invariant forall j :: 0 <= j < i ==> !Provides(pool[j], dependency)
    {
      if Provides(pool[i], dependency) {
        return;
      }
      i := i + 1;
    }
    i := -1;
  }

  /** The list with the element at index `i` taken out (`ArrayList.remove(int)`). */
  function RemoveAt(pool: seq<Mod>, i: nat): (r: seq<Mod>)
    requires i < |pool|
    ensures |r| == |pool| - 1
    ensures multiset(r) + multiset{pool[i]} == multiset(pool)
  {
    assert pool == pool[..i] + [pool[i]] + pool[i + 1..];
    pool[..i] + pool[i + 1..]
  }

  /** `a` is `b` with some of its elements left out and the rest kept in their order. */
  predicate Subsequence(a: seq<Mod>, b: seq<Mod>)
    decreases |b|
  {
    || a == b
    || (b != [] && (Subsequence(a, b[1..]) || (a != [] && a[0] == b[0] && Subsequence(a[1..], b[1..]))))
  }

  lemma {:induction false} SubsequenceTransitive(a: seq<Mod>, b: seq<Mod>, c: seq<Mod>)
    requires Subsequence(a, b) && Subsequence(b, c)
    ensures Subsequence(a, c)
    decreases |c|
  {
    if a != b && b != c {
      if Subsequence(b, c[1..]) {
        SubsequenceTransitive(a, b, c[1..]);
      } else if Subsequence(a, b[1..]) {
        SubsequenceTransitive(a, b[1..], c[1..]);
      } else {
        SubsequenceTransitive(a[1..], b[1..], c[1..]);
      }
    }
  }

  /** The first `|a| + j` elements of `a + b` are `a` and the first `j` of `b`. */
  lemma AppendPrefix(a: seq<Mod>, b: seq<Mod>, j: nat)
    requires j <= |b|
    ensures (a + b)[..|a| + j] == a + b[..j]
  {
  }

  /** The first `i` elements of `a + b`, for `i` up to `|a|`, are the first `i` of `a`. */
  lemma AppendPrefixShort(a: seq<Mod>, b: seq<Mod>, i: nat)
    requires i <= |a|
    ensures (a + b)[..i] == a[..i]
  {
  }

  /** `remove(i)` keeps the order of the other elements. */
  lemma {:induction false} RemoveAtSubsequence(pool: seq<Mod>, i: nat)
    requires i < |pool|
    ensures Subsequence(RemoveAt(pool, i), pool)
  {
    if i == 0 {
      assert RemoveAt(pool, 0) == pool[1..];
    } else {
      RemoveAtSubsequence(pool[1..], i - 1);
      assert RemoveAt(pool, i)[1..] == RemoveAt(pool[1..], i - 1);
    }
  }

  /** The list with the first occurrence of `m` taken out, or unchanged when `m` is absent
      (`ArrayList.remove(Object)`). */
  function RemoveFirst(pool: seq<Mod>, m: Mod): (r: seq<Mod>)
    ensures m !in pool ==> r == pool
    ensures m in pool ==> |r| == |pool| - 1 && multiset(r) + multiset{m} == multiset(pool)
    ensures forall x :: x in r ==> x in pool
    ensures forall x :: x in pool && x != m ==> x in r
  {
    if pool == [] then []
    else
      assert pool == [pool[0]] + pool[1..];
      if pool[0] == m then pool[1..]
      else [pool[0]] + RemoveFirst(pool[1..], m)
  }
}
