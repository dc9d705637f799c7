/** `ModSearchComparator`: orders mods with the most dependencies first, then by main id.

    `Compare` is the comparison as written. Its first branch handles only "o1 has more
    dependencies"; when o1 has fewer it falls through to the id comparison, so the order is not
    antisymmetric (`CompareNotAntisymmetric`). `CompareCorrected` answers 1 in that case and is
    a consistent comparator (`CorrectedAntisymmetric`, `CorrectedTransitive`). */
module ModSearchComparator {
  import opened ModModel

  /** Java's `String.compareTo`: the difference of the first differing characters, or of the
      lengths when one string is a prefix of the other. */
  function CompareTo(a: string, b: string): int {
    if a == [] || b == [] then |a| - |b|
    else if a[0] != b[0] then a[0] as int - b[0] as int
    else CompareTo(a[1..], b[1..])
  }

  /** `a` comes strictly before `b` in lexicographic order. */
  predicate LexLess(a: string, b: string) {
    (|a| < |b| && a == b[..|a|])
    || exists k :: 0 <= k < |a| && k < |b| && a[..k] == b[..k] && a[k] < b[k]
  }

  lemma {:induction false} CompareToZeroIffEqual(a: string, b: string)
    ensures CompareTo(a, b) == 0 <==> a == b
  {
    if a != [] && b != [] && a[0] == b[0] {
      CompareToZeroIffEqual(a[1..], b[1..]);
      assert a == [a[0]] + a[1..] && b == [b[0]] + b[1..];
    }
  }

  lemma {:induction false} CompareToAntisymmetric(a: string, b: string)
    ensures CompareTo(a, b) == -CompareTo(b, a)
  {
    if a != [] && b != [] && a[0] == b[0] {
      CompareToAntisymmetric(a[1..], b[1..]);
    }
  }

  /** Strings with the same first character are ordered as their tails are. */
  lemma LexLessTail(a: string, b: string)
    requires a != [] && b != [] && a[0] == b[0]
    ensures LexLess(a, b) <==> LexLess(a[1..], b[1..])
  {
    if LexLess(a[1..], b[1..]) {
      if |a[1..]| < |b[1..]| && a[1..] == b[1..][..|a[1..]|] {
        assert a == b[..|a|];
      } else {
        var k :| 0 <= k < |a[1..]| && k < |b[1..]| && a[1..][..k] == b[1..][..k] && a[1..][k] < b[1..][k];
        assert a[..k + 1] == [a[0]] + a[1..][..k];
        assert b[..k + 1] == [b[0]] + b[1..][..k];
        assert a[k + 1] < b[k + 1];
      }
    }
    if LexLess(a, b) {
      if |a| < |b| && a == b[..|a|] {
        assert a[1..] == b[1..][..|a[1..]|];
      } else {
        var k :| 0 <= k < |a| && k < |b| && a[..k] == b[..k] && a[k] < b[k];
        assert k != 0;
        assert a[1..][..k - 1] == a[..k][1..] && b[1..][..k - 1] == b[..k][1..];
        assert a[1..][k - 1] < b[1..][k - 1];
      }
    }
  }

  /** A negative `compareTo` is exactly lexicographic precedence. */
  lemma {:induction false} CompareToIsLexicographic(a: string, b: string)
    ensures CompareTo(a, b) < 0 <==> LexLess(a, b)
  {
    if a == [] || b == [] {
    } else if a[0] != b[0] {
      assert a[..0] == b[..0];
      assert forall k :: 0 < k <= |a| ==> a[..k][0] == a[0];
      assert forall k :: 0 < k <= |b| ==> b[..k][0] == b[0];
    } else {
      CompareToIsLexicographic(a[1..], b[1..]);
      LexLessTail(a, b);
    }
  }

  lemma {:induction false} CompareToTransitive(a: string, b: string, c: string)
    requires CompareTo(a, b) < 0 && CompareTo(b, c) < 0
    ensures CompareTo(a, c) < 0
  {
    if a != [] && b != [] && c != [] && a[0] == b[0] && b[0] == c[0] {
      CompareToTransitive(a[1..], b[1..], c[1..]);
    }
  }

  /** `ModSearchComparator.compare`, as written. */
  function Compare(o1: Mod, o2: Mod): int {
    if |o1.deps| > |o2.deps| then -1 else CompareTo(o1.mainId, o2.mainId)
  }

  /** Comparing a mod with itself answers 0. */
  lemma CompareReflexive(m: Mod)
    ensures Compare(m, m) == 0
  {
    CompareToZeroIffEqual(m.mainId, m.mainId);
  }

  /** A mod with more dependencies comes first; otherwise, including when `o1` has fewer
      dependencies, the answer is the comparison of the main ids. */
  lemma CompareCases(o1: Mod, o2: Mod)
    ensures |o1.deps| > |o2.deps| ==> Compare(o1, o2) == -1
    ensures |o1.deps| < |o2.deps| ==> (Compare(o1, o2) < 0 <==> LexLess(o1.mainId, o2.mainId))
  {
    CompareToIsLexicographic(o1.mainId, o2.mainId);
  }

  /** With equal dependency counts the order is exactly lexicographic on the main ids, and it is
      antisymmetric. */
  lemma CompareEqualCounts(o1: Mod, o2: Mod)
    requires |o1.deps| == |o2.deps|
    ensures Compare(o1, o2) < 0 <==> LexLess(o1.mainId, o2.mainId)
    ensures Compare(o1, o2) == -Compare(o2, o1)
  {
    CompareToIsLexicographic(o1.mainId, o2.mainId);
    CompareToAntisymmetric(o1.mainId, o2.mainId);
  }

  /** Mods whose main ids collide and neither of which has more dependencies compare as equal,
      and only those. */
  lemma CompareZero(o1: Mod, o2: Mod)
    ensures Compare(o1, o2) == 0 <==> |o1.deps| <= |o2.deps| && o1.mainId == o2.mainId
  {
    CompareToZeroIffEqual(o1.mainId, o2.mainId);
  }

  /** The comparison as written breaks antisymmetry: a mod with fewer dependencies and a
      smaller id and a mod with more dependencies and a larger id each come before the other. */
  lemma CompareNotAntisymmetric()
    ensures var o1 := Mod("a", "a", {"a"}, {}, "a");
            var o2 := Mod("b", "b", {"b"}, {"c"}, "b");
            Compare(o1, o2) < 0 && Compare(o2, o1) < 0
  {
    var o1 := Mod("a", "a", {"a"}, {}, "a");
    var o2 := Mod("b", "b", {"b"}, {"c"}, "b");
    assert |o1.deps| == 0 && |o2.deps| == 1;
    assert o1.mainId[0] == 'a' && o2.mainId[0] == 'b';
  }

  /** The comparison the "most dependencies first" comment describes: descending by dependency
      count, then ascending by main id. */
  function CompareCorrected(o1: Mod, o2: Mod): int {
    if |o1.deps| > |o2.deps| then -1
    else if |o1.deps| < |o2.deps| then 1
    else CompareTo(o1.mainId, o2.mainId)
  }

  lemma CorrectedAntisymmetric(o1: Mod, o2: Mod)
    ensures CompareCorrected(o1, o2) == -CompareCorrected(o2, o1)
    ensures CompareCorrected(o1, o2) == 0 <==> |o1.deps| == |o2.deps| && o1.mainId == o2.mainId
  {
    CompareToAntisymmetric(o1.mainId, o2.mainId);
    CompareToZeroIffEqual(o1.mainId, o2.mainId);
  }

  lemma CorrectedTransitive(a: Mod, b: Mod, c: Mod)
    requires CompareCorrected(a, b) < 0 && CompareCorrected(b, c) < 0
    ensures CompareCorrected(a, c) < 0
  {
    if |a.deps| == |b.deps| == |c.deps| {
      CompareToTransitive(a.mainId, b.mainId, c.mainId);
    }
  }
}
