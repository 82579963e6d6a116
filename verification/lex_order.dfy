/**
 * Python's ordering and editing of `str` values, on Dafny strings.
 * `Below(a, b)` is Python's `a < b`: code points compared left to right,
 * and a proper prefix sorts first. `sorted()` on a list of paths uses it.
 */
module LexOrder {

  /** Python's `a < b` on strings. */
  predicate Below(a: string, b: string)
    decreases |a|
  {
    if |a| == 0 then |b| > 0
    else |b| > 0 && (a[0] < b[0] || (a[0] == b[0] && Below(a[1..], b[1..])))
  }

  lemma {:induction false} BelowIrreflexive(a: string)
    ensures !Below(a, a)
    decreases |a|
  {
    if |a| > 0 {
      BelowIrreflexive(a[1..]);
    }
  }

  lemma {:induction false} BelowTransitive(a: string, b: string, c: string)
    requires Below(a, b) && Below(b, c)
    ensures Below(a, c)
    decreases |a|
  {
    if |a| > 0 && a[0] == b[0] && b[0] == c[0] {
      BelowTransitive(a[1..], b[1..], c[1..]);
    }
  }

  /** Any two different strings are ordered one way or the other. */
  lemma {:induction false} BelowTotal(a: string, b: string)
    ensures a == b || Below(a, b) || Below(b, a)
    decreases |a|
  {
    if |a| > 0 && |b| > 0 && a[0] == b[0] {
      BelowTotal(a[1..], b[1..]);
      if a[1..] == b[1..] {
        assert a == [a[0]] + a[1..];
        assert b == [b[0]] + b[1..];
      }
    }
  }

  lemma BelowAsymmetric(a: string, b: string)
    requires Below(a, b)
    ensures !Below(b, a) && a != b
  {
    BelowIrreflexive(a);
    if Below(b, a) {
      BelowTransitive(a, b, a);
    }
  }

  /** Python's `a <= b`. */
  predicate AtMost(a: string, b: string)
  {
    a == b || Below(a, b)
  }

  /**
   * Comparing two concatenations whose first parts have the same length
   * decides on the first parts, and on the second parts only when the first
   * parts are equal.
   */
  lemma {:induction false} BelowAppend(a1: string, a2: string, b1: string, b2: string)
    requires |a1| == |b1|
    ensures Below(a1 + a2, b1 + b2) <==> Below(a1, b1) || (a1 == b1 && Below(a2, b2))
    decreases |a1|
  {
    if |a1| == 0 {
      assert a1 + a2 == a2;
      assert b1 + b2 == b2;
    } else {
      assert (a1 + a2)[0] == a1[0] && (a1 + a2)[1..] == a1[1..] + a2;
      assert (b1 + b2)[0] == b1[0] && (b1 + b2)[1..] == b1[1..] + b2;
      BelowAppend(a1[1..], a2, b1[1..], b2);
      assert a1 == [a1[0]] + a1[1..];
      assert b1 == [b1[0]] + b1[1..];
    }
  }

  /** Concatenations with equal-length first parts are equal exactly when both parts are. */
  lemma AppendEqual(a1: string, a2: string, b1: string, b2: string)
    requires |a1| == |b1|
    ensures a1 + a2 == b1 + b2 <==> a1 == b1 && a2 == b2
  {
    if a1 + a2 == b1 + b2 {
      assert a1 == (a1 + a2)[..|a1|];
      assert b1 == (b1 + b2)[..|b1|];
      assert a2 == (a1 + a2)[|a1|..];
      assert b2 == (b1 + b2)[|b1|..];
    }
  }

  /** A shared prefix does not change the order. */
  lemma BelowCommonPrefix(p: string, a: string, b: string)
    ensures Below(p + a, p + b) <==> Below(a, b)
  {
    BelowAppend(p, a, p, b);
    BelowIrreflexive(p);
  }

  /** Python's `s.endswith(suffix)`. */
  predicate EndsWith(s: string, suffix: string)
  {
    |suffix| <= |s| && s[|s| - |suffix|..] == suffix
  }

  /** Python's `s.replace(target, replacement)` for one-character arguments. */
  function Replace(s: string, target: char, replacement: char): (r: string)
    ensures |r| == |s|
    ensures forall i :: 0 <= i < |s| && s[i] != target ==> r[i] == s[i]
    ensures forall i :: 0 <= i < |s| && s[i] == target ==> r[i] == replacement
    ensures target != replacement ==> target !in r
  {
    if |s| == 0 then []
    else [if s[0] == target then replacement else s[0]] + Replace(s[1..], target, replacement)
  }

  lemma ReplaceAppend(a: string, b: string, target: char, replacement: char)
    ensures Replace(a + b, target, replacement) == Replace(a, target, replacement) + Replace(b, target, replacement)
  {
    var l := Replace(a + b, target, replacement);
    var r := Replace(a, target, replacement) + Replace(b, target, replacement);
    assert |l| == |r|;
    forall i | 0 <= i < |l|
      ensures l[i] == r[i]
    {
      if i < |a| {
        assert (a + b)[i] == a[i];
      } else {
        assert (a + b)[i] == b[i - |a|];
      }
    }
  }
}
