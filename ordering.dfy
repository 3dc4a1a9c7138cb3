/**
 * The order in which the checks list is sorted before evaluation: the
 * default array sort compares strings character by character, and a string
 * comes before every longer string that starts with it.
 */
module Ordering {

  /** a sorts no later than b. */
  predicate Le(a: string, b: string)
    decreases |a|
  {
    |a| == 0 || (|b| > 0 && (a[0] < b[0] || (a[0] == b[0] && Le(a[1..], b[1..]))))
  }

  predicate Sorted(xs: seq<string>)
  {
    forall i, j :: 0 <= i < j < |xs| ==> Le(xs[i], xs[j])
  }

  /** What the sort promises: its result is sorted and holds the same elements as its input. */
  predicate SortedPermutation(ys: seq<string>, xs: seq<string>)
  {
    Sorted(ys) && multiset(ys) == multiset(xs)
  }

  lemma {:induction false} LeReflexive(a: string)
    ensures Le(a, a)
    decreases |a|
  {
    if |a| > 0 {
      LeReflexive(a[1..]);
    }
  }

  lemma {:induction false} LeAntisymmetric(a: string, b: string)
    requires Le(a, b) && Le(b, a)
    ensures a == b
    decreases |a|
  {
    if |a| > 0 {
      LeAntisymmetric(a[1..], b[1..]);
      assert a == [a[0]] + a[1..] && b == [b[0]] + b[1..];
    }
  }

  lemma {:induction false} LeTransitive(a: string, b: string, c: string)
    requires Le(a, b) && Le(b, c)
    ensures Le(a, c)
    decreases |a|
  {
    if |a| > 0 && a[0] == b[0] && b[0] == c[0] {
      LeTransitive(a[1..], b[1..], c[1..]);
    }
  }

  lemma {:induction false} LeTotal(a: string, b: string)
    ensures Le(a, b) || Le(b, a)
    decreases |a|
  {
    if |a| > 0 && |b| > 0 && a[0] == b[0] {
      LeTotal(a[1..], b[1..]);
    }
  }

  /** Two sorted lists with the same elements are the same list: the sort's result is determined. */
  lemma {:induction false} SortedPermutationUnique(ys: seq<string>, zs: seq<string>, xs: seq<string>)
    requires SortedPermutation(ys, xs) && SortedPermutation(zs, xs)
    ensures ys == zs
    decreases |ys|
  {
    assert |zs| == |multiset(zs)| == |multiset(ys)| == |ys|;
    if |ys| > 0 {
      SortedHeadsAgree(ys, zs);
      TailsPermutation(ys, zs);
      assert Sorted(ys[1..]) && Sorted(zs[1..]);
      SortedPermutationUnique(ys[1..], zs[1..], ys[1..]);
      assert ys == [ys[0]] + ys[1..] && zs == [zs[0]] + zs[1..];
    }
  }

  lemma SortedHeadsAgree(ys: seq<string>, zs: seq<string>)
    requires Sorted(ys) && Sorted(zs) && multiset(ys) == multiset(zs)
    requires |ys| > 0 && |zs| > 0
    ensures ys[0] == zs[0]
  {
    var y, z := ys[0], zs[0];
    assert y in multiset(zs) by { assert y in multiset(ys); }
    assert z in multiset(ys) by { assert z in multiset(zs); }
    var iy :| 0 <= iy < |zs| && zs[iy] == y;
    var iz :| 0 <= iz < |ys| && ys[iz] == z;
    if iy > 0 { assert Le(z, y); } else { LeReflexive(z); }
    if iz > 0 { assert Le(y, z); } else { LeReflexive(y); }
    LeAntisymmetric(y, z);
  }

  lemma TailsPermutation(ys: seq<string>, zs: seq<string>)
    requires |ys| > 0 && |zs| > 0 && ys[0] == zs[0] && multiset(ys) == multiset(zs)
    ensures multiset(ys[1..]) == multiset(zs[1..])
  {
    assert ys == [ys[0]] + ys[1..] && zs == [zs[0]] + zs[1..];
    assert multiset(ys[1..]) == multiset(ys) - multiset([ys[0]]);
    assert multiset(zs[1..]) == multiset(zs) - multiset([zs[0]]);
  }
}
