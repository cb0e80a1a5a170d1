/** Counting facts about sequences used for the apple's free-cell argument. */
module SeqFacts {

  predicate Distinct<T(==)>(s: seq<T>) {
    forall i, j :: 0 <= i < j < |s| ==> s[i] != s[j]
  }

  function Elements<T>(s: seq<T>): set<T> {
    set x | x in s
  }

  lemma {:induction false} DistinctElementCount<T>(s: seq<T>)
    requires Distinct(s)
    ensures |Elements(s)| == |s|
  {
    if s != [] {
      DistinctElementCount(s[1..]);
      assert Elements(s) == {s[0]} + Elements(s[1..]);
      assert s[0] !in Elements(s[1..]) by {
        forall k | 0 <= k < |s[1..]| ensures s[1..][k] != s[0] {
          assert s[1..][k] == s[k + 1];
        }
      }
    }
  }

  lemma {:induction false} ElementCountBound<T>(s: seq<T>)
    ensures |Elements(s)| <= |s|
  {
    if s != [] {
      ElementCountBound(s[1..]);
      assert Elements(s) == {s[0]} + Elements(s[1..]);
    }
  }

  /** A duplicate-free sequence all of whose elements occur in `ys` is no
      longer than `ys` (the pigeonhole principle). */
  lemma CoveredIsNoLonger<T>(xs: seq<T>, ys: seq<T>)
    requires Distinct(xs)
    requires forall x | x in xs :: x in ys
    ensures |xs| <= |ys|
  {
    DistinctElementCount(xs);
    ElementCountBound(ys);
    var a, b := Elements(xs), Elements(ys);
    assert a <= b;
    assert b == a + (b - a);
    assert |b| == |a| + |b - a|;
  }
}
