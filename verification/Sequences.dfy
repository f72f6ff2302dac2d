// Facts about sequences used by more than one component.

module Sequences {

  ghost predicate Distinct<T>(s: seq<T>) {
    forall i, j :: 0 <= i < j < |s| ==> s[i] != s[j]
  }

  lemma DistinctSplit<T>(a: seq<T>, b: seq<T>)
    ensures Distinct(a + b) <==> Distinct(a) && Distinct(b) && forall x :: x in a ==> x !in b
  {
    var s := a + b;
    if Distinct(s) {
      forall i, j | 0 <= i < j < |b| ensures b[i] != b[j] {
        assert s[|a| + i] == b[i] && s[|a| + j] == b[j];
      }
      forall i, j | 0 <= i < j < |a| ensures a[i] != a[j] {
        assert s[i] == a[i] && s[j] == a[j];
      }
      forall x | x in a ensures x !in b {
        var i :| 0 <= i < |a| && a[i] == x;
        forall j | 0 <= j < |b| ensures b[j] != x {
          assert s[i] == a[i] && s[|a| + j] == b[j];
        }
      }
    } else if Distinct(a) && Distinct(b) {
      var i, j :| 0 <= i < j < |s| && s[i] == s[j];
      assert i < |a| <= j && s[i] == a[i] && s[j] == b[j - |a|];
      assert a[i] in a && b[j - |a|] in b;
    }
  }

  lemma DistinctMiddle<T>(a: seq<T>, x: T, b: seq<T>)
    ensures Distinct(a + [x] + b) <==>
      Distinct(a) && Distinct(b) && x !in a && x !in b && forall y :: y in a ==> y !in b
  {
    DistinctSplit(a + [x], b);
    DistinctSplit(a, [x]);
    assert x in [x];
    assert forall y :: y in a + [x] <==> y in a || y == x;
  }

  // Moving brackets in a concatenation.
  lemma Regroup<T>(a: seq<T>, b: seq<T>, c: seq<T>, d: seq<T>, e: seq<T>)
    ensures a + (b + c + d) + e == a + b + (c + d + e)
    ensures a + (b + c + d) + e == (a + b + c) + d + e
  {
  }

  lemma RegroupMiddle<T>(a: seq<T>, b: seq<T>, c: seq<T>, d: seq<T>, e: seq<T>)
    ensures a + (b + c + d) + e == (a + b) + c + (d + e)
  {
  }

  lemma Rebracket<T>(a: seq<T>, b: seq<T>, c: seq<T>, d: seq<T>, e: seq<T>)
    ensures a + b + (c + d + e) == (a + b + c) + d + e
  {
  }
}
