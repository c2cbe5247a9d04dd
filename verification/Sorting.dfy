/** Sorting by a numeric key, as the log writer and the ring use it. The order of equal keys is left open. */
module Sorting {

  predicate SortedBy<T>(s: seq<T>, key: T -> nat) {
    forall i, j :: 0 <= i < j < |s| ==> key(s[i]) <= key(s[j])
  }

  lemma SortedBetween<T>(a: seq<T>, x: T, b: seq<T>, key: T -> nat)
    requires SortedBy(a + b, key)
    requires forall k :: 0 <= k < |a| ==> key(a[k]) <= key(x)
    requires b != [] ==> key(x) <= key(b[0])
    ensures SortedBy(a + [x] + b, key)
  {
    assert SortedBy(b, key) by {
      assert forall k :: 0 <= k < |b| ==> b[k] == (a + b)[|a| + k];
    }
    forall i, j | 0 <= i < j < |a| + 1 + |b| ensures key((a + [x] + b)[i]) <= key((a + [x] + b)[j]) {
      if i < |a| && j > |a| {
        assert key((a + b)[i]) <= key((a + b)[j - 1]);
      } else if j < |a| {
        assert key((a + b)[i]) <= key((a + b)[j]);
      }
    }
  }

  method InsertBy<T>(sorted: seq<T>, x: T, key: T -> nat) returns (out: seq<T>)
    requires SortedBy(sorted, key)
    ensures SortedBy(out, key) && multiset(out) == multiset(sorted) + multiset{x}
  {
    var i := 0;
    while i < |sorted| && key(sorted[i]) <= key(x)
      invariant i <= |sorted|
      invariant forall k :: 0 <= k < i ==> key(sorted[k]) <= key(x)
    {
      i := i + 1;
    }
    out := sorted[..i] + [x] + sorted[i..];
    assert sorted == sorted[..i] + sorted[i..];
    SortedBetween(sorted[..i], x, sorted[i..], key);
  }

  method SortBy<T>(s: seq<T>, key: T -> nat) returns (sorted: seq<T>)
    ensures SortedBy(sorted, key) && multiset(sorted) == multiset(s)
  {
    sorted := [];
    for i := 0 to |s|
      invariant SortedBy(sorted, key) && multiset(sorted) == multiset(s[..i])
    {
      assert s[..i + 1] == s[..i] + [s[i]];
      sorted := InsertBy(sorted, s[i], key);
    }
    assert s[..|s|] == s;
  }
}
