/**
 * The exchange sort that collect_company_history (main.cpp) and
 * DataStore::similar each write out: for every position i, every later
 * position j whose key is strictly smaller is swapped into i. The sorted
 * container is a sequence the method reassigns; the key is a parameter.
 */
module Sorting {

  /** Keys non-decreasing from left to right. */
  ghost predicate SortedBy<T>(s: seq<T>, key: T -> real)
  {
    forall a, b :: 0 <= a < b < |s| ==> key(s[a]) <= key(s[b])
  }

  /** Exchanging two positions keeps the multiset of elements. */
  lemma SwapKeepsElements<T>(r: seq<T>, i: nat, j: nat)
    requires i < j < |r|
    ensures multiset(r[i := r[j]][j := r[i]]) == multiset(r)
  {
    var t := r[i := r[j]][j := r[i]];
    assert r == r[..i] + [r[i]] + r[i + 1..j] + [r[j]] + r[j + 1..];
    assert t == r[..i] + [r[j]] + r[i + 1..j] + [r[i]] + r[j + 1..];
  }

  /** Sorted, and holding the same elements with the same multiplicities. */
  method ExchangeSort<T>(s: seq<T>, key: T -> real) returns (r: seq<T>)
    ensures multiset(r) == multiset(s) && |r| == |s|
    ensures SortedBy(r, key)
  {
    r := s;
    var n := |r|;
    var i := 0;
    while i < n - 1
      invariant 0 <= i <= n && |r| == n && multiset(r) == multiset(s)
      invariant forall a, b :: 0 <= a < i && a < b < n ==> key(r[a]) <= key(r[b])
    {
      r := ExchangePass(r, key, i);
      i := i + 1;
    }
  }

  /** The first i places hold their final keys: each is no larger than anything after it. */
  ghost predicate Settled<T>(r: seq<T>, key: T -> real, i: int)
  {
    forall a, b :: 0 <= a < i && a < b < |r| ==> key(r[a]) <= key(r[b])
  }

  /** r[i] is no larger than r[i + 1 .. j - 1]. */
  ghost predicate HeadLeast<T>(r: seq<T>, key: T -> real, i: int, j: int)
    requires 0 <= i < |r|
  {
    forall b :: i < b < j && b < |r| ==> key(r[i]) <= key(r[b])
  }

  /** One turn of the inner loop keeps both invariants and the elements. */
  lemma ExchangeStep<T>(r: seq<T>, key: T -> real, i: int, j: int)
    requires 0 <= i < j < |r| && Settled(r, key, i) && HeadLeast(r, key, i, j)
    ensures var t := if key(r[j]) < key(r[i]) then r[i := r[j]][j := r[i]] else r;
      |t| == |r| && multiset(t) == multiset(r) && Settled(t, key, i) && HeadLeast(t, key, i, j + 1)
  {
    if key(r[j]) < key(r[i]) {
      var t := r[i := r[j]][j := r[i]];
      SwapKeepsElements(r, i, j);
      forall a, b | 0 <= a < i && a < b < |t|
        ensures key(t[a]) <= key(t[b])
      {
        assert t[a] == r[a];
        if b == i {
          assert key(r[a]) <= key(r[j]);
        } else if b == j {
          assert key(r[a]) <= key(r[i]);
        } else {
          assert t[b] == r[b];
        }
      }
      forall b | i < b < j + 1 && b < |t|
        ensures key(t[i]) <= key(t[b])
      {
        if b < j {
          assert t[b] == r[b];
        }
      }
    }
  }

  /**
   * The inner loop of exchange sort: every later element smaller than r[i] is
   * swapped into place i, so r[i] ends up no larger than anything after it.
   */
  method ExchangePass<T>(s: seq<T>, key: T -> real, i: int) returns (r: seq<T>)
    requires 0 <= i < |s| - 1
    requires forall a, b :: 0 <= a < i && a < b < |s| ==> key(s[a]) <= key(s[b])
    ensures |r| == |s| && multiset(r) == multiset(s)
    ensures forall a, b :: 0 <= a < i + 1 && a < b < |r| ==> key(r[a]) <= key(r[b])
  {
    r := s;
    var n := |r|;
    var j := i + 1;
    while j < n
      invariant i + 1 <= j <= n && |r| == n && multiset(r) == multiset(s)
      invariant Settled(r, key, i) && HeadLeast(r, key, i, j)
    {
      ExchangeStep(r, key, i, j);
      if key(r[j]) < key(r[i]) {
        var tmp := r[i];
        r := r[i := r[j]][j := tmp];
      }
      j := j + 1;
    }
  }
}
