/**
 * DataStore::quick_sort and sort_by_metric: a recursive in-place quicksort
 * on a vector of records, with the middle element's metric as pivot and the
 * two-index partition that swaps when i <= j. The vector is an array of
 * arena indices here and the metric is the parameter `key`.
 */
module QuickSorts {
  import opened Sorting

  /** Every key in s[lo..hi) is at most p. */
  ghost predicate AtMost<T>(s: seq<T>, key: T -> real, lo: int, hi: int, p: real)
    requires 0 <= lo && hi <= |s|
  {
    forall k :: lo <= k < hi ==> key(s[k]) <= p
  }

  /** Every key in s[lo..hi) is at least p. */
  ghost predicate AtLeast<T>(s: seq<T>, key: T -> real, lo: int, hi: int, p: real)
    requires 0 <= lo && hi <= |s|
  {
    forall k :: lo <= k < hi ==> key(s[k]) >= p
  }

  /** s[lo..hi) is in non-decreasing key order. */
  ghost predicate SortedBetween<T>(s: seq<T>, key: T -> real, lo: int, hi: int)
    requires 0 <= lo && hi <= |s|
  {
    forall x, y :: lo <= x < y < hi ==> key(s[x]) <= key(s[y])
  }

  /** s[lo..hi) and t[lo..hi) hold the same elements. */
  ghost predicate Permuted<T>(s: seq<T>, t: seq<T>, lo: int, hi: int)
    requires 0 <= lo <= hi <= |s| == |t|
  {
    multiset(s[lo..hi]) == multiset(t[lo..hi])
  }

  /** s and t agree everywhere outside [lo, hi). */
  ghost predicate SameOutside<T>(s: seq<T>, t: seq<T>, lo: int, hi: int)
    requires |s| == |t|
  {
    forall k :: 0 <= k < |s| && !(lo <= k < hi) ==> s[k] == t[k]
  }

  /** Rearrangements compose. */
  lemma Chain<T>(s: seq<T>, t: seq<T>, u: seq<T>, lo: int, hi: int)
    requires 0 <= lo <= hi <= |s| == |t| == |u|
    requires Permuted(s, t, lo, hi) && SameOutside(s, t, lo, hi)
    requires Permuted(t, u, lo, hi) && SameOutside(t, u, lo, hi)
    ensures Permuted(s, u, lo, hi) && SameOutside(s, u, lo, hi)
  {
  }

  /** A slice rearranged in place keeps any bound its keys had. */
  lemma BoundsSurvive<T>(s: seq<T>, t: seq<T>, key: T -> real, lo: int, hi: int, p: real)
    requires 0 <= lo <= hi <= |s| == |t|
    requires Permuted(s, t, lo, hi)
    ensures AtMost(s, key, lo, hi, p) ==> AtMost(t, key, lo, hi, p)
    ensures AtLeast(s, key, lo, hi, p) ==> AtLeast(t, key, lo, hi, p)
  {
    forall k | lo <= k < hi
      ensures exists k' :: lo <= k' < hi && s[k'] == t[k]
    {
      assert t[lo..hi][k - lo] == t[k];
      assert t[k] in multiset(s[lo..hi]);
      var k' :| 0 <= k' < hi - lo && s[lo..hi][k'] == t[k];
      assert s[lo + k'] == t[k];
    }
  }

  /** Rearranging [lo, hi) and nothing else rearranges any wider [lo', hi'). */
  lemma Widen<T>(s: seq<T>, t: seq<T>, lo': int, lo: int, hi: int, hi': int)
    requires 0 <= lo' <= lo <= hi <= hi' <= |s| == |t|
    requires Permuted(s, t, lo, hi) && SameOutside(s, t, lo, hi)
    ensures Permuted(s, t, lo', hi') && SameOutside(s, t, lo', hi')
  {
    assert s[lo'..hi'] == s[lo'..lo] + s[lo..hi] + s[hi..hi'];
    assert t[lo'..hi'] == t[lo'..lo] + t[lo..hi] + t[hi..hi'];
    assert s[lo'..lo] == t[lo'..lo];
    assert s[hi..hi'] == t[hi..hi'];
  }

  /** A swap inside [lo, hi) keeps the slice's multiset. */
  lemma SwapInside<T>(s: seq<T>, lo: int, hi: int, i: int, j: int)
    requires 0 <= lo <= i <= j < hi <= |s|
    ensures multiset(s[i := s[j]][j := s[i]][lo..hi]) == multiset(s[lo..hi])
  {
    if i < j {
      var t := s[i := s[j]][j := s[i]];
      assert s[lo..hi] == s[lo..i] + [s[i]] + s[i + 1..j] + [s[j]] + s[j + 1..hi];
      assert t[lo..hi] == s[lo..i] + [s[j]] + s[i + 1..j] + [s[i]] + s[j + 1..hi];
    } else {
      assert s[i := s[j]][j := s[i]] == s;
    }
  }

  /**
   * The swap of the partition loop: a[i] (not below the pivot) and a[j]
   * (not above it) trade places, which extends both bounded regions by one.
   */
  lemma SwapStep<T>(orig: seq<T>, before: seq<T>, key: T -> real, l: int, r: int, i: int, j: int, p: real)
    requires 0 <= l <= i <= j <= r < |before| == |orig|
    requires key(before[i]) >= p && key(before[j]) <= p
    requires AtMost(before, key, l, i, p) && AtLeast(before, key, j + 1, r + 1, p)
    requires Permuted(before, orig, l, r + 1) && SameOutside(before, orig, l, r + 1)
    ensures var after := before[i := before[j]][j := before[i]];
      AtMost(after, key, l, i + 1, p) && AtLeast(after, key, j, r + 1, p) &&
      Permuted(after, orig, l, r + 1) && SameOutside(after, orig, l, r + 1)
  {
    SwapInside(before, l, r + 1, i, j);
  }

  /**
   * After both recursive calls: the left part sorted and at most the pivot,
   * the right part sorted and at least it, the middle equal to it.
   */
  lemma Combine<T>(s: seq<T>, key: T -> real, l: int, r: int, i: int, j: int, p: real)
    requires 0 <= l && r < |s| && l - 1 <= j < i <= r + 1
    requires AtMost(s, key, l, i, p) && AtLeast(s, key, j + 1, r + 1, p)
    requires SortedBetween(s, key, l, j + 1) && SortedBetween(s, key, i, r + 1)
    ensures SortedBetween(s, key, l, r + 1)
  {
    forall x, y | l <= x < y < r + 1
      ensures key(s[x]) <= key(s[y])
    {
      if y <= j || x >= i {
      } else {
        assert key(s[x]) <= p && p <= key(s[y]);
      }
    }
  }

  /**
   * After the recursive call on [l, j]: [l, r] is still a rearrangement of
   * the original, the bounds around the pivot still hold, and [l, j] is sorted.
   */
  lemma LeftStage<T>(orig: seq<T>, parted: seq<T>, left: seq<T>, key: T -> real,
                     l: int, r: int, i: int, j: int, p: real)
    requires 0 <= l < r < |orig| == |parted| == |left|
    requires l < i <= r + 1 && l - 1 <= j < r && j < i
    requires Permuted(parted, orig, l, r + 1) && SameOutside(parted, orig, l, r + 1)
    requires AtMost(parted, key, l, i, p) && AtLeast(parted, key, j + 1, r + 1, p)
    requires Permuted(left, parted, l, j + 1) && SameOutside(left, parted, l, j + 1)
    ensures Permuted(left, orig, l, r + 1) && SameOutside(left, orig, l, r + 1)
    ensures AtMost(left, key, l, i, p) && AtLeast(left, key, j + 1, r + 1, p)
  {
    BoundsSurvive(parted, left, key, l, j + 1, p);
    Widen(left, parted, l, l, j + 1, r + 1);
    Chain(left, parted, orig, l, r + 1);
  }

  /**
   * After the recursive call on [i, r]: [l, r] is a rearrangement of the
   * original, and the bounds around the pivot still hold.
   */
  lemma RightStage<T>(orig: seq<T>, left: seq<T>, fin: seq<T>, key: T -> real,
                      l: int, r: int, i: int, j: int, p: real)
    requires 0 <= l < r < |orig| == |left| == |fin|
    requires l < i <= r + 1 && l - 1 <= j < r && j < i
    requires Permuted(left, orig, l, r + 1) && SameOutside(left, orig, l, r + 1)
    requires AtMost(left, key, l, i, p) && AtLeast(left, key, j + 1, r + 1, p)
    requires Permuted(fin, left, i, r + 1) && SameOutside(fin, left, i, r + 1)
    ensures Permuted(fin, orig, l, r + 1) && SameOutside(fin, orig, l, r + 1)
    ensures AtMost(fin, key, l, i, p) && AtLeast(fin, key, j + 1, r + 1, p)
  {
    BoundsSurvive(left, fin, key, i, r + 1, p);
    Widen(fin, left, l, i, r + 1, r + 1);
    Chain(fin, left, orig, l, r + 1);
  }

  /** [l, j] sorted before the call on [i, r] and untouched by it stays sorted. */
  lemma LeftStaysSorted<T>(left: seq<T>, fin: seq<T>, key: T -> real, l: int, r: int, i: int, j: int)
    requires 0 <= l && r < |left| == |fin| && l - 1 <= j < i <= r + 1
    requires SortedBetween(left, key, l, j + 1) && SameOutside(fin, left, i, r + 1)
    ensures SortedBetween(fin, key, l, j + 1)
  {
  }

  /**
   * `while (metric(arr[i]) < pivot) i++`: stops at the first key not below
   * the pivot, which the sentinel at s guarantees to exist.
   */
  method ScanUp<T>(a: array<T>, key: T -> real, l: int, from: int, ghost s: int, p: real) returns (i: int)
    requires 0 <= l <= from <= s < a.Length && key(a[s]) >= p
    requires AtMost(a[..], key, l, from, p)
    ensures from <= i <= s && key(a[i]) >= p
    ensures AtMost(a[..], key, l, i, p)
  {
    i := from;
    while key(a[i]) < p
      invariant from <= i <= s
      invariant AtMost(a[..], key, l, i, p)
      decreases s - i
    {
      i := i + 1;
    }
  }

  /**
   * `while (metric(arr[j]) > pivot) j--`: stops at the last key not above
   * the pivot, which the sentinel at t guarantees to exist.
   */
  method ScanDown<T>(a: array<T>, key: T -> real, ghost t: int, from: int, r: int, p: real) returns (j: int)
    requires 0 <= t <= from <= r < a.Length && key(a[t]) <= p
    requires AtLeast(a[..], key, from + 1, r + 1, p)
    ensures t <= j <= from && key(a[j]) <= p
    ensures AtLeast(a[..], key, j + 1, r + 1, p)
  {
    j := from;
    while key(a[j]) > p
      invariant t <= j <= from
      invariant AtLeast(a[..], key, j + 1, r + 1, p)
      decreases j - t
    {
      j := j - 1;
    }
  }

  /**
   * The partition loop of quick_sort on [l, r] with the middle element's key
   * as pivot: afterwards everything in [l, i) has key at most the pivot and
   * everything in (j, r] at least it, with j < i and both ends moved inward.
   */
  method Partition<T>(a: array<T>, l: int, r: int, key: T -> real) returns (i: int, j: int, pivot: real)
    requires 0 <= l < r < a.Length
    modifies a
    ensures l < i <= r + 1 && l - 1 <= j < r && j < i
    ensures AtMost(a[..], key, l, i, pivot) && AtLeast(a[..], key, j + 1, r + 1, pivot)
    ensures Permuted(a[..], old(a[..]), l, r + 1) && SameOutside(a[..], old(a[..]), l, r + 1)
  {
    ghost var orig := a[..];
    i := l;
    j := r;
    var m := (l + r) / 2;
    pivot := key(a[m]);
    while i <= j
      invariant l <= i <= r + 1 && l - 1 <= j <= r
      invariant (i == l && j == r && key(a[m]) == pivot) || (l < i && j < r)
      invariant AtMost(a[..], key, l, i, pivot) && AtLeast(a[..], key, j + 1, r + 1, pivot)
      invariant Permuted(a[..], orig, l, r + 1) && SameOutside(a[..], orig, l, r + 1)
      decreases j - i + 2
    {
      ghost var first := i == l && j == r;
      ghost var i0 := i;
      ghost var s := if first then m else j + 1;
      i := ScanUp(a, key, l, i, s, pivot);
      ghost var t := if first then m else i0 - 1;
      assert l <= t <= j && key(a[t]) <= pivot;
      j := ScanDown(a, key, t, j, r, pivot);
      if i <= j {
        ghost var before := a[..];
        SwapStep(orig, before, key, l, r, i, j, pivot);
        a[i], a[j] := a[j], a[i];
        assert a[..] == before[i := before[j]][j := before[i]];
        i := i + 1;
        j := j - 1;
      }
    }
  }

  /**
   * quick_sort(arr, l, r, metric): arr[l..r] ends up in non-decreasing key
   * order, holding the same elements; nothing outside [l, r] moves.
   */
  method QuickSort<T>(a: array<T>, l: int, r: int, key: T -> real)
    requires 0 <= l && r < a.Length
    modifies a
    ensures l <= r + 1 ==> Permuted(a[..], old(a[..]), l, r + 1)
    ensures SameOutside(a[..], old(a[..]), l, r + 1)
    ensures l <= r + 1 ==> SortedBetween(a[..], key, l, r + 1)
    decreases r - l
  {
    if l >= r {
      return;
    }
    ghost var orig := a[..];
    var i, j, pivot := Partition(a, l, r, key);
    ghost var parted := a[..];
    if l < j {
      QuickSort(a, l, j, key);
    }
    LeftStage(orig, parted, a[..], key, l, r, i, j, pivot);
    ghost var left := a[..];
    if i < r {
      QuickSort(a, i, r, key);
    }
    RightStage(orig, left, a[..], key, l, r, i, j, pivot);
    LeftStaysSorted(left, a[..], key, l, r, i, j);
    Combine(a[..], key, l, r, i, j, pivot);
  }

  /** sort_by_metric: the whole vector, from index 0 to size - 1. */
  method SortByMetric<T>(a: array<T>, key: T -> real)
    modifies a
    ensures multiset(a[..]) == multiset(old(a[..]))
    ensures SortedBetween(a[..], key, 0, a.Length)
  {
    QuickSort(a, 0, a.Length - 1, key);
    assert a[..] == a[..][0..a.Length];
    assert old(a[..]) == old(a[..])[0..a.Length];
  }
}
