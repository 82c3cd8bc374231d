/**
 * The sift loops shared by MinHeap.h and MaxHeap.h. The two headers differ
 * only in the comparison used: `max` selects MaxHeap's. The heap is the
 * level-order sequence held in the header's `heap` vector; the parent of
 * slot i > 0 is (i - 1) / 2.
 */
module HeapOrder {
  import opened Ranking

  /** `a` belongs above `b`: a < b in a MinHeap, a > b in a MaxHeap. */
  predicate Beats(max: bool, a: RankKey, b: RankKey)
  {
    if max then Less(b, a) else Less(a, b)
  }

  lemma BeatsAsymmetric(max: bool, a: RankKey, b: RankKey)
    ensures !(Beats(max, a, b) && Beats(max, b, a))
  {
    LessTrichotomy(a, b);
  }

  lemma BeatsTransitive(max: bool, a: RankKey, b: RankKey, c: RankKey)
    requires Beats(max, a, b) && Beats(max, b, c)
    ensures Beats(max, a, c)
  {
    if max { LessTransitive(c, b, a); } else { LessTransitive(a, b, c); }
  }

  lemma NotBeatsTransitive(max: bool, a: RankKey, b: RankKey, c: RankKey)
    requires !Beats(max, a, b) && !Beats(max, b, c)
    ensures !Beats(max, a, c)
  {
    if max { NotLessTransitive(a, b, c); } else { NotLessTransitive(c, b, a); }
  }

  function Parent(i: int): int
  {
    (i - 1) / 2
  }

  /** No child beats its parent. */
  ghost predicate IsHeap(max: bool, h: seq<RankKey>)
  {
    forall i {:trigger Parent(i)} :: 0 < i < |h| ==> !Beats(max, h[i], h[Parent(i)])
  }

  /** The root is not beaten by any element: it is a minimum (or maximum). */
  lemma {:induction false} RootIsBest(max: bool, h: seq<RankKey>, i: int)
    requires IsHeap(max, h) && 0 <= i < |h|
    ensures !Beats(max, h[i], h[0])
    decreases i
  {
    if i == 0 {
      BeatsAsymmetric(max, h[0], h[0]);
    } else {
      var p := Parent(i);
      RootIsBest(max, h, p);
      NotBeatsTransitive(max, h[i], h[p], h[0]);
    }
  }

  lemma RootIsBestAll(max: bool, h: seq<RankKey>)
    requires IsHeap(max, h) && |h| > 0
    ensures forall x :: x in h ==> !Beats(max, x, h[0])
  {
    forall x | x in h
      ensures !Beats(max, x, h[0])
    {
      var i :| 0 <= i < |h| && h[i] == x;
      RootIsBest(max, h, i);
    }
  }

  /** heapify_up's loop invariant: order holds except between `idx` and its parent. */
  ghost predicate UpInv(max: bool, h: seq<RankKey>, idx: int)
  {
    0 <= idx < |h| &&
    (forall i {:trigger Parent(i)} :: 0 < i < |h| && i != idx ==> !Beats(max, h[i], h[Parent(i)])) &&
    (idx > 0 ==> forall i {:trigger Parent(i)} :: 0 < i < |h| && Parent(i) == idx ==> !Beats(max, h[i], h[Parent(idx)]))
  }

  /** heapify_down's loop invariant: order holds except between `idx` and its children. */
  ghost predicate DownInv(max: bool, h: seq<RankKey>, idx: int)
  {
    0 <= idx < |h| &&
    (forall i {:trigger Parent(i)} :: 0 < i < |h| && Parent(i) != idx ==> !Beats(max, h[i], h[Parent(i)])) &&
    (idx > 0 ==> forall i {:trigger Parent(i)} :: 0 < i < |h| && Parent(i) == idx ==> !Beats(max, h[i], h[Parent(idx)]))
  }

  function Swap(h: seq<RankKey>, i: int, j: int): (r: seq<RankKey>)
    requires 0 <= i < |h| && 0 <= j < |h|
    ensures |r| == |h| && multiset(r) == multiset(h)
    ensures r[i] == h[j] && r[j] == h[i]
    ensures forall k :: 0 <= k < |h| && k != i && k != j ==> r[k] == h[k]
  {
    h[i := h[j]][j := h[i]]
  }

  lemma UpStep(max: bool, h: seq<RankKey>, idx: int)
    requires UpInv(max, h, idx) && idx > 0
    requires Beats(max, h[idx], h[Parent(idx)])
    ensures UpInv(max, Swap(h, idx, Parent(idx)), Parent(idx))
  {
    var p := Parent(idx);
    var r := Swap(h, idx, p);
    forall i | 0 < i < |r| && i != p
      ensures !Beats(max, r[i], r[Parent(i)])
    {
      if i == idx {
        BeatsAsymmetric(max, h[idx], h[p]);
      } else if Parent(i) == idx {
        assert r[i] == h[i];
      } else if Parent(i) == p {
        if Beats(max, h[i], h[idx]) {
          BeatsTransitive(max, h[i], h[idx], h[p]);
        }
      }
    }
    if p > 0 {
      var g := Parent(p);
      forall i | 0 < i < |r| && Parent(i) == p
        ensures !Beats(max, r[i], r[g])
      {
        if i == idx {
          assert r[i] == h[p];
        } else {
          NotBeatsTransitive(max, h[i], h[p], h[g]);
        }
      }
    }
  }

  lemma DownStep(max: bool, h: seq<RankKey>, idx: int, c: int)
    requires DownInv(max, h, idx) && 0 < c < |h| && Parent(c) == idx
    requires Beats(max, h[c], h[idx])
    requires forall s :: 0 < s < |h| && Parent(s) == idx ==> !Beats(max, h[s], h[c])
    ensures DownInv(max, Swap(h, idx, c), c)
  {
    var r := Swap(h, idx, c);
    forall i | 0 < i < |r| && Parent(i) != c
      ensures !Beats(max, r[i], r[Parent(i)])
    {
      if i == c {
        BeatsAsymmetric(max, h[c], h[idx]);
      } else if Parent(i) == idx {
        assert r[i] == h[i];
      } else if i == idx {
        assert r[Parent(i)] == h[Parent(idx)];
      }
    }
    forall i | 0 < i < |r| && Parent(i) == c
      ensures !Beats(max, r[i], r[idx])
    {
      assert r[i] == h[i];
    }
  }

  /** pop's first step: the last entry overwrites the root and the vector shrinks by one. */
  function LastToRoot(h: seq<RankKey>): (r: seq<RankKey>)
    requires |h| > 0
    ensures |r| == |h| - 1
    ensures multiset(r) == multiset(h) - multiset{h[0]}
    ensures forall i :: 0 < i < |r| ==> r[i] == h[i]
  {
    var last := |h| - 1;
    if last == 0 then []
    else
      assert h == [h[0]] + h[1..last] + [h[last]];
      assert multiset(h) == multiset{h[0]} + multiset(h[1..last]) + multiset{h[last]};
      [h[last]] + h[1..last]
  }

  /** After LastToRoot on a heap, only the root may be out of order. */
  lemma LastToRootDownInv(max: bool, h: seq<RankKey>)
    requires IsHeap(max, h) && |h| > 1
    ensures DownInv(max, LastToRoot(h), 0)
  {
  }

  /** The loop of heapify_up: swaps the entry at `idx` upward while it beats its parent. */
  method SiftUp(max: bool, h0: seq<RankKey>, idx0: int) returns (h: seq<RankKey>)
    requires UpInv(max, h0, idx0)
    ensures IsHeap(max, h) && multiset(h) == multiset(h0) && |h| == |h0|
  {
    h := h0;
    var index := idx0;
    while index > 0
      invariant UpInv(max, h, index)
      invariant multiset(h) == multiset(h0) && |h| == |h0|
    {
      var parent := Parent(index);
      if !Beats(max, h[index], h[parent]) {
        break;
      }
      UpStep(max, h, index);
      h := Swap(h, index, parent);
      index := parent;
    }
  }

  /** The loop of heapify_down: swaps the entry at `idx` with its best child while that child beats it. */
  method SiftDown(max: bool, h0: seq<RankKey>, idx0: int) returns (h: seq<RankKey>)
    requires DownInv(max, h0, idx0)
    ensures IsHeap(max, h) && multiset(h) == multiset(h0) && |h| == |h0|
  {
    h := h0;
    var index := idx0;
    while true
      invariant DownInv(max, h, index)
      invariant multiset(h) == multiset(h0) && |h| == |h0|
      decreases |h| - index
    {
      var best := index;
      var left := 2 * index + 1;
      var right := 2 * index + 2;
      if left < |h| && Beats(max, h[left], h[best]) {
        best := left;
      }
      if right < |h| && Beats(max, h[right], h[best]) {
        if best == left {
          BeatsAsymmetric(max, h[right], h[left]);
          BeatsTransitive(max, h[right], h[left], h[index]);
        } else {
          if left < |h| {
            if Beats(max, h[left], h[right]) {
              BeatsTransitive(max, h[left], h[right], h[index]);
            }
          }
        }
        best := right;
      }
      if best == index {
        break;
      }
      BeatsAsymmetric(max, h[best], h[best]);
      DownStep(max, h, index, best);
      h := Swap(h, index, best);
      index := best;
    }
  }
}
