/**
 * MaxHeap.h: a binary max-heap kept in the level-order vector `heap`,
 * instantiated in the index engine on ranking handles.
 */
module MaxHeaps {
  import opened Wrappers
  import opened Ranking
  import opened HeapOrder

  class MaxHeap {
    var heap: seq<RankKey>

    ghost predicate Valid()
      reads this
    {
      IsHeap(true, heap)
    }

    constructor ()
      ensures Valid() && heap == []
    {
      heap := [];
    }

    /** The copy constructor copies the vector; the copy is a separate object. */
    constructor Copy(other: MaxHeap)
      requires other.Valid()
      ensures Valid() && heap == other.heap
    {
      heap := other.heap;
    }

    /** Appends the value and runs heapify_up from the last slot. */
    method Push(value: RankKey)
      requires Valid()
      modifies this
      ensures Valid() && |heap| == |old(heap)| + 1
      ensures multiset(heap) == multiset(old(heap)) + multiset{value}
    {
      var h := heap + [value];
      assert UpInv(true, h, |h| - 1);
      heap := SiftUp(true, h, |h| - 1);
    }

    /** A no-op when empty; otherwise moves the last entry to the root and runs heapify_down. */
    method Pop()
      requires Valid()
      modifies this
      ensures Valid()
      ensures old(heap) == [] ==> heap == []
      ensures old(heap) != [] ==>
        |heap| == |old(heap)| - 1 && multiset(heap) == multiset(old(heap)) - multiset{old(heap)[0]}
    {
      if heap == [] {
        return;
      }
      var h := LastToRoot(heap);
      if h == [] {
        heap := h;
      } else {
        LastToRootDownInv(true, heap);
        heap := SiftDown(true, h, 0);
      }
    }

    /** Slot 0, which is >= every element; throws when empty. */
    method Top() returns (r: Result<RankKey>)
      requires Valid()
      ensures r.Ok? <==> heap != []
      ensures r.Ok? ==> r.value == heap[0] && forall x :: x in heap ==> !Beats(true, x, r.value)
    {
      if heap == [] {
        return Err(EmptyContainer);
      }
      RootIsBestAll(true, heap);
      return Ok(heap[0]);
    }

    method Empty() returns (b: bool)
      requires Valid()
      ensures b <==> heap == []
    {
      return heap == [];
    }

    method Size() returns (n: int)
      requires Valid()
      ensures n == |heap|
    {
      return |heap|;
    }
  }
}
