/**
 * Queue_Link_List_Implementation_Lib.h: a linked FIFO with `frontNode`,
 * `rearNode` and an `sz` counter. The chain is the field `elems`, front
 * first; `rearNode` is null exactly when `elems` is empty.
 */
module QueueLinkListLib {
  import opened Wrappers

  class Queue<T> {
    var elems: seq<T>
    var sz: int

    ghost predicate Valid()
      reads this
    {
      sz == |elems|
    }

    constructor ()
      ensures Valid() && elems == []
    {
      elems := [];
      sz := 0;
    }

    /** Links the new node after `rearNode`. */
    method Push(value: T)
      requires Valid()
      modifies this
      ensures Valid() && elems == old(elems) + [value]
    {
      elems := elems + [value];
      sz := sz + 1;
    }

    /** Returns false on an empty queue; otherwise unlinks the front node. */
    method Pop() returns (popped: bool)
      requires Valid()
      modifies this
      ensures Valid()
      ensures popped <==> old(elems) != []
      ensures popped ==> elems == old(elems)[1..]
      ensures !popped ==> elems == old(elems)
    {
      if elems == [] {
        return false;
      }
      elems := elems[1..];
      sz := sz - 1;
      return true;
    }

    /** The oldest value; `out_of_range` when empty. */
    method Front() returns (r: Result<T>)
      requires Valid()
      ensures r.Ok? <==> elems != []
      ensures r.Ok? ==> r.value == elems[0]
    {
      if elems == [] {
        return Err(EmptyContainer);
      }
      return Ok(elems[0]);
    }

    /** The newest value; `out_of_range` when empty. */
    method Back() returns (r: Result<T>)
      requires Valid()
      ensures r.Ok? <==> elems != []
      ensures r.Ok? ==> r.value == elems[|elems| - 1]
    {
      if elems == [] {
        return Err(EmptyContainer);
      }
      return Ok(elems[|elems| - 1]);
    }

    method Empty() returns (b: bool)
      requires Valid()
      ensures b <==> elems == []
    {
      return sz == 0;
    }

    method Size() returns (n: int)
      requires Valid()
      ensures n == |elems|
    {
      return sz;
    }
  }
}
