/**
 * Stack_link_List_Implementation_Lib.h: a linked LIFO with `topNode` and an
 * `sz` counter. The chain is the field `elems`, top first.
 */
module StackLinkListLib {
  import opened Wrappers

  class Stack<T> {
    var elems: seq<T>
    var sz: int

    ghost predicate Valid()
      reads this
    {
      sz == |elems|
    }

    constructor ()
      ensures Valid() && elems == []
    {
      elems := [];
      sz := 0;
    }

    /** The new node becomes `topNode`. */
    method Push(value: T)
      requires Valid()
      modifies this
      ensures Valid() && elems == [value] + old(elems)
    {
      elems := [value] + elems;
      sz := sz + 1;
    }

    /** Throws `out_of_range` on an empty stack, leaving it unchanged. */
    method Pop() returns (r: Result<()>)
      requires Valid()
      modifies this
      ensures Valid()
      ensures r.Ok? <==> old(elems) != []
      ensures r.Ok? ==> elems == old(elems)[1..]
      ensures r.Err? ==> elems == old(elems) && r.error == EmptyContainer
    {
      if elems == [] {
        return Err(EmptyContainer);
      }
      elems := elems[1..];
      sz := sz - 1;
      return Ok(());
    }

    /** The most recently pushed value still present; throws when empty. */
    method Top() returns (r: Result<T>)
      requires Valid()
      ensures r.Ok? <==> elems != []
      ensures r.Ok? ==> r.value == elems[0]
    {
      if elems == [] {
        return Err(EmptyContainer);
      }
      return Ok(elems[0]);
    }

    method Empty() returns (b: bool)
      requires Valid()
      ensures b <==> elems == []
    {
      return sz == 0;
    }

    method Size() returns (n: int)
      requires Valid()
      ensures n == |elems|
    {
      return sz;
    }
  }
}
