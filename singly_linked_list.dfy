/**
 * SinglyLinkedList.h: a chain from `head` with a `size_` counter. The chain
 * is the field `elems`, head first.
 */
module SinglyLinked {
  import opened Wrappers

  class SinglyLinkedList<T> {
    var elems: seq<T>
    var size: int

    ghost predicate Valid()
      reads this
    {
      size == |elems|
    }

    constructor ()
      ensures Valid() && elems == []
    {
      elems := [];
      size := 0;
    }

    /** The copy constructor walks the other chain and appends each value. */
    constructor Copy(other: SinglyLinkedList<T>)
      requires other.Valid()
      ensures Valid() && elems == other.elems
    {
      elems := [];
      size := 0;
      new;
      var src := other.elems;
      var i := 0;
      while i < |src|
        invariant 0 <= i <= |src|
        invariant Valid() && elems == src[..i]
      {
        assert src[..i + 1] == src[..i] + [src[i]];
        PushBack(src[i]);
        i := i + 1;
      }
      assert src[..|src|] == src;
    }

    method PushFront(value: T)
      requires Valid()
      modifies this
      ensures Valid() && elems == [value] + old(elems)
    {
      elems := [value] + elems;
      size := size + 1;
    }

    /** Walks from `head` to the last node and links the new node after it. */
    method PushBack(value: T)
      requires Valid()
      modifies this
      ensures Valid() && elems == old(elems) + [value]
    {
      if elems == [] {
        elems := [value];
      } else {
        var current := 0;
        while current + 1 < |elems|
          invariant 0 <= current < |elems|
        {
          current := current + 1;
        }
        // current is the last node: the new node is linked after it
        elems := elems[..current + 1] + [value];
      }
      size := size + 1;
    }

    /** Unlinks the head; a no-op on an empty list. */
    method PopFront()
      requires Valid()
      modifies this
      ensures Valid()
      ensures elems == if old(elems) == [] then [] else old(elems)[1..]
    {
      if elems != [] {
        elems := elems[1..];
        size := size - 1;
      }
    }

    method Empty() returns (b: bool)
      requires Valid()
      ensures b <==> elems == []
    {
      return elems == [];
    }

    method Size() returns (n: int)
      requires Valid()
      ensures n == |elems|
    {
      return size;
    }

    /** The head's value; throws when the list is empty. */
    method Front() returns (r: Result<T>)
      requires Valid()
      ensures r.Ok? <==> elems != []
      ensures r.Ok? ==> r.value == elems[0]
    {
      if elems == [] {
        return Err(EmptyContainer);
      }
      return Ok(elems[0]);
    }
  }
}
