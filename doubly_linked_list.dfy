/**
 * DoublyLinkedList.h: a chain with `head`, `tail`, `prev`/`next` links and a
 * `size_` counter. The chain is the field `elems`, head first; `head` is
 * null exactly when `elems` is empty, and then so is `tail`.
 */
module DoublyLinked {
  import opened Wrappers

  class DoublyLinkedList<T> {
    var elems: seq<T>
    var size: int

    ghost predicate Valid()
      reads this
    {
      size == |elems|
    }

    constructor ()
      ensures Valid() && elems == []
    {
      elems := [];
      size := 0;
    }

    /** The copy constructor walks the other chain and appends each value. */
    constructor Copy(other: DoublyLinkedList<T>)
      requires other.Valid()
      ensures Valid() && elems == other.elems
    {
      elems := [];
      size := 0;
      new;
      var src := other.elems;
      var i := 0;
      while i < |src|
        invariant 0 <= i <= |src|
        invariant Valid() && elems == src[..i]
      {
        assert src[..i + 1] == src[..i] + [src[i]];
        PushBack(src[i]);
        i := i + 1;
      }
      assert src[..|src|] == src;
    }

    method PushFront(value: T)
      requires Valid()
      modifies this
      ensures Valid() && elems == [value] + old(elems)
    {
      elems := [value] + elems;
      size := size + 1;
    }

    method PushBack(value: T)
      requires Valid()
      modifies this
      ensures Valid() && elems == old(elems) + [value]
    {
      elems := elems + [value];
      size := size + 1;
    }

    /** Unlinks the head; removing the last node leaves the list empty. */
    method PopFront()
      requires Valid()
      modifies this
      ensures Valid()
      ensures elems == if old(elems) == [] then [] else old(elems)[1..]
    {
      if elems != [] {
        elems := elems[1..];
        size := size - 1;
      }
    }

    /** Unlinks the tail; removing the last node leaves the list empty. */
    method PopBack()
      requires Valid()
      modifies this
      ensures Valid()
      ensures elems == if old(elems) == [] then [] else old(elems)[..|old(elems)| - 1]
    {
      if elems != [] {
        elems := elems[..|elems| - 1];
        size := size - 1;
      }
    }

    method Empty() returns (b: bool)
      requires Valid()
      ensures b <==> elems == []
    {
      return elems == [];
    }

    method Size() returns (n: int)
      requires Valid()
      ensures n == |elems|
    {
      return size;
    }

    /** The head's value; throws when the list is empty. */
    method Front() returns (r: Result<T>)
      requires Valid()
      ensures r.Ok? <==> elems != []
      ensures r.Ok? ==> r.value == elems[0]
    {
      if elems == [] {
        return Err(EmptyContainer);
      }
      return Ok(elems[0]);
    }

    /** The tail's value; throws when the list is empty. */
    method Back() returns (r: Result<T>)
      requires Valid()
      ensures r.Ok? <==> elems != []
      ensures r.Ok? ==> r.value == elems[|elems| - 1]
    {
      if elems == [] {
        return Err(EmptyContainer);
      }
      return Ok(elems[|elems| - 1]);
    }

    /** Collects the values from head to tail. */
    method ToVector() returns (out: seq<T>)
      requires Valid()
      ensures out == elems
    {
      out := [];
      var current := 0;
      while current < |elems|
        invariant 0 <= current <= |elems| && out == elems[..current]
      {
        out := out + [elems[current]];
        current := current + 1;
      }
    }

    /** Steps `index` links from the head; throws outside [0, size). */
    method At(index: int) returns (r: Result<T>)
      requires Valid()
      ensures r.Ok? <==> 0 <= index < |elems|
      ensures r.Ok? ==> r.value == elems[index]
    {
      if index < 0 || index >= size {
        return Err(IndexOutOfRange);
      }
      var current := 0;
      var i := 0;
      while i < index
        invariant 0 <= i <= index && current == i
      {
        current := current + 1;
        i := i + 1;
      }
      return Ok(elems[current]);
    }
  }
}
