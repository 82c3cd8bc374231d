/**
 * Singly_Link_List_Lib.h: a chain from `head` with an `sz` counter. The
 * chain is the field `elems`, head first.
 */
module SinglyLinkListLib {

  class SinglyLinkedList<T(==)> {
    var elems: seq<T>
    var sz: int

    ghost predicate Valid()
      reads this
    {
      sz == |elems|
    }

    constructor ()
      ensures Valid() && elems == []
    {
      elems := [];
      sz := 0;
    }

    method PushFront(value: T)
      requires Valid()
      modifies this
      ensures Valid() && elems == [value] + old(elems)
    {
      elems := [value] + elems;
      sz := sz + 1;
    }

    /** Walks from `head` to the last node and links the new node after it. */
    method PushBack(value: T)
      requires Valid()
      modifies this
      ensures Valid() && elems == old(elems) + [value]
    {
      if elems == [] {
        elems := [value];
      } else {
        var cur := 0;
        while cur + 1 < |elems|
          invariant 0 <= cur < |elems|
        {
          cur := cur + 1;
        }
        // cur is the last node: the new node is linked after it
        elems := elems[..cur + 1] + [value];
      }
      sz := sz + 1;
    }

    /** Returns false on an empty list; otherwise unlinks the head. */
    method PopFront() returns (popped: bool)
      requires Valid()
      modifies this
      ensures Valid()
      ensures popped <==> old(elems) != []
      ensures popped ==> elems == old(elems)[1..]
      ensures !popped ==> elems == old(elems)
    {
      if elems == [] {
        return false;
      }
      elems := elems[1..];
      sz := sz - 1;
      return true;
    }

    /** Walks the chain, stopping at the first node equal to `value`. */
    method Contains(value: T) returns (found: bool)
      requires Valid()
      ensures found <==> value in elems
    {
      var cur := 0;
      while cur < |elems|
        invariant 0 <= cur <= |elems|
        invariant value !in elems[..cur]
      {
        if elems[cur] == value {
          return true;
        }
        assert elems[..cur + 1] == elems[..cur] + [elems[cur]];
        cur := cur + 1;
      }
      assert elems[..cur] == elems;
      return false;
    }

    method Size() returns (n: int)
      requires Valid()
      ensures n == |elems|
    {
      return sz;
    }

    method Empty() returns (b: bool)
      requires Valid()
      ensures b <==> elems == []
    {
      return sz == 0;
    }

    /** Pops the head until the list is empty. */
    method Clear()
      requires Valid()
      modifies this
      ensures Valid() && elems == [] && sz == 0
    {
      while elems != []
        invariant Valid()
        decreases |elems|
      {
        var _ := PopFront();
      }
    }

    /** Collects the values from head to tail. */
    method ToVector() returns (out: seq<T>)
      requires Valid()
      ensures out == elems
    {
      out := [];
      var cur := 0;
      while cur < |elems|
        invariant 0 <= cur <= |elems| && out == elems[..cur]
      {
        out := out + [elems[cur]];
        cur := cur + 1;
      }
    }
  }
}
