/**
 * Queue.h: a FIFO over a singly linked chain from `front_` to `rear_` with a
 * `size_` counter. The chain is the field `elems`, front first; `front_` is
 * null exactly when `elems` is empty, and `rear_` is its last node.
 */
module LinkedQueue {
  import opened Wrappers

  class Queue<T> {
    var elems: seq<T>
    var size: int

    ghost predicate Valid()
      reads this
    {
      size == |elems|
    }

    constructor ()
      ensures Valid() && elems == []
    {
      elems := [];
      size := 0;
    }

    /** The copy constructor enqueues the other queue's elements front to rear. */
    constructor Copy(other: Queue<T>)
      requires other.Valid()
      ensures Valid() && elems == other.elems
    {
      elems := [];
      size := 0;
      new;
      var i := 0;
      while i < |other.elems|
        invariant 0 <= i <= |other.elems|
        invariant Valid() && elems == other.elems[..i]
      {
        Enqueue(other.elems[i]);
        i := i + 1;
      }
    }

    /** Links a new node after `rear_`. */
    method Enqueue(value: T)
      requires Valid()
      modifies this
      ensures Valid() && elems == old(elems) + [value]
    {
      elems := elems + [value];
      size := size + 1;
    }

    /** Unlinks the front node; a no-op on an empty queue. */
    method Dequeue()
      requires Valid()
      modifies this
      ensures Valid()
      ensures elems == if old(elems) == [] then [] else old(elems)[1..]
    {
      if elems != [] {
        elems := elems[1..];
        size := size - 1;
      }
    }

    /** The oldest element; throws on an empty queue. */
    method Front() returns (r: Result<T>)
      requires Valid()
      ensures r.Ok? <==> elems != []
      ensures r.Ok? ==> r.value == elems[0]
    {
      if elems == [] {
        return Err(EmptyContainer);
      }
      return Ok(elems[0]);
    }

    method Empty() returns (b: bool)
      requires Valid()
      ensures b <==> elems == []
    {
      return elems == [];
    }

    method Size() returns (n: int)
      requires Valid()
      ensures n == |elems|
    {
      return size;
    }
  }

  /** Whatever is enqueued comes out of Front/Dequeue in the same order. */
  method FifoOrder<T>(xs: seq<T>) returns (out: seq<T>)
    ensures out == xs
  {
    var q := new Queue<T>();
    var i := 0;
    while i < |xs|
      invariant 0 <= i <= |xs| && q.Valid() && q.elems == xs[..i]
    {
      q.Enqueue(xs[i]);
      i := i + 1;
    }
    out := [];
    while true
      invariant q.Valid() && xs == out + q.elems
      decreases |q.elems|
    {
      var f := q.Front();
      if f.Err? {
        break;
      }
      out := out + [f.value];
      q.Dequeue();
    }
  }
}
