/**
 * Stack.h: a LIFO over a singly linked chain from `top_`, with a `size_`
 * counter. The chain is the field `elems`, top first.
 */
module LinkedStack {
  import opened Wrappers

  class Stack<T> {
    var elems: seq<T>
    var size: int

    ghost predicate Valid()
      reads this
    {
      size == |elems|
    }

    constructor ()
      ensures Valid() && elems == []
    {
      elems := [];
      size := 0;
    }

    /**
     * The copy constructor: collects the other stack top to bottom into a
     * buffer, then pushes the buffer from its last entry back to its first,
     * which rebuilds the same top-to-bottom order.
     */
    constructor Copy(other: Stack<T>)
      requires other.Valid()
      ensures Valid() && elems == other.elems
    {
      elems := [];
      size := 0;
      new;
      if other.elems != [] {
        var vals: seq<T> := [];
        var k := 0;
        while k < |other.elems|
          invariant 0 <= k <= |other.elems| && vals == other.elems[..k]
        {
          vals := vals + [other.elems[k]];
          k := k + 1;
        }
        assert vals == other.elems;
        var i := |vals| - 1;
        while i >= 0
          invariant -1 <= i < |vals|
          invariant Valid() && elems == vals[i + 1..]
          invariant vals == other.elems
        {
          assert [vals[i]] + vals[i + 1..] == vals[i..];
          Push(vals[i]);
          i := i - 1;
        }
      }
    }

    /** The new node becomes `top_`. */
    method Push(value: T)
      requires Valid()
      modifies this
      ensures Valid() && elems == [value] + old(elems)
    {
      elems := [value] + elems;
      size := size + 1;
    }

    /** Unlinks `top_`; a no-op on an empty stack. */
    method Pop()
      requires Valid()
      modifies this
      ensures Valid()
      ensures elems == if old(elems) == [] then [] else old(elems)[1..]
    {
      if elems != [] {
        elems := elems[1..];
        size := size - 1;
      }
    }

    /** The most recently pushed element still present; throws when empty. */
    method Top() returns (r: Result<T>)
      requires Valid()
      ensures r.Ok? <==> elems != []
      ensures r.Ok? ==> r.value == elems[0]
    {
      if elems == [] {
        return Err(EmptyContainer);
      }
      return Ok(elems[0]);
    }

    method Empty() returns (b: bool)
      requires Valid()
      ensures b <==> elems == []
    {
      return elems == [];
    }

    method Size() returns (n: int)
      requires Valid()
      ensures n == |elems|
    {
      return size;
    }
  }

  /** Pushing xs and then popping everything yields xs reversed. */
  method LifoOrder<T>(xs: seq<T>) returns (out: seq<T>)
    ensures |out| == |xs|
    ensures forall k :: 0 <= k < |xs| ==> out[k] == xs[|xs| - 1 - k]
  {
    var s := new Stack<T>();
    var i := 0;
    while i < |xs|
      invariant 0 <= i <= |xs| && s.Valid() && |s.elems| == i
      invariant forall k :: 0 <= k < i ==> s.elems[k] == xs[i - 1 - k]
    {
      s.Push(xs[i]);
      i := i + 1;
    }
    out := [];
    while true
      invariant s.Valid() && |out| + |s.elems| == |xs|
      invariant forall k :: 0 <= k < |out| ==> out[k] == xs[|xs| - 1 - k]
      invariant forall k :: 0 <= k < |s.elems| ==> s.elems[k] == xs[|s.elems| - 1 - k]
      decreases |s.elems|
    {
      var t := s.Top();
      if t.Err? {
        break;
      }
      out := out + [t.value];
      s.Pop();
    }
  }
}
