/**
 * Stack_Array_Implementation_Lib.h: a bounded LIFO in an array. `topIndex`
 * is the slot of the top element, −1 when empty; the stack bottom to top is
 * `arr[..topIndex + 1]`.
 */
module StackArrayLib {
  import opened Wrappers

  class StackArray<T(0)> {
    var arr: array<T>
    var capacity: int
    var topIndex: int

    ghost predicate Valid()
      reads this
    {
      arr.Length == capacity && -1 <= topIndex < capacity
    }

    /** The elements, bottom to top. */
    ghost function Contents(): seq<T>
      reads this, arr
      requires Valid()
    {
      arr[..topIndex + 1]
    }

    /** A non-negative capacity is needed to allocate `new T[cap]`. */
    constructor (cap: int)
      requires cap >= 0
      ensures Valid() && fresh(arr) && capacity == cap && Contents() == []
    {
      arr := new T[cap];
      capacity := cap;
      topIndex := -1;
    }

    /** Throws overflow when `topIndex >= capacity - 1`; otherwise stores at `++topIndex`. */
    method Push(value: T) returns (r: Result<()>)
      requires Valid()
      modifies this, arr
      ensures Valid() && arr == old(arr) && capacity == old(capacity)
      ensures r.Ok? <==> old(|Contents()|) < capacity
      ensures r.Ok? ==> Contents() == old(Contents()) + [value]
      ensures r.Err? ==> r.error == Overflow && unchanged(this) && unchanged(arr)
    {
      if topIndex >= capacity - 1 {
        return Err(Overflow);
      }
      topIndex := topIndex + 1;
      arr[topIndex] := value;
      return Ok(());
    }

    /** Returns false when empty; otherwise decrements `topIndex`. */
    method Pop() returns (popped: bool)
      requires Valid()
      modifies this
      ensures Valid() && arr == old(arr) && capacity == old(capacity)
      ensures popped <==> old(Contents()) != []
      ensures popped ==> Contents() == old(Contents())[..|old(Contents())| - 1]
      ensures !popped ==> Contents() == old(Contents())
    {
      if topIndex < 0 {
        return false;
      }
      topIndex := topIndex - 1;
      return true;
    }

    /** `arr[topIndex]`; `out_of_range` when empty. */
    method Top() returns (r: Result<T>)
      requires Valid()
      ensures r.Ok? <==> Contents() != []
      ensures r.Ok? ==> r.value == Contents()[|Contents()| - 1]
    {
      if topIndex < 0 {
        return Err(EmptyContainer);
      }
      return Ok(arr[topIndex]);
    }

    method Empty() returns (b: bool)
      requires Valid()
      ensures b <==> Contents() == []
    {
      return topIndex < 0;
    }

    method Size() returns (n: int)
      requires Valid()
      ensures n == |Contents()|
    {
      return topIndex + 1;
    }
  }
}
