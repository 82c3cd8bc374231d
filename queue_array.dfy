/**
 * Queue_Array_Implementation_Lib.h: a bounded FIFO in a circular array.
 * `frontIndex` is the oldest slot, `rearIndex` the next free one, and both
 * advance modulo `capacity`. The ghost field `contents` is the queue from
 * oldest to newest.
 */
module QueueArrayLib {
  import opened Wrappers

  /** For 0 <= x < 2c, reduction modulo c is at most one subtraction. */
  lemma WrapMod(x: int, c: int)
    requires c > 0 && 0 <= x < 2 * c
    ensures x % c == if x < c then x else x - c
  {
    if x >= c {
      assert x == (x - c) + c;
      assert (x - c) % c == x - c;
    }
  }

  /** The slot `k` places after `f` in a ring of `c` slots, for f, k < c. */
  function Wrap(f: int, k: int, c: int): (r: int)
    requires 0 <= f < c && 0 <= k <= c
    ensures 0 <= r < c && r == (f + k) % c
  {
    WrapMod(f + k, c);
    if f + k < c then f + k else f + k - c
  }

  class QueueArray<T(0)> {
    var arr: array<T>
    var capacity: int
    var frontIndex: int
    var rearIndex: int
    var cnt: int
    ghost var contents: seq<T>

    ghost predicate Valid()
      reads this, arr
    {
      arr.Length == capacity && 0 <= cnt <= capacity && cnt == |contents| &&
      (capacity == 0 ==> frontIndex == 0 && rearIndex == 0) &&
      (capacity > 0 ==>
        0 <= frontIndex < capacity &&
        rearIndex == Wrap(frontIndex, cnt, capacity) &&
        forall k :: 0 <= k < cnt ==> contents[k] == arr[Wrap(frontIndex, k, capacity)])
    }

    /** A non-negative capacity is needed to allocate `new T[cap]`. */
    constructor (cap: int)
      requires cap >= 0
      ensures Valid() && fresh(arr) && capacity == cap && contents == []
    {
      arr := new T[cap];
      capacity := cap;
      frontIndex := 0;
      rearIndex := 0;
      cnt := 0;
      contents := [];
    }

    /** Returns false and changes nothing when full; otherwise writes at `rearIndex`. */
    method Push(value: T) returns (pushed: bool)
      requires Valid()
      modifies this, arr
      ensures Valid() && arr == old(arr) && capacity == old(capacity)
      ensures pushed <==> old(cnt) < old(capacity)
      ensures pushed ==> contents == old(contents) + [value]
      ensures pushed ==> arr[old(rearIndex)] == value
      ensures pushed ==> forall k :: 0 <= k < arr.Length && k != old(rearIndex) ==> arr[k] == old(arr[k])
      ensures pushed ==> rearIndex == (old(rearIndex) + 1) % capacity
      ensures pushed ==> frontIndex == old(frontIndex) && cnt == old(cnt) + 1
      ensures !pushed ==> contents == old(contents) && unchanged(this) && unchanged(arr)
    {
      if cnt == capacity {
        return false;
      }
      arr[rearIndex] := value;
      WrapMod(rearIndex + 1, capacity);
      rearIndex := (rearIndex + 1) % capacity;
      cnt := cnt + 1;
      contents := contents + [value];
      pushed := true;
    }

    /** Returns false when empty; otherwise advances `frontIndex`. */
    method Pop() returns (popped: bool)
      requires Valid()
      modifies this
      ensures Valid() && arr == old(arr) && capacity == old(capacity)
      ensures popped <==> old(cnt) > 0
      ensures popped ==> contents == old(contents)[1..]
      ensures popped ==> frontIndex == (old(frontIndex) + 1) % capacity
      ensures popped ==> rearIndex == old(rearIndex) && cnt == old(cnt) - 1
      ensures !popped ==> unchanged(this)
      ensures !popped ==> contents == old(contents)
    {
      if cnt == 0 {
        return false;
      }
      WrapMod(frontIndex + 1, capacity);
      frontIndex := (frontIndex + 1) % capacity;
      cnt := cnt - 1;
      contents := contents[1..];
      popped := true;
    }

    /** The oldest element; `out_of_range` when empty. */
    method Front() returns (r: Result<T>)
      requires Valid()
      ensures r.Ok? <==> contents != []
      ensures r.Ok? ==> r.value == contents[0]
    {
      if cnt == 0 {
        return Err(EmptyContainer);
      }
      assert Wrap(frontIndex, 0, capacity) == frontIndex;
      return Ok(arr[frontIndex]);
    }

    /** The newest element, at the slot before `rearIndex`; `out_of_range` when empty. */
    method Back() returns (r: Result<T>)
      requires Valid()
      ensures r.Ok? <==> contents != []
      ensures r.Ok? ==> r.value == contents[|contents| - 1]
    {
      if cnt == 0 {
        return Err(EmptyContainer);
      }
      WrapMod(rearIndex - 1 + capacity, capacity);
      var idx := (rearIndex - 1 + capacity) % capacity;
      return Ok(arr[idx]);
    }

    method Empty() returns (b: bool)
      requires Valid()
      ensures b <==> contents == []
    {
      return cnt == 0;
    }

    method Full() returns (b: bool)
      requires Valid()
      ensures b <==> |contents| == capacity
    {
      return cnt == capacity;
    }

    method Size() returns (n: int)
      requires Valid()
      ensures n == |contents|
    {
      return cnt;
    }
  }

  /**
   * Elements leave in the order they entered: pushing xs into a queue with
   * room for all of them and popping until empty yields xs.
   */
  method FifoOrder<T(0)>(xs: seq<T>, cap: int) returns (out: seq<T>)
    requires |xs| <= cap
    ensures out == xs
  {
    var q := new QueueArray<T>(cap);
    ghost var a := q.arr;
    var i := 0;
    while i < |xs|
      invariant 0 <= i <= |xs| && q.Valid() && q.capacity == cap
      invariant q.contents == xs[..i] && q.arr == a
    {
      assert xs[..i + 1] == xs[..i] + [xs[i]];
      var _ := q.Push(xs[i]);
      i := i + 1;
    }
    out := [];
    while true
      invariant q.Valid() && xs == out + q.contents && q.arr == a
      decreases |q.contents|
    {
      var f := q.Front();
      if f.Err? {
        break;
      }
      out := out + [f.value];
      var _ := q.Pop();
    }
    assert xs[..|xs|] == xs;
  }
}
