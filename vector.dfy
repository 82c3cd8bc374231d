/**
 * Vector.h: the growable array every other container of the library is built
 * on. `data` is the heap buffer, `size` the number of live slots and
 * `capacity` the buffer length; `resize` doubles the buffer when it is full.
 */
module Vectors {
  import opened Wrappers

  class Vector<T(0)> {
    var data: array<T>
    var size: int
    var capacity: int

    ghost predicate Valid()
      reads this
    {
      0 <= size <= capacity && capacity == data.Length && capacity > 0
    }

    /** The live elements, index 0 first. */
    ghost function Contents(): seq<T>
      reads this, data
      requires Valid()
    {
      data[..size]
    }

    /** Vector(int initial_capacity = 10); a capacity of 0 never grows (see README). */
    constructor (initialCapacity: int)
      requires initialCapacity > 0
      ensures Valid() && fresh(data)
      ensures Contents() == [] && capacity == initialCapacity
    {
      data := new T[initialCapacity];
      size := 0;
      capacity := initialCapacity;
    }

    /** The copy constructor: same capacity, the first `size` elements copied. */
    constructor Copy(other: Vector<T>)
      requires other.Valid()
      ensures Valid() && fresh(data)
      ensures Contents() == other.Contents() && capacity == other.capacity
    {
      var buf := new T[other.capacity];
      var i := 0;
      while i < other.size
        invariant other.Valid() && buf.Length == other.capacity
        invariant 0 <= i <= other.size
        invariant buf[..i] == other.data[..i]
      {
        buf[i] := other.data[i];
        i := i + 1;
      }
      data := buf;
      size := other.size;
      capacity := other.capacity;
    }

    /** Moves the live prefix into a fresh buffer of `newCapacity` slots. */
    method Resize(newCapacity: int)
      requires Valid() && newCapacity >= size && newCapacity > 0
      modifies this
      ensures Valid() && fresh(data)
      ensures Contents() == old(Contents()) && capacity == newCapacity && size == old(size)
    {
      var newData := new T[newCapacity];
      var i := 0;
      while i < size
        invariant Valid() && size == old(size) && data == old(data)
        invariant 0 <= i <= size
        invariant newData[..i] == data[..i]
      {
        newData[i] := data[i];
        i := i + 1;
      }
      data := newData;
      capacity := newCapacity;
    }

    /** Writes at index `size`, doubling the buffer first when it is full. */
    method PushBack(value: T)
      requires Valid()
      modifies this, data
      ensures Valid()
      ensures Contents() == old(Contents()) + [value]
      ensures capacity == if old(size) >= old(capacity) then 2 * old(capacity) else old(capacity)
      ensures old(size) < old(capacity) ==> data == old(data)
      ensures data == old(data) || fresh(data)
    {
      if size >= capacity {
        Resize(capacity * 2);
      }
      data[size] := value;
      size := size + 1;
    }

    /** Drops the last element; a no-op on an empty vector. */
    method PopBack()
      requires Valid()
      modifies this
      ensures Valid() && data == old(data) && capacity == old(capacity)
      ensures Contents() == if old(size) == 0 then old(Contents()) else old(Contents())[..old(size) - 1]
    {
      if size > 0 {
        size := size - 1;
      }
    }

    /** operator[] for reading: throws outside [0, size). */
    method Get(index: int) returns (r: Result<T>)
      requires Valid()
      ensures r.Ok? <==> 0 <= index < size
      ensures r.Ok? ==> r.value == Contents()[index]
    {
      if index < 0 || index >= size {
        return Err(IndexOutOfRange);
      }
      return Ok(data[index]);
    }

    /** operator[] used as an assignment target: throws outside [0, size). */
    method Set(index: int, value: T) returns (ok: bool)
      requires Valid()
      modifies data
      ensures Valid()
      ensures ok <==> 0 <= index < size
      ensures Contents() == if ok then old(Contents())[index := value] else old(Contents())
    {
      if index < 0 || index >= size {
        return false;
      }
      data[index] := value;
      return true;
    }

    /** The last element; throws on an empty vector. */
    method Back() returns (r: Result<T>)
      requires Valid()
      ensures r.Ok? <==> size > 0
      ensures r.Ok? ==> r.value == Contents()[|Contents()| - 1]
    {
      if size == 0 {
        return Err(EmptyContainer);
      }
      return Ok(data[size - 1]);
    }

    method Size() returns (n: int)
      requires Valid()
      ensures n == |Contents()|
    {
      return size;
    }

    method Empty() returns (b: bool)
      requires Valid()
      ensures b <==> Contents() == []
    {
      return size == 0;
    }

    /** Forgets every element; the buffer is kept. */
    method Clear()
      requires Valid()
      modifies this
      ensures Valid() && Contents() == [] && capacity == old(capacity) && data == old(data)
    {
      size := 0;
    }

    /** Shifts the elements after `index` one slot left; out of range is a no-op. */
    method Erase(index: int)
      requires Valid()
      modifies this, data
      ensures Valid() && data == old(data) && capacity == old(capacity)
      ensures Contents() ==
        if 0 <= index < old(size) then old(Contents())[..index] + old(Contents())[index + 1..]
        else old(Contents())
    {
      if index < 0 || index >= size {
        return;
      }
      var i := index;
      while i < size - 1
        invariant Valid() && size == old(size) && data == old(data)
        invariant index <= i <= size - 1
        invariant forall k :: 0 <= k < index ==> data[k] == old(data[k])
        invariant forall k :: index <= k < i ==> data[k] == old(data[k + 1])
        invariant forall k :: i < k < size ==> data[k] == old(data[k])
      {
        data[i] := data[i + 1];
        i := i + 1;
      }
      ghost var before := old(Contents());
      size := size - 1;
      assert forall k :: 0 <= k < size ==> data[..size][k] == (before[..index] + before[index + 1..])[k];
    }
  }
}
