/**
 * Array.h: a second growable array with the same buffer discipline as
 * Vector.h, without `back` and `erase`.
 */
module Arrays {
  import opened Wrappers

  class Array<T(0)> {
    var data: array<T>
    var size: int
    var capacity: int

    ghost predicate Valid()
      reads this
    {
      0 <= size <= capacity && capacity == data.Length && capacity > 0
    }

    ghost function Contents(): seq<T>
      reads this, data
      requires Valid()
    {
      data[..size]
    }

    /** Array(int initial_capacity = 10); a capacity of 0 never grows (see README). */
    constructor (initialCapacity: int)
      requires initialCapacity > 0
      ensures Valid() && fresh(data)
      ensures Contents() == [] && capacity == initialCapacity
    {
      data := new T[initialCapacity];
      size := 0;
      capacity := initialCapacity;
    }

    /** The copy constructor copies the capacity and the first `size` elements. */
    constructor Copy(other: Array<T>)
      requires other.Valid()
      ensures Valid() && fresh(data)
      ensures Contents() == other.Contents() && capacity == other.capacity
    {
      var buf := new T[other.capacity];
      var i := 0;
      while i < other.size
        invariant other.Valid() && buf.Length == other.capacity
        invariant 0 <= i <= other.size
        invariant buf[..i] == other.data[..i]
      {
        buf[i] := other.data[i];
        i := i + 1;
      }
      data := buf;
      size := other.size;
      capacity := other.capacity;
    }

    method Resize(newCapacity: int)
      requires Valid() && newCapacity >= size && newCapacity > 0
      modifies this
      ensures Valid() && fresh(data)
      ensures Contents() == old(Contents()) && capacity == newCapacity && size == old(size)
    {
      var newData := new T[newCapacity];
      var i := 0;
      while i < size
        invariant Valid() && size == old(size) && data == old(data)
        invariant 0 <= i <= size
        invariant newData[..i] == data[..i]
      {
        newData[i] := data[i];
        i := i + 1;
      }
      data := newData;
      capacity := newCapacity;
    }

    /** Appends, doubling the buffer first when it is full. */
    method PushBack(value: T)
      requires Valid()
      modifies this, data
      ensures Valid()
      ensures Contents() == old(Contents()) + [value]
      ensures capacity == if old(size) >= old(capacity) then 2 * old(capacity) else old(capacity)
      ensures data == old(data) || fresh(data)
    {
      if size >= capacity {
        Resize(capacity * 2);
      }
      data[size] := value;
      size := size + 1;
    }

    method PopBack()
      requires Valid()
      modifies this
      ensures Valid() && data == old(data) && capacity == old(capacity)
      ensures Contents() == if old(size) == 0 then old(Contents()) else old(Contents())[..old(size) - 1]
    {
      if size > 0 {
        size := size - 1;
      }
    }

    /** operator[]: throws outside [0, size). */
    method Get(index: int) returns (r: Result<T>)
      requires Valid()
      ensures r.Ok? <==> 0 <= index < size
      ensures r.Ok? ==> r.value == Contents()[index]
    {
      if index < 0 || index >= size {
        return Err(IndexOutOfRange);
      }
      return Ok(data[index]);
    }

    method Set(index: int, value: T) returns (ok: bool)
      requires Valid()
      modifies data
      ensures Valid()
      ensures ok <==> 0 <= index < size
      ensures Contents() == if ok then old(Contents())[index := value] else old(Contents())
    {
      if index < 0 || index >= size {
        return false;
      }
      data[index] := value;
      return true;
    }

    method Size() returns (n: int)
      requires Valid()
      ensures n == |Contents()|
    {
      return size;
    }

    method Empty() returns (b: bool)
      requires Valid()
      ensures b <==> size == 0
      ensures b <==> Contents() == []
    {
      return size == 0;
    }

    method Clear()
      requires Valid()
      modifies this
      ensures Valid() && Contents() == [] && capacity == old(capacity)
    {
      size := 0;
    }
  }
}
