/**
 * The growable array of libs/data_structures/src/dynamic_array.c.
 *
 * A DynamicArray owns a buffer of `capacity` slots of which the first `size` hold the
 * elements; the element type is generic instead of `element_size` raw bytes. Growth
 * doubles the capacity (a `realloc` that copies the elements into a larger buffer) and
 * fails when the doubled `size_t` capacity would wrap around.
 */
module DynamicArrays {
  import opened Wrappers
  import opened SizeT
  import opened Sequences

  const DEFAULT_CAPACITY: nat := 8
  const GROWTH_FACTOR: nat := 2

  class DynamicArray<T(0)> {
    var data: array<T>
    var size: nat
    var capacity: nat
    const elementSize: nat

    /** `size <= capacity`, and the buffer has exactly `capacity` slots. */
    ghost predicate Valid()
      reads this
    {
      data.Length == capacity && 0 < capacity < WORD && size <= capacity && 0 < elementSize
    }

    /** The elements, first to last. */
    ghost function Contents(): seq<T>
      reads this, data
      requires Valid()
    {
      data[..size]
    }

    constructor (elementSize: nat, capacity: nat)
      requires 0 < elementSize && 0 < capacity < WORD
      ensures Valid() && fresh(data) && Contents() == []
      ensures this.capacity == capacity && this.elementSize == elementSize
    {
      this.elementSize := elementSize;
      data := new T[capacity];
      size := 0;
      this.capacity := capacity;
    }

    /** darray_create (lines 47-73): no array for element size 0, capacity 8 by default. */
    static method Create(elementSize: nat, initialCapacity: nat) returns (arr: DynamicArray?<T>)
      requires initialCapacity < WORD
      ensures arr == null <==> elementSize == 0
      ensures arr != null ==> fresh(arr) && fresh(arr.data) && arr.Valid() && arr.Contents() == []
      ensures arr != null ==> arr.elementSize == elementSize
      ensures arr != null ==> arr.capacity == if initialCapacity == 0 then DEFAULT_CAPACITY else initialCapacity
    {
      if elementSize == 0 {
        return null;
      }
      var capacity := if initialCapacity == 0 then DEFAULT_CAPACITY else initialCapacity;
      arr := new DynamicArray(elementSize, capacity);
    }

    /**
     * darray_grow (lines 22-41): the capacity doubles unless the doubled size_t value
     * wraps around; the elements move to the new buffer unchanged.
     */
    method Grow() returns (ok: bool)
      requires Valid()
      modifies this
      ensures Valid() && size == old(size) && Contents() == old(Contents())
      ensures ok <==> GROWTH_FACTOR * old(capacity) < WORD
      ensures capacity == if ok then GROWTH_FACTOR * old(capacity) else old(capacity)
      ensures ok ==> fresh(data)
      ensures !ok ==> data == old(data)
    {
      var newCapacity := capacity * GROWTH_FACTOR % WORD;
      if newCapacity < capacity {
        return false;
      }
      var newData := new T[newCapacity];
      var i := 0;
      while i < size
        modifies newData
        invariant i <= size
        invariant newData[..i] == data[..i]
      {
        newData[i] := data[i];
        i := i + 1;
      }
      data, capacity := newData, newCapacity;
      ok := true;
    }

    /** darray_push (lines 90-108): appends, growing a full array first. */
    method Push(e: T) returns (ok: bool)
      requires Valid()
      modifies this, data
      ensures Valid()
      ensures ok <==> old(size) < old(capacity) || GROWTH_FACTOR * old(capacity) < WORD
      ensures Contents() == if ok then old(Contents()) + [e] else old(Contents())
      ensures capacity == if old(size) < old(capacity) || !ok then old(capacity) else GROWTH_FACTOR * old(capacity)
    {
      if size >= capacity {
        ok := Grow();
        if !ok {
          return;
        }
      }
      ghost var s := Contents();
      data[size] := e;
      size := size + 1;
      assert Contents() == s + [e];
      ok := true;
    }

    /** darray_pop (lines 114-127): the last element, removed; nothing on an empty array. */
    method Pop() returns (r: Option<T>)
      requires Valid()
      modifies this
      ensures Valid() && data == old(data) && capacity == old(capacity)
      ensures r.Some? <==> old(size) > 0
      ensures r.Some? ==> r.value == old(Contents())[old(size) - 1] && Contents() == old(Contents())[..old(size) - 1]
      ensures r.None? ==> Contents() == old(Contents())
    {
      if size == 0 {
        return None;
      }
      size := size - 1;
      r := Some(data[size]);
    }

    /** darray_get (lines 133-141): the element at `index`, if `index < size`. */
    method Get(index: nat) returns (r: Option<T>)
      requires Valid()
      ensures r.Some? <==> index < |Contents()|
      ensures r.Some? ==> r.value == Contents()[index]
    {
      if index >= size {
        return None;
      }
      r := Some(data[index]);
    }

    /** darray_set (lines 147-155): overwrites position `index` only, if `index < size`. */
    method Set(index: nat, e: T) returns (ok: bool)
      requires Valid()
      modifies data
      ensures Valid()
      ensures ok <==> index < size
      ensures Contents() == if ok then old(Contents())[index := e] else old(Contents())
    {
      if index >= size {
        return false;
      }
      data[index] := e;
      ok := true;
    }

    /**
     * darray_insert (lines 161-187): `e` goes to position `index <= size`, the elements
     * from `index` on move one slot right (the memmove, done from the end down).
     */
    method Insert(index: nat, e: T) returns (ok: bool)
      requires Valid()
      modifies this, data
      ensures Valid()
      ensures ok <==> index <= old(size) && (old(size) < old(capacity) || GROWTH_FACTOR * old(capacity) < WORD)
      ensures Contents() == if ok then Inserted(old(Contents()), index, e) else old(Contents())
    {
      if index > size {
        return false;
      }
      if size >= capacity {
        ok := Grow();
        if !ok {
          return;
        }
      }
      ghost var s := Contents();
      ShiftUp(data, index, size);
      data[index] := e;
      size := size + 1;
      assert Contents() == Inserted(s, index, e);
      ok := true;
    }

    /**
     * darray_remove (lines 193-214): the element at `index < size`, removed; the elements
     * after it move one slot left.
     */
    method Remove(index: nat) returns (r: Option<T>)
      requires Valid()
      modifies this, data
      ensures Valid() && capacity == old(capacity)
      ensures r.Some? <==> index < old(size)
      ensures r.Some? ==> r.value == old(Contents())[index] && Contents() == Deleted(old(Contents()), index)
      ensures r.None? ==> Contents() == old(Contents())
    {
      if index >= size {
        return None;
      }
      r := Some(data[index]);
      ghost var s := Contents();
      var j := index;
      while j + 1 < size
        modifies data
        invariant index <= j < size
        invariant forall k :: 0 <= k < index ==> data[k] == s[k]
        invariant forall k :: index <= k < j ==> data[k] == s[k + 1]
        invariant forall k :: j <= k < size ==> data[k] == s[k]
      {
        data[j] := data[j + 1];
        j := j + 1;
      }
      size := size - 1;
      assert Contents() == Deleted(s, index);
    }

    /** darray_clear (lines 244-248): no elements, same capacity. */
    method Clear()
      requires Valid()
      modifies this
      ensures Valid() && Contents() == [] && capacity == old(capacity)
    {
      size := 0;
    }

    /**
     * darray_shrink_to_fit (lines 254-271): fails on an empty array; otherwise the
     * capacity becomes the size and the elements stay.
     */
    method ShrinkToFit() returns (ok: bool)
      requires Valid()
      modifies this
      ensures Valid() && Contents() == old(Contents())
      ensures ok <==> old(size) > 0
      ensures capacity == if ok then old(size) else old(capacity)
    {
      if size == 0 {
        return false;
      }
      if size == capacity {
        return true;
      }
      var newData := new T[size];
      var i := 0;
      while i < size
        modifies newData
        invariant i <= size
        invariant newData[..i] == data[..i]
      {
        newData[i] := data[i];
        i := i + 1;
      }
      data, capacity := newData, size;
      ok := true;
    }
  }

  /** The memmove of darray_insert (lines 173-178): `a[index..size)` moves up one slot, copied from the back as an overlapping move must be. */
  method ShiftUp<T>(a: array<T>, index: nat, size: nat)
    requires index <= size < a.Length
    modifies a
    ensures forall k :: 0 <= k <= index ==> a[k] == old(a[k])
    ensures forall k :: index < k <= size ==> a[k] == old(a[k - 1])
    ensures forall k :: size < k < a.Length ==> a[k] == old(a[k])
  {
    var j := size;
    while j > index
      invariant index <= j <= size
      invariant forall k :: 0 <= k <= j ==> a[k] == old(a[k])
      invariant forall k :: j < k <= size ==> a[k] == old(a[k - 1])
      invariant forall k :: size < k < a.Length ==> a[k] == old(a[k])
    {
      a[j] := a[j - 1];
      j := j - 1;
    }
  }
}
