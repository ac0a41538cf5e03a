/**
 * The array-backed LIFO stack of libs/data_structures/src/stack.c.
 *
 * The first `top` of the `capacity` slots hold the elements, bottom first; the element
 * type is generic instead of `element_size` raw bytes. Growth doubles the capacity and
 * fails when the doubled `size_t` capacity would wrap around.
 */
module Stacks {
  import opened Wrappers
  import opened SizeT

  const DEFAULT_CAPACITY: nat := 16
  const GROWTH_FACTOR: nat := 2

  class Stack<T(0)> {
    var data: array<T>
    var top: nat
    var capacity: nat
    const elementSize: nat

    /** `top <= capacity`, and the buffer has exactly `capacity` slots. */
    ghost predicate Valid()
      reads this
    {
      data.Length == capacity && 0 < capacity < WORD && top <= capacity && 0 < elementSize
    }

    /** The elements, bottom first: the last one is the top of the stack. */
    ghost function Contents(): seq<T>
      reads this, data
      requires Valid()
    {
      data[..top]
    }

    constructor (elementSize: nat, capacity: nat)
      requires 0 < elementSize && 0 < capacity < WORD
      ensures Valid() && fresh(data) && Contents() == []
      ensures this.capacity == capacity && this.elementSize == elementSize
    {
      this.elementSize := elementSize;
      data := new T[capacity];
      top := 0;
      this.capacity := capacity;
    }

    /** stack_create (lines 47-73): no stack for element size 0, capacity 16 by default. */
    static method Create(elementSize: nat, initialCapacity: nat) returns (st: Stack?<T>)
      requires initialCapacity < WORD
      ensures st == null <==> elementSize == 0
      ensures st != null ==> fresh(st) && fresh(st.data) && st.Valid() && st.Contents() == [] && st.top == 0
      ensures st != null ==> st.elementSize == elementSize
      ensures st != null ==> st.capacity == if initialCapacity == 0 then DEFAULT_CAPACITY else initialCapacity
    {
      if elementSize == 0 {
        return null;
      }
      var capacity := if initialCapacity == 0 then DEFAULT_CAPACITY else initialCapacity;
      st := new Stack(elementSize, capacity);
    }

    /** stack_grow (lines 22-41): doubles the capacity unless the size_t product wraps. */
    method Grow() returns (ok: bool)
      requires Valid()
      modifies this
      ensures Valid() && top == old(top) && Contents() == old(Contents())
      ensures ok <==> GROWTH_FACTOR * old(capacity) < WORD
      ensures capacity == if ok then GROWTH_FACTOR * old(capacity) else old(capacity)
      ensures ok ==> fresh(data)
      ensures !ok ==> data == old(data)
    {
      var newCapacity := capacity * GROWTH_FACTOR % WORD;
      if newCapacity < capacity {
        return false;
      }
      var newData := new T[newCapacity];
      var i := 0;
      while i < top
        modifies newData
        invariant i <= top
        invariant newData[..i] == data[..i]
      {
        newData[i] := data[i];
        i := i + 1;
      }
      data, capacity := newData, newCapacity;
      ok := true;
    }

    /** stack_push (lines 90-108): `e` becomes the top, growing a full stack first. */
    method Push(e: T) returns (ok: bool)
      requires Valid()
      modifies this, data
      ensures Valid()
      ensures ok <==> old(top) < old(capacity) || GROWTH_FACTOR * old(capacity) < WORD
      ensures Contents() == if ok then old(Contents()) + [e] else old(Contents())
      ensures capacity == if old(top) < old(capacity) || !ok then old(capacity) else GROWTH_FACTOR * old(capacity)
      ensures data == old(data) || fresh(data)
    {
      if top >= capacity {
        ok := Grow();
        if !ok {
          return;
        }
      }
      ghost var s := Contents();
      data[top] := e;
      top := top + 1;
      assert Contents() == s + [e];
      ok := true;
    }

    /** stack_pop (lines 114-127): the top element, removed; nothing on an empty stack. */
    method Pop() returns (r: Option<T>)
      requires Valid()
      modifies this
      ensures Valid() && data == old(data) && capacity == old(capacity)
      ensures r.Some? <==> old(top) > 0
      ensures r.Some? ==> r.value == old(Contents())[old(top) - 1] && Contents() == old(Contents())[..old(top) - 1]
      ensures r.None? ==> Contents() == old(Contents())
    {
      if top == 0 {
        return None;
      }
      top := top - 1;
      r := Some(data[top]);
    }

    /** stack_peek (lines 133-141): the top element, left in place; nothing on an empty stack. */
    method Peek() returns (r: Option<T>)
      requires Valid()
      ensures r.Some? <==> Contents() != []
      ensures r.Some? ==> r.value == Contents()[|Contents()| - 1]
    {
      if top == 0 {
        return None;
      }
      r := Some(data[top - 1]);
    }

    /** stack_is_full (lines 171-173). */
    method IsFull() returns (full: bool)
      requires Valid()
      ensures full <==> |Contents()| == capacity
    {
      full := top == capacity;
    }

    /** stack_clear (lines 179-183): no elements, same capacity. */
    method Clear()
      requires Valid()
      modifies this
      ensures Valid() && Contents() == [] && top == 0 && capacity == old(capacity)
    {
      top := 0;
    }

    /**
     * stack_dup (lines 189-199) as evidently intended: pushes a copy of the top element.
     * The C code instead hands stack_push a pointer into the buffer (lines 195-198), and
     * stack_push copies from it (line 104) only after stack_grow may have moved the buffer
     * with realloc (lines 33 and 96-100); DupAsWritten models that. Here the element is
     * copied out before the push.
     */
    method Dup() returns (ok: bool)
      requires Valid()
      modifies this, data
      ensures Valid()
      ensures ok <==> old(top) > 0 && (old(top) < old(capacity) || GROWTH_FACTOR * old(capacity) < WORD)
      ensures ok ==> Contents() == old(Contents()) + [old(Contents())[old(top) - 1]]
      ensures !ok ==> Contents() == old(Contents())
    {
      if top == 0 {
        return false;
      }
      var e := data[top - 1];
      ok := Push(e);
    }

    /**
     * stack_dup (lines 189-199) as written. When the stack is full, the pointer to the top
     * element is taken before stack_grow reallocates the buffer, which may move it and
     * free the old one; the memcpy of line 104 then reads through the stale pointer.
     * `stale` stands for whatever it reads: once the old buffer is freed that can be any
     * value.
     */
    method DupAsWritten(stale: T) returns (ok: bool)
      requires Valid()
      modifies this, data
      ensures Valid()
      ensures ok <==> old(top) > 0 && (old(top) < old(capacity) || GROWTH_FACTOR * old(capacity) < WORD)
      ensures ok ==> Contents() == old(Contents()) + [if old(top) < old(capacity) then old(Contents())[old(top) - 1] else stale]
      ensures !ok ==> Contents() == old(Contents())
    {
      if top == 0 {
        return false;
      }
      var e := data[top - 1];
      if top >= capacity {
        ok := Grow();
        if !ok {
          return;
        }
        e := stale;
      }
      ghost var s := Contents();
      data[top] := e;
      top := top + 1;
      assert Contents() == s + [e];
      ok := true;
    }

    /** stack_swap (lines 205-227): exchanges the top two elements; needs two of them. */
    method Swap() returns (ok: bool)
      requires Valid()
      modifies data
      ensures Valid()
      ensures ok <==> top >= 2
      ensures ok ==> var s := old(Contents());
        Contents() == s[..top - 2] + [s[top - 1], s[top - 2]]
      ensures !ok ==> Contents() == old(Contents())
    {
      if top < 2 {
        return false;
      }
      var temp := data[top - 1];
      data[top - 1] := data[top - 2];
      data[top - 2] := temp;
      ok := true;
    }
  }

  /**
   * A full stack of one element, 7, duplicated as written when the stale read yields 0:
   * the stack ends as [7, 0] where stack_dup promises [7, 7]. Dup on the same stack does
   * give [7, 7].
   */
  method DupReadsStaleBuffer() returns (asWritten: seq<int>, intended: seq<int>)
    ensures asWritten == [7, 0] && intended == [7, 7] && asWritten != intended
  {
    var st := new Stack<int>(4, 1);
    var pushed := st.Push(7);
    var ok := st.DupAsWritten(0);
    asWritten := st.data[..st.top];
    var st2 := new Stack<int>(4, 1);
    pushed := st2.Push(7);
    ok := st2.Dup();
    intended := st2.data[..st2.top];
  }

  /**
   * Push then pop on any stack (LIFO): the pop returns the pushed element and leaves the
   * elements that were there before.
   */
  method PushPop<T(0)>(st: Stack<T>, e: T) returns (r: Option<T>)
    requires st.Valid()
    modifies st, st.data
    ensures st.Valid()
    ensures old(st.top) < old(st.capacity) || GROWTH_FACTOR * old(st.capacity) < WORD ==>
      r == Some(e) && st.Contents() == old(st.Contents())
  {
    var ok := st.Push(e);
    r := st.Pop();
  }
}
