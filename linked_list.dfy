/**
 * The doubly linked list of libs/data_structures/src/linked_list.c.
 *
 * Nodes live in `nodes`, a map from node address to node; a node holds one element and
 * its `next` and `prev` links (None for NULL). A fresh node takes the address
 * `nextAddress`, which is then bumped, so addresses are never reused. The ghost sequence
 * `order` lists the node addresses from head to tail; `Valid` ties every link to it.
 */
module LinkedLists {
  import opened Wrappers
  import opened SizeT
  import opened Sequences

  datatype Node<T> = Node(data: T, next: Option<nat>, prev: Option<nat>)

  function First(order: seq<nat>): Option<nat>
  {
    if order == [] then None else Some(order[0])
  }

  function Last(order: seq<nat>): Option<nat>
  {
    if order == [] then None else Some(order[|order| - 1])
  }

  /** A node with its two links exchanged: one step of list_reverse. */
  function Swapped<T>(n: Node<T>): Node<T>
  {
    n.(next := n.prev, prev := n.next)
  }

  /** Every position of `order` names a node. */
  ghost predicate Holds<T>(nodes: map<nat, Node<T>>, order: seq<nat>)
  {
    forall k :: 0 <= k < |order| ==> order[k] in nodes
  }

  /**
   * The node at position `k` exists, its `next` names position `k + 1` and its `prev`
   * position `k - 1`, and both are None past the ends of the list.
   */
  ghost predicate NodeAt<T>(nodes: map<nat, Node<T>>, order: seq<nat>, k: int)
  {
    0 <= k < |order| && order[k] in nodes &&
    nodes[order[k]].next == (if k + 1 < |order| then Some(order[k + 1]) else None) &&
    nodes[order[k]].prev == (if 0 < k then Some(order[k - 1]) else None)
  }

  /**
   * The nodes are exactly those of `order`, each once, and every node's `next` and
   * `prev` point at its neighbours in `order`.
   */
  ghost predicate Linked<T>(nodes: map<nat, Node<T>>, order: seq<nat>)
  {
    Distinct(order) && Holds(nodes, order) && (forall a :: a in nodes ==> a in order) &&
    forall k :: 0 <= k < |order| ==> NodeAt(nodes, order, k)
  }

  /** The elements of the nodes at the addresses in `order`. */
  function Values<T>(nodes: map<nat, Node<T>>, order: seq<nat>): (r: seq<T>)
    requires Holds(nodes, order)
    ensures |r| == |order| && forall i {:trigger r[i]} :: 0 <= i < |order| ==> r[i] == nodes[order[i]].data
  {
    seq(|order|, i requires 0 <= i < |order| => nodes[order[i]].data)
  }

  /**
   * The list's bookkeeping agrees with `order`: the nodes are linked in that order, head
   * and tail name its ends, `size` is its length, and every address is below the next one
   * to be handed out.
   */
  ghost predicate Wellformed<T>(nodes: map<nat, Node<T>>, order: seq<nat>, head: Option<nat>, tail: Option<nat>,
                                size: nat, nextAddress: nat)
  {
    Linked(nodes, order) && head == First(order) && tail == Last(order) && size == |order| &&
    forall a :: a in nodes ==> a < nextAddress
  }

  class LinkedList<T> {
    var nodes: map<nat, Node<T>>
    var head: Option<nat>
    var tail: Option<nat>
    var size: nat
    var nextAddress: nat
    const elementSize: nat
    ghost var order: seq<nat>

    ghost predicate Valid()
      reads this
    {
      Wellformed(nodes, order, head, tail, size, nextAddress) && 0 < elementSize
    }

    /** The elements, head to tail. */
    ghost function Contents(): seq<T>
      reads this
      requires Valid()
    {
      Values(nodes, order)
    }

    constructor (elementSize: nat)
      requires 0 < elementSize
      ensures Valid() && Contents() == [] && head == None && tail == None && size == 0
      ensures this.elementSize == elementSize
    {
      nodes := map[];
      head, tail, size := None, None, 0;
      nextAddress := 0;
      this.elementSize := elementSize;
      order := [];
    }

    /** list_create (lines 79-95): no list for element size 0. */
    static method Create(elementSize: nat) returns (list: LinkedList?<T>)
      ensures list == null <==> elementSize == 0
      ensures list != null ==> fresh(list) && list.Valid() && list.Contents() == [] && list.elementSize == elementSize
    {
      if elementSize == 0 {
        return null;
      }
      list := new LinkedList(elementSize);
    }

    /**
     * find_node (lines 50-73): the node at position `index`, walking `next` from the head
     * for the first half and `prev` from the tail otherwise; both reach `order[index]`.
     */
    method FindNode(index: nat) returns (r: Option<nat>)
      requires Valid()
      ensures r.Some? <==> index < size
      ensures r.Some? ==> r.value == order[index] && r.value in nodes
    {
      if index >= size {
        return None;
      }
      var current: nat;
      if index < size / 2 {
        current := head.value;
        var i := 0;
        while i < index
          invariant i <= index && current == order[i]
        {
          assert NodeAt(nodes, order, i);
          current := nodes[current].next.value;
          i := i + 1;
        }
      } else {
        current := tail.value;
        var i := size - 1;
        while i > index
          invariant index <= i < size && current == order[i]
        {
          assert NodeAt(nodes, order, i);
          current := nodes[current].prev.value;
          i := i - 1;
        }
      }
      r := Some(current);
    }

    /** list_push_front (lines 120-141): `e` becomes the first element. */
    method PushFront(e: T)
      requires Valid()
      modifies this
      ensures Valid() && Contents() == [e] + old(Contents())
    {
      ghost var nodes0, tail0 := nodes, tail;
      var a := nextAddress;
      nextAddress := nextAddress + 1;
      if head.Some? {
        nodes := nodes[head.value := nodes[head.value].(prev := Some(a))];
      } else {
        tail := Some(a);
      }
      nodes := nodes[a := Node(e, head, None)];
      PushedFront(nodes0, order, head, tail0, size, a, e, nodes);
      head := Some(a);
      size := size + 1;
      order := [a] + order;
    }

    /** list_push_back (lines 147-168): `e` becomes the last element. */
    method PushBack(e: T)
      requires Valid()
      modifies this
      ensures Valid() && Contents() == old(Contents()) + [e]
    {
      ghost var nodes0, head0 := nodes, head;
      var a := nextAddress;
      nextAddress := nextAddress + 1;
      if tail.Some? {
        nodes := nodes[tail.value := nodes[tail.value].(next := Some(a))];
      } else {
        head := Some(a);
      }
      nodes := nodes[a := Node(e, None, tail)];
      PushedBack(nodes0, order, head0, tail, size, a, e, nodes);
      tail := Some(a);
      size := size + 1;
      order := order + [a];
    }

    /**
     * list_pop_front (lines 174-196): the first element, removed; nothing on an empty
     * list. Removing the only element leaves head and tail NULL.
     */
    method PopFront() returns (r: Option<T>)
      requires Valid()
      modifies this
      ensures Valid()
      ensures r.Some? <==> old(size) > 0
      ensures r.Some? ==> r.value == old(Contents())[0] && Contents() == old(Contents())[1..]
      ensures r.None? ==> Contents() == old(Contents())
    {
      if size == 0 {
        return None;
      }
      ghost var nodes0, tail0 := nodes, tail;
      assert NodeAt(nodes, order, 0);
      var a := head.value;
      var node := nodes[a];
      r := Some(node.data);
      head := node.next;
      if head.Some? {
        nodes := nodes[head.value := nodes[head.value].(prev := None)];
      } else {
        tail := None;
      }
      nodes := nodes - {a};
      PoppedFront(nodes0, order, order[1..], tail0, size, nextAddress, nodes);
      size := size - 1;
      order := order[1..];
    }

    /**
     * list_pop_back (lines 202-224): the last element, removed; nothing on an empty list.
     * Removing the only element leaves head and tail NULL.
     */
    method PopBack() returns (r: Option<T>)
      requires Valid()
      modifies this
      ensures Valid()
      ensures r.Some? <==> old(size) > 0
      ensures r.Some? ==> r.value == old(Contents())[old(size) - 1] && Contents() == old(Contents())[..old(size) - 1]
      ensures r.None? ==> Contents() == old(Contents())
    {
      if size == 0 {
        return None;
      }
      ghost var nodes0, head0 := nodes, head;
      assert NodeAt(nodes, order, |order| - 1);
      var a := tail.value;
      var node := nodes[a];
      r := Some(node.data);
      tail := node.prev;
      if tail.Some? {
        nodes := nodes[tail.value := nodes[tail.value].(next := None)];
      } else {
        head := None;
      }
      nodes := nodes - {a};
      PoppedBack(nodes0, order, order[..|order| - 1], head0, size, nextAddress, nodes);
      size := size - 1;
      order := order[..|order| - 1];
    }

    /** list_get (lines 230-242): the element at `index`, if `index < size`. */
    method Get(index: nat) returns (r: Option<T>)
      requires Valid()
      ensures r.Some? <==> index < |Contents()|
      ensures r.Some? ==> r.value == Contents()[index]
    {
      var node := FindNode(index);
      if node.None? {
        return None;
      }
      r := Some(nodes[node.value].data);
    }

    /** list_set (lines 248-260): overwrites the element at `index` only, if `index < size`. */
    method Set(index: nat, e: T) returns (ok: bool)
      requires Valid()
      modifies this
      ensures Valid()
      ensures ok <==> index < old(size)
      ensures Contents() == if ok then old(Contents())[index := e] else old(Contents())
    {
      var node := FindNode(index);
      if node.None? {
        return false;
      }
      var a := node.value;
      ghost var nodes0 := nodes;
      nodes := nodes[a := nodes[a].(data := e)];
      Rewritten(nodes0, order, head, tail, size, nextAddress, index, e, nodes);
      ok := true;
    }

    /**
     * list_insert (lines 266-301): at 0 a push_front, at `size` a push_back, in between a
     * new node spliced before the node at `index`; an index past the end fails.
     */
    method Insert(index: nat, e: T) returns (ok: bool)
      requires Valid()
      modifies this
      ensures Valid()
      ensures ok <==> index <= old(size)
      ensures Contents() == if ok then Inserted(old(Contents()), index, e) else old(Contents())
    {
      if index == 0 {
        InsertedAtEnds(Contents(), e);
        PushFront(e);
        return true;
      }
      if index == size {
        InsertedAtEnds(Contents(), e);
        PushBack(e);
        return true;
      }
      if index > size {
        return false;
      }
      var found := FindNode(index);
      var b := found.value;
      ghost var nodes0 := nodes;
      assert NodeAt(nodes, order, index);
      var p := nodes[b].prev.value;
      var a := nextAddress;
      nextAddress := nextAddress + 1;
      nodes := nodes[a := Node(e, Some(b), Some(p))];
      nodes := nodes[b := nodes[b].(prev := Some(a))];
      nodes := nodes[p := nodes[p].(next := Some(a))];
      SplicedIn(nodes0, order, Inserted(order, index, a), head, tail, size, index, a, e, nodes);
      size := size + 1;
      order := Inserted(order, index, a);
      ok := true;
    }

    /**
     * list_remove (lines 307-339): the element at `index`, unlinked; index 0 and index
     * `size - 1` (a size_t subtraction) go to pop_front and pop_back.
     */
    method Remove(index: nat) returns (r: Option<T>)
      requires Valid() && index < WORD && size < WORD
      modifies this
      ensures Valid()
      ensures r.Some? <==> index < old(size)
      ensures r.Some? ==> r.value == old(Contents())[index] && Contents() == Deleted(old(Contents()), index)
      ensures r.None? ==> Contents() == old(Contents())
    {
      if index == 0 {
        if size > 0 {
          DeletedAtEnds(Contents());
        }
        r := PopFront();
        return;
      }
      var last := (size + WORD - 1) % WORD;
      assert last == if size == 0 then WORD - 1 else size - 1;
      if index == last {
        if size > 0 {
          DeletedAtEnds(Contents());
        }
        r := PopBack();
        return;
      }
      var found := FindNode(index);
      if found.None? {
        return None;
      }
      var e := Unlink(index, found.value);
      r := Some(e);
    }

    /** The general case of list_remove: node `a`, inside the list, is spliced out and freed. */
    method Unlink(index: nat, a: nat) returns (e: T)
      requires Valid() && 0 < index < size - 1 && a == order[index]
      modifies this
      ensures Valid() && e == old(Contents())[index] && Contents() == Deleted(old(Contents()), index)
    {
      ghost var nodes0 := nodes;
      assert NodeAt(nodes, order, index);
      var node := nodes[a];
      e := node.data;
      var p := node.prev.value;
      var n := node.next.value;
      nodes := nodes[p := nodes[p].(next := Some(n))];
      nodes := nodes[n := nodes[n].(prev := Some(p))];
      nodes := nodes - {a};
      SplicedOut(nodes0, order, Deleted(order, index), head, tail, size, nextAddress, index, nodes);
      size := size - 1;
      order := Deleted(order, index);
    }

    /**
     * list_find (lines 345-363): the least index whose element `compare`s equal (0) to
     * `e`, or SIZE_MAX when there is none.
     */
    method Find(e: T, compare: (T, T) -> int) returns (index: nat)
      requires Valid()
      ensures (exists i :: 0 <= i < |Contents()| && compare(Contents()[i], e) == 0) ==>
        index < |Contents()| && compare(Contents()[index], e) == 0 &&
        forall j :: 0 <= j < index ==> compare(Contents()[j], e) != 0
      ensures (forall i :: 0 <= i < |Contents()| ==> compare(Contents()[i], e) != 0) ==> index == SIZE_MAX
    {
      var current := head;
      index := 0;
      while current.Some?
        invariant index <= |order| && current == (if index < |order| then Some(order[index]) else None)
        invariant forall j :: 0 <= j < index ==> compare(Contents()[j], e) != 0
        decreases |order| - index
      {
        assert NodeAt(nodes, order, index);
        assert Contents()[index] == nodes[current.value].data;
        if compare(nodes[current.value].data, e) == 0 {
          return;
        }
        current := nodes[current.value].next;
        index := index + 1;
      }
      index := SIZE_MAX;
    }

    /** list_clear (lines 385-400): every node freed, head to tail; the list is empty. */
    method Clear()
      requires Valid()
      modifies this
      ensures Valid() && Contents() == [] && head == None && tail == None && size == 0
    {
      ghost var nodes0, order0 := nodes, order;
      var ns := nodes;
      var current := head;
      var i := 0;
      while current.Some?
        invariant i <= |order0| && current == (if i < |order0| then Some(order0[i]) else None)
        invariant forall x :: x in ns ==> x in nodes0 && ns[x] == nodes0[x]
        invariant forall k :: 0 <= k < i ==> order0[k] !in ns
        invariant forall k :: i <= k < |order0| ==> order0[k] in ns
        decreases |order0| - i
      {
        assert NodeAt(nodes0, order0, i);
        forall k | i < k < |order0|
          ensures order0[k] != order0[i]
        {
          DistinctAt(order0, k, i);
        }
        var next := ns[current.value].next;
        ns := ns - {current.value};
        current := next;
        i := i + 1;
      }
      assert ns == map[] by {
        forall x
          ensures x !in ns
        {
          if x in nodes0 {
            assert x in order0;
          }
        }
      }
      nodes := ns;
      head, tail, size := None, None, 0;
      order := [];
    }

    /**
     * list_reverse (lines 406-426): every node's `next` and `prev` swapped, then head and
     * tail swapped; a list of at most one element is left alone.
     */
    method Reverse()
      requires Valid()
      modifies this
      ensures Valid() && Contents() == Reversed(old(Contents()))
      ensures old(size) > 1 ==> head == old(tail) && tail == old(head)
    {
      if size <= 1 {
        ReversedShort(Contents());
        return;
      }
      var ns := SwapLinks(nodes, head, order);
      ghost var o := Reversed(order);
      Turned(nodes, order, o, head, tail, size, nextAddress, ns);
      nodes, head, tail, order := ns, tail, head, o;
    }
  }

  /** The loop of list_reverse: walking from the head, every node gets its links swapped. */
  method SwapLinks<T>(nodes: map<nat, Node<T>>, head: Option<nat>, ghost order: seq<nat>) returns (ns: map<nat, Node<T>>)
    requires Linked(nodes, order) && head == First(order)
    ensures ns.Keys == nodes.Keys
    ensures forall k :: 0 <= k < |order| ==> ns[order[k]] == Swapped(nodes[order[k]])
  {
    ns := nodes;
    var current := head;
    ghost var i := 0;
    while current.Some?
      invariant i <= |order| && current == (if i < |order| then Some(order[i]) else None)
      invariant ns.Keys == nodes.Keys
      invariant forall k :: 0 <= k < i ==> ns[order[k]] == Swapped(nodes[order[k]])
      invariant forall k :: i <= k < |order| ==> ns[order[k]] == nodes[order[k]]
      decreases |order| - i
    {
      ghost var before := ns;
      var c := current.value;
      var temp := ns[c].prev;
      ns := ns[c := ns[c].(prev := ns[c].next, next := temp)];
      SwapStep(nodes, order, i, before, ns);
      current := ns[c].prev;
      i := i + 1;
    }
  }

  /** One turn of the loop of list_reverse: the node at position `i` gets its links swapped. */
  lemma SwapStep<T>(nodes: map<nat, Node<T>>, order: seq<nat>, i: nat, ns: map<nat, Node<T>>, ns': map<nat, Node<T>>)
    requires Linked(nodes, order) && i < |order| && ns.Keys == nodes.Keys
    requires forall k :: 0 <= k < i ==> ns[order[k]] == Swapped(nodes[order[k]])
    requires forall k :: i <= k < |order| ==> ns[order[k]] == nodes[order[k]]
    requires ns' == ns[order[i] := Swapped(ns[order[i]])]
    ensures ns'.Keys == nodes.Keys
    ensures forall k :: 0 <= k < i + 1 ==> ns'[order[k]] == Swapped(nodes[order[k]])
    ensures forall k :: i + 1 <= k < |order| ==> ns'[order[k]] == nodes[order[k]]
    ensures ns'[order[i]].prev == (if i + 1 < |order| then Some(order[i + 1]) else None)
  {
    assert NodeAt(nodes, order, i);
    forall k | 0 <= k < |order| && k != i
      ensures order[k] != order[i]
    {
      DistinctAt(order, k, i);
    }
  }

  /** Reversal leaves a sequence of at most one element as it is. */
  lemma ReversedShort<T>(s: seq<T>)
    requires |s| <= 1
    ensures Reversed(s) == s
  {
  }

  /** list_push_front on the list's state: the new node `a` heads the list. */
  lemma PushedFront<T>(nodes: map<nat, Node<T>>, order: seq<nat>, head: Option<nat>, tail: Option<nat>, size: nat,
                       a: nat, e: T, ns: map<nat, Node<T>>)
    requires Wellformed(nodes, order, head, tail, size, a)
    requires ns == (if head.Some? then nodes[head.value := nodes[head.value].(prev := Some(a))] else nodes)[a := Node(e, head, None)]
    ensures Wellformed(ns, [a] + order, Some(a), if head.Some? then tail else Some(a), size + 1, a + 1)
    ensures Values(ns, [a] + order) == [e] + Values(nodes, order)
  {
    var o := [a] + order;
    assert a !in order;
    InsertionDistinct(order, 0, a, o);
    forall k | 0 <= k < |o|
      ensures NodeAt(ns, o, k)
    {
      if k == 0 {
        if order != [] {
          assert NodeAt(nodes, order, 0);
        }
      } else {
        assert o[k] == order[k - 1] && NodeAt(nodes, order, k - 1);
        if k > 1 {
          DistinctAt(order, k - 1, 0);
        }
      }
    }
    forall x | x in ns
      ensures x in o
    {
      if x != a {
        assert x in order;
      }
    }
    var vs, ws := Values(ns, o), [e] + Values(nodes, order);
    forall k | 0 <= k < |o|
      ensures vs[k] == ws[k]
    {
      if k > 0 {
        assert o[k] == order[k - 1];
      }
    }
    if order != [] {
      assert o[|o| - 1] == order[|order| - 1];
    }
  }

  /** list_push_back on the list's state: the new node `a` ends the list. */
  lemma PushedBack<T>(nodes: map<nat, Node<T>>, order: seq<nat>, head: Option<nat>, tail: Option<nat>, size: nat,
                      a: nat, e: T, ns: map<nat, Node<T>>)
    requires Wellformed(nodes, order, head, tail, size, a)
    requires ns == (if tail.Some? then nodes[tail.value := nodes[tail.value].(next := Some(a))] else nodes)[a := Node(e, None, tail)]
    ensures Wellformed(ns, order + [a], if tail.Some? then head else Some(a), Some(a), size + 1, a + 1)
    ensures Values(ns, order + [a]) == Values(nodes, order) + [e]
  {
    var o := order + [a];
    var n := |order|;
    assert a !in order;
    InsertionDistinct(order, n, a, o);
    forall k | 0 <= k < |o|
      ensures NodeAt(ns, o, k)
    {
      if k == n {
        if n > 0 {
          assert NodeAt(nodes, order, n - 1);
        }
      } else {
        assert o[k] == order[k] && NodeAt(nodes, order, k);
        if k < n - 1 {
          DistinctAt(order, k, n - 1);
          assert o[k + 1] == order[k + 1];
        }
      }
    }
    forall x | x in ns
      ensures x in o
    {
      if x != a {
        assert x in order;
      }
    }
    var vs, ws := Values(ns, o), Values(nodes, order) + [e];
    forall k | 0 <= k < |o|
      ensures vs[k] == ws[k]
    {
      if k < n {
        assert o[k] == order[k];
      }
    }
    if n > 0 {
      assert o[0] == order[0];
    }
  }

  /**
   * list_pop_front on the list's state: the head's successor becomes the head. `o` is
   * the order without its first address.
   */
  lemma PoppedFront<T>(nodes: map<nat, Node<T>>, order: seq<nat>, o: seq<nat>, tail: Option<nat>, size: nat,
                       nextAddress: nat, ns: map<nat, Node<T>>)
    requires order != [] && Wellformed(nodes, order, Some(order[0]), tail, size, nextAddress)
    requires |o| == |order| - 1 && forall k :: 0 <= k < |o| ==> o[k] == order[k + 1]
    requires var h := nodes[order[0]].next;
      ns == (if h.Some? && h.value in nodes then nodes[h.value := nodes[h.value].(prev := None)] else nodes) - {order[0]}
    ensures var h := nodes[order[0]].next;
      Wellformed(ns, o, h, if h.Some? then tail else None, size - 1, nextAddress)
    ensures |Values(ns, o)| == |o| && forall k :: 0 <= k < |o| ==> Values(ns, o)[k] == Values(nodes, order)[k + 1]
  {
    var n := |order|;
    assert NodeAt(nodes, order, 0);
    DeletionDistinct(order, 0, o);
    forall k | 0 <= k < |o|
      ensures o[k] in ns
    {
      DistinctAt(order, k + 1, 0);
    }
    forall k | 0 <= k < |o|
      ensures NodeAt(ns, o, k)
    {
      DistinctAt(order, k + 1, 0);
      assert NodeAt(nodes, order, k + 1);
      if k > 0 {
        DistinctAt(order, k + 1, 1);
      }
    }
    if n > 1 {
      assert o[|o| - 1] == order[n - 1];
    }
  }

  /**
   * list_pop_back on the list's state: the tail's predecessor becomes the tail. `o` is
   * the order without its last address.
   */
  lemma PoppedBack<T>(nodes: map<nat, Node<T>>, order: seq<nat>, o: seq<nat>, head: Option<nat>, size: nat,
                      nextAddress: nat, ns: map<nat, Node<T>>)
    requires order != [] && Wellformed(nodes, order, head, Some(order[|order| - 1]), size, nextAddress)
    requires |o| == |order| - 1 && forall k :: 0 <= k < |o| ==> o[k] == order[k]
    requires var t := nodes[order[|order| - 1]].prev;
      ns == (if t.Some? && t.value in nodes then nodes[t.value := nodes[t.value].(next := None)] else nodes) - {order[|order| - 1]}
    ensures var t := nodes[order[|order| - 1]].prev;
      Wellformed(ns, o, if t.Some? then head else None, t, size - 1, nextAddress)
    ensures |Values(ns, o)| == |o| && forall k :: 0 <= k < |o| ==> Values(ns, o)[k] == Values(nodes, order)[k]
  {
    var n := |order|;
    assert NodeAt(nodes, order, n - 1);
    DeletionDistinct(order, n - 1, o);
    forall k | 0 <= k < |o|
      ensures o[k] in ns
    {
      DistinctAt(order, k, n - 1);
    }
    forall k | 0 <= k < |o|
      ensures NodeAt(ns, o, k)
    {
      DistinctAt(order, k, n - 1);
      assert NodeAt(nodes, order, k);
      if k < n - 2 {
        DistinctAt(order, k, n - 2);
      }
    }
    if n > 1 {
      assert o[0] == order[0];
    }
  }

  /**
   * list_insert's splice on the list's state: node `a` goes between positions `index - 1`
   * and `index`. `o` is the order with `a` inserted there.
   */
  lemma SplicedIn<T>(nodes: map<nat, Node<T>>, order: seq<nat>, o: seq<nat>, head: Option<nat>, tail: Option<nat>,
                     size: nat, index: nat, a: nat, e: T, ns: map<nat, Node<T>>)
    requires Wellformed(nodes, order, head, tail, size, a) && 0 < index < |order|
    requires |o| == |order| + 1 && o[index] == a
    requires forall k :: 0 <= k < index ==> o[k] == order[k]
    requires forall k :: index < k < |o| ==> o[k] == order[k - 1]
    requires var b, p := order[index], order[index - 1];
      var n1 := nodes[a := Node(e, Some(b), Some(p))];
      var n2 := n1[b := n1[b].(prev := Some(a))];
      ns == n2[p := n2[p].(next := Some(a))]
    ensures Wellformed(ns, o, head, tail, size + 1, a + 1)
    ensures Values(ns, o) == Inserted(Values(nodes, order), index, e)
  {
    var b, p := order[index], order[index - 1];
    DistinctAt(order, index, index - 1);
    assert a !in order;
    InsertionDistinct(order, index, a, o);
    SplicedInLinks(nodes, order, o, head, tail, size, index, a, e, ns);
    assert forall x :: x in nodes ==> x in ns && ns[x].data == nodes[x].data;
    assert ns[a].data == e;
    SplicedInValues(nodes, order, o, index, a, e, ns);
    assert o[|o| - 1] == order[|order| - 1];
  }

  /** The values of the splice of list_insert: `e` lands at position `index`. */
  lemma SplicedInValues<T>(nodes: map<nat, Node<T>>, order: seq<nat>, o: seq<nat>, index: nat, a: nat, e: T,
                           ns: map<nat, Node<T>>)
    requires Holds(nodes, order) && Holds(ns, o) && index < |o| == |order| + 1 && o[index] == a
    requires forall k :: 0 <= k < index ==> o[k] == order[k]
    requires forall k :: index < k < |o| ==> o[k] == order[k - 1]
    requires forall x :: x in nodes ==> x in ns && ns[x].data == nodes[x].data
    requires ns[a].data == e
    ensures Values(ns, o) == Inserted(Values(nodes, order), index, e)
  {
    var vs, ws := Values(ns, o), Values(nodes, order);
    forall k | 0 <= k < |o|
      ensures vs[k] == (if k < index then ws[k] else if k == index then e else ws[k - 1])
    {
    }
    AsInserted(ws, index, e, vs);
  }

  /** The links of the splice of list_insert: every position of `o` is correctly linked. */
  lemma SplicedInLinks<T>(nodes: map<nat, Node<T>>, order: seq<nat>, o: seq<nat>, head: Option<nat>, tail: Option<nat>,
                     size: nat, index: nat, a: nat, e: T, ns: map<nat, Node<T>>)
    requires Wellformed(nodes, order, head, tail, size, a) && 0 < index < |order|
    requires |o| == |order| + 1 && o[index] == a
    requires forall k :: 0 <= k < index ==> o[k] == order[k]
    requires forall k :: index < k < |o| ==> o[k] == order[k - 1]
    requires var b, p := order[index], order[index - 1];
      var n1 := nodes[a := Node(e, Some(b), Some(p))];
      var n2 := n1[b := n1[b].(prev := Some(a))];
      ns == n2[p := n2[p].(next := Some(a))]
    ensures forall k :: 0 <= k < |o| ==> NodeAt(ns, o, k)
  {
    var b, p := order[index], order[index - 1];
    DistinctAt(order, index, index - 1);
    assert a !in order;
    assert ns[a] == Node(e, Some(b), Some(p));
    assert ns[b] == nodes[b].(prev := Some(a)) && ns[p] == nodes[p].(next := Some(a));
    assert forall x :: x in nodes && x != b && x != p ==> ns[x] == nodes[x];
    forall k | 0 <= k < |o|
      ensures NodeAt(ns, o, k)
    {
      if k < index {
        assert NodeAt(nodes, order, k);
        if k < index - 1 {
          DistinctAt(order, k, index - 1);
          DistinctAt(order, k, index);
        }
      } else if k > index {
        assert NodeAt(nodes, order, k - 1);
        if k > index + 1 {
          DistinctAt(order, k - 1, index - 1);
          DistinctAt(order, k - 1, index);
        }
      }
    }
  }

  /**
   * list_remove's unlinking on the list's state: the node at `index` leaves the middle.
   * `o` is the order without position `index`.
   */
  lemma SplicedOut<T>(nodes: map<nat, Node<T>>, order: seq<nat>, o: seq<nat>, head: Option<nat>, tail: Option<nat>,
                      size: nat, nextAddress: nat, index: nat, ns: map<nat, Node<T>>)
    requires Wellformed(nodes, order, head, tail, size, nextAddress) && 0 < index < |order| - 1
    requires |o| == |order| - 1
    requires forall k :: 0 <= k < index ==> o[k] == order[k]
    requires forall k :: index <= k < |o| ==> o[k] == order[k + 1]
    requires var p, n := order[index - 1], order[index + 1];
      var n1 := nodes[p := nodes[p].(next := Some(n))];
      var n2 := n1[n := n1[n].(prev := Some(p))];
      ns == n2 - {order[index]}
    ensures Wellformed(ns, o, head, tail, size - 1, nextAddress)
    ensures Values(ns, o) == Deleted(Values(nodes, order), index)
  {
    DeletionDistinct(order, index, o);
    SplicedOutLinks(nodes, order, o, head, tail, size, nextAddress, index, ns);
    var vs, ws := Values(ns, o), Values(nodes, order);
    forall k | 0 <= k < |o|
      ensures vs[k] == ws[if k < index then k else k + 1]
    {
    }
    AsDeleted(ws, index, vs);
    assert o[|o| - 1] == order[|order| - 1];
  }

  /** The links of the unlinking of list_remove: every position of `o` is correctly linked. */
  lemma SplicedOutLinks<T>(nodes: map<nat, Node<T>>, order: seq<nat>, o: seq<nat>, head: Option<nat>, tail: Option<nat>,
                      size: nat, nextAddress: nat, index: nat, ns: map<nat, Node<T>>)
    requires Wellformed(nodes, order, head, tail, size, nextAddress) && 0 < index < |order| - 1
    requires |o| == |order| - 1
    requires forall k :: 0 <= k < index ==> o[k] == order[k]
    requires forall k :: index <= k < |o| ==> o[k] == order[k + 1]
    requires var p, n := order[index - 1], order[index + 1];
      var n1 := nodes[p := nodes[p].(next := Some(n))];
      var n2 := n1[n := n1[n].(prev := Some(p))];
      ns == n2 - {order[index]}
    ensures forall k :: 0 <= k < |o| ==> o[k] in ns
    ensures forall k :: 0 <= k < |o| ==> NodeAt(ns, o, k)
  {
    var p, c, n := order[index - 1], order[index], order[index + 1];
    DistinctAt(order, index - 1, index + 1);
    DistinctAt(order, index - 1, index);
    DistinctAt(order, index, index + 1);
    assert ns.Keys == nodes.Keys - {c};
    assert ns[p] == nodes[p].(next := Some(n)) && ns[n] == nodes[n].(prev := Some(p));
    assert forall x :: x in ns && x != p && x != n ==> ns[x] == nodes[x];
    forall k | 0 <= k < |o|
      ensures o[k] in ns
    {
      DistinctAt(order, if k < index then k else k + 1, index);
    }
    forall k | 0 <= k < |o|
      ensures NodeAt(ns, o, k)
    {
      SplicedOutNode(nodes, order, o, index, ns, k);
    }
  }

  /** One position of the list after the splice of list_remove_at. */
  lemma SplicedOutNode<T>(nodes: map<nat, Node<T>>, order: seq<nat>, o: seq<nat>, index: nat, ns: map<nat, Node<T>>,
                          k: nat)
    requires Linked(nodes, order) && 0 < index < |order| - 1 && |o| == |order| - 1 && k < |o|
    requires forall k :: 0 <= k < index ==> o[k] == order[k]
    requires forall k :: index <= k < |o| ==> o[k] == order[k + 1]
    requires ns.Keys == nodes.Keys - {order[index]} && order[index - 1] in ns && order[index + 1] in ns
    requires ns[order[index - 1]] == nodes[order[index - 1]].(next := Some(order[index + 1]))
    requires ns[order[index + 1]] == nodes[order[index + 1]].(prev := Some(order[index - 1]))
    requires forall x :: x in ns && x != order[index - 1] && x != order[index + 1] ==> ns[x] == nodes[x]
    ensures NodeAt(ns, o, k)
  {
    if k < index {
      DistinctAt(order, k, index);
      assert NodeAt(nodes, order, k);
      if k < index - 1 {
        DistinctAt(order, k, index - 1);
        DistinctAt(order, k, index + 1);
      }
    } else {
      DistinctAt(order, k + 1, index);
      assert NodeAt(nodes, order, k + 1);
      if k > index {
        DistinctAt(order, k + 1, index - 1);
        DistinctAt(order, k + 1, index + 1);
      }
    }
  }

  /** list_set on the list's state: the element at `index` changes, every link stays. */
  lemma Rewritten<T>(nodes: map<nat, Node<T>>, order: seq<nat>, head: Option<nat>, tail: Option<nat>, size: nat,
                     nextAddress: nat, index: nat, e: T, ns: map<nat, Node<T>>)
    requires Wellformed(nodes, order, head, tail, size, nextAddress) && index < |order|
    requires ns == nodes[order[index] := nodes[order[index]].(data := e)]
    ensures Wellformed(ns, order, head, tail, size, nextAddress)
    ensures Values(ns, order) == Values(nodes, order)[index := e]
  {
    forall k | 0 <= k < |order|
      ensures NodeAt(ns, order, k)
    {
      assert NodeAt(nodes, order, k);
    }
    var vs, ws := Values(ns, order), Values(nodes, order)[index := e];
    forall k | 0 <= k < |order|
      ensures vs[k] == ws[k]
    {
      if k != index {
        DistinctAt(order, k, index);
      }
    }
  }

  /**
   * list_reverse on the list's state: every node's links swapped, head and tail trade
   * places. `o` is the order reversed.
   */
  lemma Turned<T>(nodes: map<nat, Node<T>>, order: seq<nat>, o: seq<nat>, head: Option<nat>, tail: Option<nat>,
                  size: nat, nextAddress: nat, ns: map<nat, Node<T>>)
    requires Wellformed(nodes, order, head, tail, size, nextAddress) && ns.Keys == nodes.Keys
    requires forall k :: 0 <= k < |order| ==> ns[order[k]] == Swapped(nodes[order[k]])
    requires |o| == |order| && forall k :: 0 <= k < |order| ==> o[k] == order[|order| - 1 - k]
    ensures Wellformed(ns, o, tail, head, size, nextAddress)
    ensures Values(ns, o) == Reversed(Values(nodes, order))
  {
    var n := |order|;
    ReversalDistinct(order, o);
    forall k | 0 <= k < n
      ensures NodeAt(ns, o, k)
    {
      var j := n - 1 - k;
      assert NodeAt(nodes, order, j);
      if k + 1 < n {
        assert o[k + 1] == order[j - 1];
      }
      if 0 < k {
        assert o[k - 1] == order[j + 1];
      }
    }
    var vs, ws := Values(ns, o), Values(nodes, order);
    forall k | 0 <= k < n
      ensures vs[k] == ws[n - 1 - k]
    {
    }
    AsReversed(ws, vs);
  }
}
