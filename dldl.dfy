/**
 * The doubly-linked list that holds the monitor's registry (src/dldl.h, src/dldl.c).
 * A list owns a `first`/`last` pair of node pointers and a `size` counter; each node
 * has `prev`/`next` pointers and an element. The ghost sequence `nodes` is the list
 * in order from `first` to `last`, and `elements` the elements those nodes carry.
 */
module Dldl {
  import opened Wrappers

  class Node<T> {
    var prev: Node?<T>
    var next: Node?<T>
    // dldl_push is the only writer of a node's element, once, when the node is made.
    const element: T

    constructor (element: T)
      ensures this.element == element && prev == null && next == null
    {
      this.element := element;
      prev := null;
      next := null;
    }
  }

  class DList<T> {
    var size: int
    var first: Node?<T>
    var last: Node?<T>
    ghost var nodes: seq<Node<T>>
    ghost var elements: seq<T>
    /** Every node the list has allocated; unlinked nodes stay in it, since nothing is freed. */
    ghost var repr: set<Node<T>>

    /** The objects the list is made of: its nodes. */
    ghost function Repr(): set<Node<T>>
      reads this
    {
      repr
    }

    /** The pointer structure: `first`, `last`, every `prev` and `next` agree with `nodes`. */
    ghost predicate Linked()
      reads this, Repr()
    {
      && |elements| == |nodes|
      && (forall i {:trigger nodes[i]} :: 0 <= i < |nodes| ==> nodes[i] in repr && nodes[i].element == elements[i])
      && (forall i, j :: 0 <= i < j < |nodes| ==> nodes[i] != nodes[j])
      && (nodes == [] ==> first == null && last == null)
      && (nodes != [] ==> first == nodes[0] && last == nodes[|nodes| - 1])
      && (nodes != [] ==> nodes[0].prev == null && nodes[|nodes| - 1].next == null)
      && (forall i, j :: 0 <= i < |nodes| && 0 <= j < |nodes| && j == i + 1 ==>
            nodes[i].next == nodes[j] && nodes[j].prev == nodes[i])
    }

    /** The full invariant: the links are right and `size` counts the nodes. */
    ghost predicate Valid()
      reads this, Repr()
    {
      Linked() && size == |nodes|
    }

    /** dldl_create with `size` set to zero, which is what the rest of the program relies on. */
    constructor ()
      ensures Valid() && nodes == [] && elements == [] && Repr() == {}
      ensures first == null && last == null && size == 0
    {
      size := 0;
      first := null;
      last := null;
      nodes := [];
      elements := [];
      repr := {};
    }

    /**
     * dldl_create as written: the counter is left holding whatever the allocator's
     * memory held, given here as `garbage` (a `size_t`, so never negative).
     */
    constructor CreateUninitialised(garbage: nat)
      ensures Linked() && nodes == [] && elements == [] && Repr() == {}
      ensures first == null && last == null && size == garbage
      ensures Valid() <==> garbage == 0
    {
      size := garbage;
      first := null;
      last := null;
      nodes := [];
      elements := [];
      repr := {};
    }

    /** dldl_push: appends a fresh node holding `element` after `last`. */
    method Push(element: T) returns (r: int)
      requires Linked()
      modifies this, Repr()
      ensures Linked()
      ensures r == 1
      ensures elements == old(elements) + [element]
      ensures size == old(size) + 1
      ensures |nodes| == |old(nodes)| + 1 && nodes[..|old(nodes)|] == old(nodes)
      ensures fresh(last) && last == nodes[|nodes| - 1] && Repr() == old(Repr()) + {last}
      ensures old(nodes) == [] ==> first == last && first.prev == null && first.next == null
    {
      var node := new Node(element);
      if last == null {
        first := node;
        last := node;
      } else {
        last.next := node;
        node.prev := last;
        last := node;
      }
      size := size + 1;
      repr := repr + {node};
      nodes := nodes + [node];
      elements := elements + [element];
      r := 1;
    }

    /**
     * dldl_remove: unlinks `node` in O(1) and returns its element. On an empty list
     * or a null node it reports an error and returns NULL (None), changing nothing.
     * The C code never checks that a non-null node belongs to the list; here that is
     * required of the caller.
     */
    method Remove(node: Node?<T>) returns (r: Option<T>, ghost at: nat)
      requires Linked()
      requires node != null && nodes != [] ==> node in nodes
      modifies this, Repr()
      ensures Linked()
      ensures old(nodes) == [] || node == null ==>
                r == None && unchanged(this) && nodes == old(nodes)
      ensures old(nodes) != [] && node != null ==>
                && at < |old(nodes)| && old(nodes)[at] == node
                && r == Some(old(elements)[at])
                && nodes == old(nodes)[..at] + old(nodes)[at + 1..]
                && elements == old(elements)[..at] + old(elements)[at + 1..]
                && size == old(size) - 1
      ensures Repr() == old(Repr())
    {
      at := 0;
      if first == null || last == null {
        return None, at;
      }
      if node == null {
        return None, at;
      }
      at :| 0 <= at < |nodes| && nodes[at] == node;
      if node == first && node == last {
        UnlinkOnly(node, at);
      } else if node == first {
        UnlinkFirst(node, at);
      } else if node == last {
        UnlinkLast(node, at);
      } else {
        UnlinkInner(node, at);
      }
      r := Some(node.element);
    }

    /** The list's only node: both ends become null. */
    method UnlinkOnly(node: Node<T>, ghost at: nat)
      requires node == first && node == last
      requires Linked() && at < |nodes| && nodes[at] == node
      modifies this, Repr()
      ensures Linked()
      ensures nodes == old(nodes)[..at] + old(nodes)[at + 1..]
      ensures elements == old(elements)[..at] + old(elements)[at + 1..]
      ensures size == old(size) - 1
      ensures Repr() == old(Repr())
    {
      first := null;
      last := null;
      size := size - 1;
      nodes := nodes[..at] + nodes[at + 1..];
      elements := elements[..at] + elements[at + 1..];
    }

    /** The first of several nodes: its successor becomes `first`. */
    method UnlinkFirst(node: Node<T>, ghost at: nat)
      requires node == first && node != last
      requires Linked() && at < |nodes| && nodes[at] == node
      modifies this, Repr()
      ensures Linked()
      ensures nodes == old(nodes)[..at] + old(nodes)[at + 1..]
      ensures elements == old(elements)[..at] + old(elements)[at + 1..]
      ensures size == old(size) - 1
      ensures Repr() == old(Repr())
    {
      assert at == 0 && 1 < |nodes| && node.next == nodes[1];
      ghost var n := nodes[..at] + nodes[at + 1..];
      assert forall i :: 0 <= i < |n| ==> n[i] == nodes[i + 1];
      first := node.next;
      first.prev := null;
      size := size - 1;
      nodes := n;
      elements := elements[..at] + elements[at + 1..];
    }

    /** The last of several nodes: its predecessor becomes `last`. */
    method UnlinkLast(node: Node<T>, ghost at: nat)
      requires node != first && node == last
      requires Linked() && at < |nodes| && nodes[at] == node
      modifies this, Repr()
      ensures Linked()
      ensures nodes == old(nodes)[..at] + old(nodes)[at + 1..]
      ensures elements == old(elements)[..at] + old(elements)[at + 1..]
      ensures size == old(size) - 1
      ensures Repr() == old(Repr())
    {
      assert at == |nodes| - 1 && 0 < at && node.prev == nodes[at - 1];
      ghost var n := nodes[..at] + nodes[at + 1..];
      assert forall i :: 0 <= i < |n| ==> n[i] == nodes[i];
      last := node.prev;
      last.next := null;
      size := size - 1;
      nodes := n;
      elements := elements[..at] + elements[at + 1..];
    }

    /** A node with neighbours on both sides: they are linked to each other. */
    method UnlinkInner(node: Node<T>, ghost at: nat)
      requires node != first && node != last
      requires Linked() && at < |nodes| && nodes[at] == node
      modifies this, Repr()
      ensures Linked()
      ensures nodes == old(nodes)[..at] + old(nodes)[at + 1..]
      ensures elements == old(elements)[..at] + old(elements)[at + 1..]
      ensures size == old(size) - 1
      ensures Repr() == old(Repr())
    {
      assert 0 < at < |nodes| - 1;
      assert node.next == nodes[at + 1] && node.prev == nodes[at - 1];
      ghost var n := nodes[..at] + nodes[at + 1..];
      assert forall i :: 0 <= i < |n| ==> n[i] == if i < at then nodes[i] else nodes[i + 1];
      var next := node.next;
      var prev := node.prev;
      next.prev := prev;
      prev.next := next;
      size := size - 1;
      nodes := n;
      elements := elements[..at] + elements[at + 1..];
    }

    /** dldl_pop: removes and returns the last element, or NULL on an empty list. */
    method Pop() returns (r: Option<T>)
      requires Linked()
      modifies this, Repr()
      ensures Linked()
      ensures old(elements) == [] ==> r == None && unchanged(this) && nodes == old(nodes)
      ensures old(elements) != [] ==>
                && r == Some(old(elements)[|old(elements)| - 1])
                && elements == old(elements)[..|old(elements)| - 1]
                && nodes == old(nodes)[..|old(nodes)| - 1]
                && size == old(size) - 1
    {
      var node := last;
      if node != null {
        ghost var at;
        r, at := Remove(node);
      } else {
        r := None;
      }
    }

    /** dldl_shift: removes and returns the first element, or NULL on an empty list. */
    method Shift() returns (r: Option<T>)
      requires Linked()
      modifies this, Repr()
      ensures Linked()
      ensures old(elements) == [] ==> r == None && unchanged(this) && nodes == old(nodes)
      ensures old(elements) != [] ==>
                && r == Some(old(elements)[0])
                && elements == old(elements)[1..]
                && nodes == old(nodes)[1..]
                && size == old(size) - 1
    {
      var node := first;
      if node != null {
        ghost var at;
        r, at := Remove(node);
      } else {
        r := None;
      }
    }

    /**
     * dldl_destroy, as far as it means anything without manual memory management:
     * afterwards the list holds nothing, and the call reports 1.
     */
    method Destroy() returns (r: int)
      requires Linked()
      modifies this
      ensures Valid() && nodes == [] && elements == []
      ensures first == null && last == null
      ensures r == 1
    {
      first := null;
      last := null;
      size := 0;
      nodes := [];
      elements := [];
      repr := {};
      r := 1;
    }
  }

  /**
   * With the counter left uninitialised by dldl_create, a list that had one element
   * pushed and removed again is empty while its `size` is not zero.
   */
  method UninitialisedSizeNeverEmpties() returns (l: DList<int>)
    ensures l.elements == [] && l.first == null && l.size == 1
  {
    l := new DList.CreateUninitialised(1);
    var pushed := l.Push(42);
    var removed, _ := l.Remove(l.first);
  }
}
