/**
 * The double-ended queue of `queues/Deque.java`: a doubly linked list of
 * nodes with `first` and `last` pointers and a size counter. The ghost
 * sequence `nodes` lists the nodes from first to last; `Valid` ties every
 * link to it, and `Contents` is the sequence of items the deque holds.
 */
module Deques {
  import opened Wrappers

  /** `Deque.Node`: an item, never reassigned, and the links to its neighbours. */
  class Node<T> {
    const item: T
    var next: Node?<T>
    var prev: Node?<T>

    constructor (item: T)
      ensures this.item == item && next == null && prev == null
    {
      this.item := item;
      next := null;
      prev := null;
    }
  }

  class Deque<T> {
    var size: int
    var first: Node?<T>
    var last: Node?<T>
    ghost var nodes: seq<Node<T>>
    ghost var Repr: set<object>

    /**
     * The link invariant: `first` and `last` are the ends of the chain (both
     * null when it is empty), `first.prev` and `last.next` are null, each
     * node's `next` is the following node and that node's `prev` points back,
     * no node occurs twice, and `size` counts the nodes.
     */
    ghost predicate Valid()
      reads this, Repr
    {
      && this in Repr
      && (forall k :: 0 <= k < |nodes| ==> nodes[k] in Repr)
      && size == |nodes|
      && (nodes == [] ==> first == null && last == null)
      && (nodes != [] ==>
            && first == nodes[0] && last == nodes[|nodes| - 1]
            && first.prev == null && last.next == null)
      && (forall k :: 0 <= k < |nodes| - 1 ==> nodes[k].next == nodes[k + 1] && nodes[k + 1].prev == nodes[k])
      && (forall i, j :: 0 <= i < j < |nodes| ==> nodes[i] != nodes[j])
    }

    /** The items from first to last. */
    ghost function Contents(): (s: seq<T>)
      reads this
      ensures |s| == |nodes| && forall k :: 0 <= k < |nodes| ==> s[k] == nodes[k].item
    {
      var ns := nodes;
      seq(|ns|, k requires 0 <= k < |ns| => ns[k].item)
    }

    /** `new Deque()`: empty, with size 0. */
    constructor ()
      ensures Valid() && fresh(Repr)
      ensures Contents() == []
    {
      size := 0;
      first := null;
      last := null;
      nodes := [];
      Repr := {this};
    }

    /** `isEmpty()`, which tests `first == null`: true exactly when no item is held. */
    method IsEmpty() returns (r: bool)
      requires Valid()
      ensures r <==> Contents() == []
    {
      r := first == null;
    }

    /** `size()`: the number of items held. */
    method Size() returns (r: int)
      requires Valid()
      ensures r == |Contents()|
    {
      r := size;
    }

    /**
     * `addFirst(item)`: a null item throws `NullPointerException` and changes
     * nothing; otherwise a new node becomes the first one.
     */
    method AddFirst(item: Option<T>) returns (s: Status)
      requires Valid()
      modifies Repr
      ensures Valid() && fresh(Repr - old(Repr))
      ensures item.None? ==> s == Failure(NullPointer) && Contents() == old(Contents())
      ensures item.Some? ==> s == Success && Contents() == [item.value] + old(Contents())
    {
      if item.None? {
        return Failure(NullPointer);
      }
      var oldFirst := first;
      first := new Node(item.value);
      first.next := oldFirst;
      if oldFirst == null {
        last := first;
      } else {
        oldFirst.prev := first;
      }
      size := size + 1;
      nodes := [first] + nodes;
      Repr := Repr + {first};
      s := Success;
    }

    /**
     * `addLast(item)`: a null item throws `NullPointerException` and changes
     * nothing; otherwise a new node becomes the last one.
     */
    method AddLast(item: Option<T>) returns (s: Status)
      requires Valid()
      modifies Repr
      ensures Valid() && fresh(Repr - old(Repr))
      ensures item.None? ==> s == Failure(NullPointer) && Contents() == old(Contents())
      ensures item.Some? ==> s == Success && Contents() == old(Contents()) + [item.value]
    {
      if item.None? {
        return Failure(NullPointer);
      }
      var oldLast := last;
      last := new Node(item.value);
      last.prev := oldLast;
      if oldLast == null {
        first := last;
      } else {
        oldLast.next := last;
      }
      size := size + 1;
      nodes := nodes + [last];
      Repr := Repr + {last};
      s := Success;
    }

    /**
     * `removeFirst()`: an empty deque throws `NoSuchElementException`;
     * otherwise the first item is returned and its node unlinked.
     */
    method RemoveFirst() returns (r: Result<T>)
      requires Valid()
      modifies Repr
      ensures Valid() && Repr == old(Repr)
      ensures old(Contents()) == [] ==> r == Err(NoSuchElement) && Contents() == old(Contents())
      ensures old(Contents()) != [] ==> r == Ok(old(Contents())[0]) && Contents() == old(Contents())[1..]
    {
      if first == null {
        return Err(NoSuchElement);
      }
      var oldFirst := first;
      assert |nodes| > 1 ==> first.next == nodes[1] && nodes[1] in Repr;
      first := first.next;
      if first == null {
        last := null;
      } else {
        first.prev := null;
      }
      size := size - 1;
      nodes := nodes[1..];
      r := Ok(oldFirst.item);
    }

    /**
     * `removeLast()`: an empty deque throws `NoSuchElementException`;
     * otherwise the last item is returned and its node unlinked.
     */
    method RemoveLast() returns (r: Result<T>)
      requires Valid()
      modifies Repr
      ensures Valid() && Repr == old(Repr)
      ensures old(Contents()) == [] ==> r == Err(NoSuchElement) && Contents() == old(Contents())
      ensures old(Contents()) != [] ==>
        && r == Ok(old(Contents())[|old(Contents())| - 1])
        && Contents() == old(Contents())[..|old(Contents())| - 1]
    {
      if last == null {
        return Err(NoSuchElement);
      }
      var oldLast := last;
      assert |nodes| > 1 ==> last.prev == nodes[|nodes| - 2] && nodes[|nodes| - 2] in Repr;
      last := last.prev;
      if last == null {
        first := null;
      } else {
        last.next := null;
      }
      size := size - 1;
      nodes := nodes[..|nodes| - 1];
      r := Ok(oldLast.item);
    }

    /**
     * A complete pass of `ListIterator`: starting at `first` and following
     * `next` until null, the items come out from first to last, and the deque
     * is not changed.
     */
    method Elements() returns (s: seq<T>)
      requires Valid()
      ensures s == Contents()
    {
      var current := first;
      s := [];
      ghost var i := 0;
      while current != null
        invariant 0 <= i <= |nodes|
        invariant s == Contents()[..i]
        invariant current == if i < |nodes| then nodes[i] else null
        decreases |nodes| - i
      {
        assert Contents()[..i + 1] == Contents()[..i] + [current.item];
        s := s + [current.item];
        current := current.next;
        i := i + 1;
      }
    }
  }

  /**
   * The demonstration in `Deque.main`: adding 1, 2, 3 at the back and then 0,
   * -1, -2 at the front, iteration gives -2, -1, 0, 1, 2, 3.
   */
  method IterationOrder() returns (s: seq<int>)
    ensures s == [-2, -1, 0, 1, 2, 3]
  {
    var d := new Deque<int>();
    var st := d.AddLast(Some(1));
    st := d.AddLast(Some(2));
    st := d.AddLast(Some(3));
    st := d.AddFirst(Some(0));
    st := d.AddFirst(Some(-1));
    st := d.AddFirst(Some(-2));
    s := d.Elements();
  }
}
