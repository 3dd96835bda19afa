/**
 * The randomized queue of `queues/RandomizedQueue.java`: a resizing array
 * whose first `size` slots hold the items (`last` is the next free slot and
 * always equals `size`), and whose other slots are null. Removal swaps the
 * last item into the chosen slot. The random index the source draws with
 * `StdRandom.uniform(0, last)` is a parameter of the operations that use it.
 */
module RandomizedQueues {
  import opened Wrappers

  class RandomizedQueue<T> {
    /** The backing array; a null slot is `None`. */
    var items: array<Option<T>>
    var size: int
    var last: int

    /**
     * `size` and `last` agree and fit the array, the slots below them hold
     * items and those above are null. The capacity never drops below the
     * initial 2.
     */
    ghost predicate Valid()
      reads this, items
    {
      && 2 <= items.Length
      && size == last
      && Slots(items[..], last)
    }

    /** The items held, in slot order. */
    ghost function Contents(): (s: seq<Option<T>>)
      reads this, items
      requires Valid()
      ensures |s| == size
    {
      items[..last]
    }

    /** `new RandomizedQueue()`: capacity 2, no items. */
    constructor ()
      ensures Valid() && fresh(items)
      ensures items.Length == 2 && Contents() == []
    {
      items := new Option<T>[2](_ => None);
      size := 0;
      last := 0;
    }

    /** `isEmpty()`: `size == 0`. */
    method IsEmpty() returns (r: bool)
      requires Valid()
      ensures r <==> Contents() == []
    {
      r := size == 0;
    }

    /** `size()`: the number of items held. */
    method Size() returns (r: int)
      requires Valid()
      ensures r == |Contents()|
    {
      r := size;
    }

    /**
     * `resize(newSize)`: a fresh array of the new capacity, the first `size`
     * items copied into it, every other slot null.
     */
    method Resize(newSize: int)
      requires Valid() && 2 <= newSize && size <= newSize
      modifies this
      ensures Valid() && fresh(items) && items.Length == newSize
      ensures size == old(size) && last == old(last)
      ensures Contents() == old(Contents())
    {
      var copy := new Option<T>[newSize](_ => None);
      var i := 0;
      while i < size
        invariant 0 <= i <= size
        invariant copy[..i] == items[..i]
        invariant forall k :: i <= k < newSize ==> copy[k].None?
        modifies copy
      {
        copy[i] := items[i];
        i := i + 1;
      }
      assert copy[..size] == items[..size];
      items := copy;
    }

    /**
     * `enqueue(item)`: a null item throws `NullPointerException` and changes
     * nothing. Otherwise a full array is first doubled, and the item is stored
     * in slot `last`.
     */
    method Enqueue(item: Option<T>) returns (s: Status)
      requires Valid()
      modifies this, items
      ensures Valid()
      ensures item.None? ==> s == Failure(NullPointer) && Contents() == old(Contents()) && items == old(items)
      ensures item.Some? ==> s == Success && Contents() == old(Contents()) + [item]
      ensures item.Some? ==>
        items.Length == if old(size) == old(items.Length) then 2 * old(items.Length) else old(items.Length)
    {
      if item.None? {
        return Failure(NullPointer);
      }
      if size == items.Length {
        Resize(items.Length * 2);
      }
      items[last] := item;
      last := last + 1;
      size := size + 1;
      s := Success;
    }

    /**
     * `dequeue()` with `choice` for the random slot: an empty queue throws
     * `NoSuchElementException`. Otherwise the chosen item is returned, the
     * last item moves into its slot, and the array halves when it is left a
     * quarter full.
     */
    method Dequeue(choice: int) returns (r: Result<T>)
      requires Valid()
      requires last > 0 ==> 0 <= choice < last
      modifies this, items
      ensures Valid()
      ensures old(size) == 0 ==> r == Err(NoSuchElement) && Contents() == old(Contents()) && items == old(items)
      ensures old(size) > 0 ==>
        && r == Ok(old(items[choice]).value)
        && Contents() == SwapOut(old(Contents()), choice)
        && multiset(Contents()) + multiset{old(items[choice])} == multiset(old(Contents()))
        && items.Length == if size > 0 && size == old(items.Length) / 4 then old(items.Length) / 2 else old(items.Length)
    {
      if size == 0 {
        r := Err(NoSuchElement);
      } else {
        var item := items[choice];
        TakeSlot(choice);
        // Down to a quarter full: halve the capacity.
        if size > 0 && size == items.Length / 4 {
          Resize(items.Length / 2);
        }
        r := Ok(item.value);
      }
    }

    /**
     * The removal step of `dequeue()`: `last` and `size` drop by one, the last
     * item moves into slot `choice`, and the slot it leaves is nulled.
     */
    method TakeSlot(choice: int)
      requires Valid() && 0 <= choice < last
      modifies this, items
      ensures Valid() && items == old(items)
      ensures Contents() == SwapOut(old(Contents()), choice)
    {
      ghost var full := items[..];
      last := last - 1;
      size := size - 1;
      if choice != last {
        items[choice] := items[last];
        items[last] := None;
      } else {
        items[choice] := None;
      }
      assert items[..] == full[choice := full[last]][last := None];
      TakeSlots(full, last + 1, choice);
    }

    /**
     * `sample()` with `choice` for the random slot: an empty queue throws
     * `NoSuchElementException`; otherwise the item in the chosen slot is
     * returned, one of those held. Nothing changes.
     */
    method Sample(choice: int) returns (r: Result<T>)
      requires Valid()
      requires last > 0 ==> 0 <= choice < last
      ensures size == 0 ==> r == Err(NoSuchElement)
      ensures size > 0 ==> r == Ok(items[choice].value) && Some(r.value) in Contents()
    {
      if size == 0 {
        r := Err(NoSuchElement);
      } else {
        r := Ok(items[choice].value);
        assert Contents()[choice] == items[choice];
      }
    }

    /**
     * The copy `iterator()` hands to the iterator: a fresh array holding the
     * first `size` items. The queue is not changed.
     */
    method IteratorCopy() returns (copy: array<Option<T>>)
      requires Valid()
      ensures fresh(copy) && copy[..] == Contents()
    {
      copy := new Option<T>[size](_ => None);
      var i := 0;
      while i < size
        invariant 0 <= i <= size
        invariant copy[..i] == items[..i]
      {
        copy[i] := items[i];
        i := i + 1;
      }
      assert copy[..] == copy[..size];
    }
  }

  /** The first `n` slots of `s` hold items and the others are null. */
  predicate Slots<T>(s: seq<Option<T>>, n: int)
  {
    && 0 <= n <= |s|
    && (forall k :: 0 <= k < n ==> s[k].Some?)
    && (forall k :: n <= k < |s| ==> s[k].None?)
  }

  /**
   * The slots after `dequeue()` empties slot `i` of the `n` in use: they keep
   * their shape with one item fewer, and the items are the old ones with the
   * last moved into slot `i`.
   */
  lemma TakeSlots<T>(s: seq<Option<T>>, n: int, i: int)
    requires Slots(s, n) && 0 <= i < n
    ensures Slots(s[i := s[n - 1]][n - 1 := None], n - 1)
    ensures s[i := s[n - 1]][n - 1 := None][..n - 1] == SwapOut(s[..n], i)
  {
    assert s[i := s[n - 1]][n - 1 := None][..n - 1] == s[..n][i := s[n - 1]][..n - 1];
  }

  /**
   * The contents after removing slot `i` the way `dequeue()` does: the last
   * item overwrites slot `i` and the last slot is dropped. Exactly one
   * occurrence of the removed item goes.
   */
  function SwapOut<T>(s: seq<T>, i: int): (r: seq<T>)
    requires 0 <= i < |s|
    ensures |r| == |s| - 1
    ensures multiset(r) + multiset{s[i]} == multiset(s)
  {
    SwapRemove(s, i);
    s[i := s[|s| - 1]][..|s| - 1]
  }

  /**
   * Overwriting slot `i` with the last item and dropping the last slot
   * removes exactly one occurrence of the item that was in slot `i`.
   */
  lemma {:induction false} SwapRemove<T>(s: seq<T>, i: int)
    requires 0 <= i < |s|
    ensures multiset(s[i := s[|s| - 1]][..|s| - 1]) + multiset{s[i]} == multiset(s)
  {
    var n := |s| - 1;
    if i == n {
      assert s == s[..n] + [s[n]];
      assert s[i := s[n]][..n] == s[..n];
    } else {
      var front, mid := s[..i], s[i + 1..n];
      assert s == front + [s[i]] + mid + [s[n]];
      assert s[i := s[n]][..n] == front + [s[n]] + mid;
    }
  }
}
