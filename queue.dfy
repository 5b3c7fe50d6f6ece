/** `Fixed_Queue<T, Capacity>` of aids.hpp: a ring buffer over a fixed
    array, holding `size` elements starting at index `begin`. */
module Queues {

  class FixedQueue<T(0)> {
    const capacity: nat
    const elements: array<T>
    var begin: nat
    var size: nat

    /** The queued elements, oldest first. */
    ghost var Contents: seq<T>

    /** Slot `(begin + i) % Capacity` holds the `i`-th oldest element. */
    ghost predicate Valid()
      reads this, elements
    {
      elements.Length == capacity && capacity > 0 &&
      begin < capacity && size <= capacity && |Contents| == size &&
      forall i :: 0 <= i < size ==> Contents[i] == elements[Slot(begin, i, capacity)]
    }

    /** A queue starts with `begin = 0` and `size = 0`. */
    constructor (capacity: nat)
      requires capacity > 0
      ensures Valid() && fresh(elements)
      ensures this.capacity == capacity && begin == 0 && Contents == []
    {
      this.capacity := capacity;
      elements := new T[capacity];
      begin, size := 0, 0;
      Contents := [];
    }

    /** `enqueue(queue, element)`: asserts there is room, writes the element
        after the last one (wrapping at `Capacity`) and grows `size`. */
    method Enqueue(element: T)
      requires Valid()
      requires size < capacity
      modifies this, elements
      ensures Valid()
      ensures Contents == old(Contents) + [element]
      ensures begin == old(begin) && size == old(size) + 1
      ensures elements[Slot(begin, old(size), capacity)] == element
      ensures forall k :: 0 <= k < capacity && k != Slot(begin, old(size), capacity) ==>
        elements[k] == old(elements[k])
    {
      WrapOnce(begin + size, capacity);
      var slot := (begin + size) % capacity;
      elements[slot] := element;
      size := size + 1;
      Contents := Contents + [element];
    }

    /** `dequeue(queue)`: asserts the queue is not empty, returns the element
        at `begin`, and moves `begin` one slot on (wrapping at `Capacity`). */
    method Dequeue() returns (element: T)
      requires Valid()
      requires size > 0
      modifies this
      ensures Valid()
      ensures element == old(Contents)[0] && Contents == old(Contents)[1..]
      ensures begin == (old(begin) + 1) % capacity && size == old(size) - 1
    {
      element := elements[begin];
      assert Contents[0] == elements[Slot(begin, 0, capacity)];
      WrapOnce(begin + 1, capacity);
      begin := (begin + 1) % capacity;
      size := size - 1;
      Contents := Contents[1..];
    }
  }

  /** The index `i` slots after `start`, wrapping once at `capacity`: what
      `(start + i) % capacity` computes when both are below `capacity`. */
  function Slot(start: nat, i: nat, capacity: nat): (k: nat)
    requires start < capacity && i < capacity
    ensures k < capacity && k == (start + i) % capacity
  {
    WrapOnce(start + i, capacity);
    if start + i < capacity then start + i else start + i - capacity
  }

  /** Below twice the modulus, `%` subtracts the modulus at most once. */
  lemma WrapOnce(x: nat, n: nat)
    requires 0 < n && x < 2 * n
    ensures x % n == if x < n then x else x - n
  {
    if x >= n {
      assert x == 1 * n + (x - n);
    }
  }
}
