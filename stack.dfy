/** `Fixed_Stack<T, Capacity>` of aids.hpp: `size` elements in a fixed
    array, the top one at index `size - 1`. */
module Stacks {
  import opened Errors

  class FixedStack<T(0)> {
    const capacity: nat
    const elements: array<T>
    var size: nat

    ghost predicate Valid()
      reads this
    {
      elements.Length == capacity && size <= capacity
    }

    /** The stacked elements, bottom first. */
    ghost function Contents(): seq<T>
      reads this, elements
      requires Valid()
    {
      elements[..size]
    }

    /** A stack starts with `size = 0`. */
    constructor (capacity: nat)
      ensures Valid() && fresh(elements)
      ensures this.capacity == capacity && Contents() == []
    {
      this.capacity := capacity;
      elements := new T[capacity];
      size := 0;
    }

    /** `push(stack, element)`: fails with ENOMEM when the stack is full and
        changes nothing; otherwise stores the element at index `size` and
        grows `size`, leaving every other slot as it was. */
    method Push(element: T) returns (status: Status)
      requires Valid()
      modifies this, elements
      ensures Valid()
      ensures status.Failed? <==> old(size) >= capacity
      ensures status.Failed? ==>
        status.error == ENOMEM && size == old(size) && elements[..] == old(elements[..])
      ensures status.Done? ==>
        size == old(size) + 1 && elements[..] == old(elements[..])[old(size) := element]
      ensures Contents() == if status.Done? then old(Contents()) + [element] else old(Contents())
    {
      if size >= capacity {
        return Failed(ENOMEM);
      }
      elements[size] := element;
      size := size + 1;
      status := Done;
    }
  }
}
