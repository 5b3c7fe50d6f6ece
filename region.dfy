/** The region (bump) allocator of aids.hpp: a fixed buffer of `Capacity`
    bytes and an offset `size` that only grows. An allocation is described by
    the offset it hands out; the C pointer is `data + offset`. */
module Regions {
  import opened Errors
  import Units

  /** The default capacity of a region, `640_KiB`. */
  const DEFAULT_CAPACITY: nat := Units.KiB(640)

  /** What one call to `alloc` yields: its result and the new `size`. */
  datatype AllocStep = AllocStep(result: Result<nat>, used: nat)

  /** `alloc(region, n)` on a region of `capacity` bytes of which `used` are
      handed out, with the capacity test evaluated without overflow. */
  function Allocate(capacity: nat, used: nat, n: nat): (step: AllocStep)
    ensures step.result.Ok? <==> used + n <= capacity
    ensures step.result.Ok? ==> step.result.value == used && step.used == used + n
    ensures step.result.Err? ==> step.result.error == ENOMEM && step.used == used
  {
    if n + used > capacity then AllocStep(Err(ENOMEM), used)
    else AllocStep(Ok(used), used + n)
  }

  /** The results of a series of `alloc` calls on one region. */
  function AllocAll(capacity: nat, used: nat, requests: seq<nat>): (results: seq<Result<nat>>)
    ensures |results| == |requests|
    decreases |requests|
  {
    if requests == [] then []
    else
      var step := Allocate(capacity, used, requests[0]);
      [step.result] + AllocAll(capacity, step.used, requests[1..])
  }

  /** The `size` of the region after a series of `alloc` calls. */
  function UsedAfter(capacity: nat, used: nat, requests: seq<nat>): nat
    decreases |requests|
  {
    if requests == [] then used
    else UsedAfter(capacity, Allocate(capacity, used, requests[0]).used, requests[1..])
  }

  /** The `size` of the region never exceeds its capacity. */
  lemma {:induction false} UsedStaysBounded(capacity: nat, used: nat, requests: seq<nat>)
    requires used <= capacity
    ensures used <= UsedAfter(capacity, used, requests) <= capacity
    decreases |requests|
  {
    if requests != [] {
      UsedStaysBounded(capacity, Allocate(capacity, used, requests[0]).used, requests[1..]);
    }
  }

  /** Every block handed out lies inside the buffer, after the bytes already
      in use, and no two blocks handed out overlap. */
  lemma {:induction false} BlocksDisjoint(capacity: nat, used: nat, requests: seq<nat>)
    requires used <= capacity
    ensures var rs := AllocAll(capacity, used, requests);
      forall i :: 0 <= i < |rs| && rs[i].Ok? ==>
        used <= rs[i].value && rs[i].value + requests[i] <= capacity
    ensures var rs := AllocAll(capacity, used, requests);
      forall i, j :: 0 <= i < j < |rs| && rs[i].Ok? && rs[j].Ok? ==>
        rs[i].value + requests[i] <= rs[j].value
    decreases |requests|
  {
    if requests != [] {
      var step := Allocate(capacity, used, requests[0]);
      var rs := AllocAll(capacity, used, requests);
      var tail := AllocAll(capacity, step.used, requests[1..]);
      BlocksDisjoint(capacity, step.used, requests[1..]);
      assert rs == [step.result] + tail;
      forall i | 0 <= i < |rs| && rs[i].Ok?
        ensures used <= rs[i].value && rs[i].value + requests[i] <= capacity
      {
        if i > 0 {
          assert rs[i] == tail[i - 1];
        }
      }
      forall i, j | 0 <= i < j < |rs| && rs[i].Ok? && rs[j].Ok?
        ensures rs[i].value + requests[i] <= rs[j].value
      {
        assert rs[j] == tail[j - 1];
        if i > 0 {
          assert rs[i] == tail[i - 1];
        }
      }
    }
  }

  /** `alloc` exactly as written: `size + region->size` and
      `region->size += size` are `size_t` sums, which wrap modulo 2^64. */
  function AllocAsWritten(capacity: Units.U64, used: Units.U64, n: Units.U64): (step: AllocStep)
    ensures step.used < Units.U64_MODULUS
    ensures step.result.Ok? <==> (n + used) % Units.U64_MODULUS <= capacity
  {
    if (n + used) % Units.U64_MODULUS > capacity then AllocStep(Err(ENOMEM), used)
    else AllocStep(Ok(used), (used + n) % Units.U64_MODULUS)
  }

  /** With one byte in use, a request for 2^64 - 1 bytes passes the wrapped
      capacity test: it is handed a block that runs far past the buffer, and
      `size` falls back to 0, so the next block overlaps the first. */
  lemma AllocAsWrittenOverflows()
    ensures var step := AllocAsWritten(DEFAULT_CAPACITY, 1, Units.U64_MODULUS - 1);
      step.result == Ok(1) && step.used == 0 &&
      step.result.value + (Units.U64_MODULUS - 1) > DEFAULT_CAPACITY
    ensures Allocate(DEFAULT_CAPACITY, 1, Units.U64_MODULUS - 1).result == Err(ENOMEM)
  {
  }

  /** `Region<Capacity>`: `size` bytes of `data` are handed out. */
  class Region {
    const capacity: nat
    const data: array<bv8>
    var size: nat

    ghost predicate Valid()
      reads this
    {
      data.Length == capacity && size <= capacity
    }

    /** A region starts empty (`size = 0`). */
    constructor (capacity: nat)
      ensures Valid() && fresh(data)
      ensures this.capacity == capacity && size == 0
    {
      this.capacity := capacity;
      data := new bv8[capacity];
      size := 0;
    }

    /** `alloc(region, n)`: on success hands out offset `size` and advances
        `size` by `n`; otherwise fails with ENOMEM and changes nothing. */
    method Alloc(n: nat) returns (r: Result<nat>)
      requires Valid()
      modifies this`size
      ensures Valid()
      ensures AllocStep(r, size) == Allocate(capacity, old(size), n)
      ensures r.Ok? <==> old(size) + n <= capacity
      ensures r.Ok? ==> r.value == old(size) && size == old(size) + n
      ensures r.Err? ==> r.error == ENOMEM && size == old(size)
    {
      if n + size > capacity {
        return Err(ENOMEM);
      }
      r := Ok(size);
      size := size + n;
    }
  }
}
