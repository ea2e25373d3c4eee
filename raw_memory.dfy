/** The storage layer: a fixed-capacity block of cells that knows nothing about
    which of its cells hold live objects (RawMemory<T> in advanced-vector/vector.h). */
module RawMemoryModel {

  /** One cell of raw storage: either uninitialised bytes, or a constructed object. */
  datatype Slot<T> = Uninit | Init(value: T)

  /** Every cell of `s` holds a constructed object. */
  ghost predicate AllInit<T>(s: seq<Slot<T>>) {
    forall i :: 0 <= i < |s| ==> s[i].Init?
  }

  /** The objects held by a run of constructed cells, in order. */
  function Values<T>(s: seq<Slot<T>>): (r: seq<T>)
    requires AllInit(s)
    ensures |r| == |s|
    ensures forall i :: 0 <= i < |s| ==> s[i] == Init(r[i])
  {
    seq(|s|, i requires 0 <= i < |s| && AllInit(s) => s[i].value)
  }

  /** A run of cells holding exactly the objects `v`, cell by cell, has values `v`. */
  lemma ValuesFrom<T>(s: seq<Slot<T>>, v: seq<T>)
    requires |s| == |v|
    requires forall k :: 0 <= k < |s| ==> s[k] == Init(v[k])
    ensures AllInit(s) && Values(s) == v
  {
  }

  /** A block of `capacity` cells. The null block of the source is a block of length 0. */
  class RawMemory<T> {
    var buffer: array<Slot<T>>
    var capacity: nat

    ghost predicate Valid()
      reads this
    {
      buffer.Length == capacity
    }

    /** Default construction: the null block, capacity 0. */
    constructor Empty()
      ensures Valid() && capacity == 0 && fresh(buffer)
    {
      buffer := new Slot<T>[0];
      capacity := 0;
    }

    /** Allocates room for `n` objects and constructs none of them. */
    constructor (n: nat)
      ensures Valid() && capacity == n && fresh(buffer)
      ensures forall k :: 0 <= k < n ==> buffer[k] == Uninit
    {
      buffer := new Slot<T>[n](_ => Uninit);
      capacity := n;
    }

    /** Move construction: takes over `other`'s block and leaves `other` null. */
    constructor Move(other: RawMemory<T>)
      requires other.Valid()
      modifies other
      ensures Valid() && buffer == old(other.buffer) && capacity == old(other.capacity)
      ensures other.Valid() && other.capacity == 0 && fresh(other.buffer)
    {
      buffer := other.buffer;
      capacity := other.capacity;
      new;
      other.buffer := new Slot<T>[0];
      other.capacity := 0;
    }

    /** Move assignment (the source's Init): drops this block, then takes `other`'s
        block and capacity, exchanging null and 0 into `other` first. When `other` is
        this block itself, the exchange hands back the block just dropped, so the block
        keeps its old pointer and capacity. */
    method AssignMove(other: RawMemory<T>)
      requires Valid() && other.Valid()
      modifies this, other
      ensures Valid() && other.Valid()
      ensures buffer == old(other.buffer) && capacity == old(other.capacity)
      ensures other != this ==> other.capacity == 0 && fresh(other.buffer)
    {
      var stolen := other.buffer;
      other.buffer := new Slot<T>[0];
      buffer := stolen;
      var stolenCapacity := other.capacity;
      other.capacity := 0;
      capacity := stolenCapacity;
    }

    /** Exchanges blocks and capacities with `other` in O(1). */
    method Swap(other: RawMemory<T>)
      requires Valid() && other.Valid()
      modifies this, other
      ensures Valid() && other.Valid()
      ensures buffer == old(other.buffer) && capacity == old(other.capacity)
      ensures other.buffer == old(buffer) && other.capacity == old(capacity)
    {
      var b := buffer;
      buffer := other.buffer;
      other.buffer := b;
      var c := capacity;
      capacity := other.capacity;
      other.capacity := c;
    }
  }
}
