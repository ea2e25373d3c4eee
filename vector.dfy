/** The growable sequence (Vector<T> in advanced-vector/vector.h): a RawMemory block
    plus a count `size` of live elements, which occupy cells [0, size) of the block. */
module VectorModel {
  import opened RawMemoryModel
  import opened SeqSpec
  import opened GrowthPolicy

  /** Destroys the `n` objects in cells [from, from + n) of `mem` (DestroyN, std::destroy_n). */
  method DestroyN<T>(mem: RawMemory<T>, from: nat, n: nat)
    requires mem.Valid() && from + n <= mem.capacity
    modifies mem.buffer
    ensures forall k :: 0 <= k < mem.capacity ==>
      mem.buffer[k] == if from <= k < from + n then Uninit else old(mem.buffer[k])
  {
    var i := 0;
    while i != n
      invariant 0 <= i <= n
      invariant forall k :: 0 <= k < mem.capacity ==>
        mem.buffer[k] == if from <= k < from + i then Uninit else old(mem.buffer[k])
    {
      mem.buffer[from + i] := Uninit;
      i := i + 1;
    }
  }

  /** Constructs a copy of `v` in each cell of [from, from + n) of `mem`
      (std::uninitialized_value_construct_n, with `v` the value-initialised T). */
  method UninitializedFillN<T>(mem: RawMemory<T>, from: nat, n: nat, v: T)
    requires mem.Valid() && from + n <= mem.capacity
    modifies mem.buffer
    ensures forall k :: 0 <= k < mem.capacity ==>
      mem.buffer[k] == if from <= k < from + n then Init(v) else old(mem.buffer[k])
  {
    var i := 0;
    while i != n
      invariant 0 <= i <= n
      invariant forall k :: 0 <= k < mem.capacity ==>
        mem.buffer[k] == if from <= k < from + i then Init(v) else old(mem.buffer[k])
    {
      mem.buffer[from + i] := Init(v);
      i := i + 1;
    }
  }

  /** Constructs in cells [to, to + n) of `dst` the objects of cells [from, from + n)
      of `src` (std::uninitialized_copy_n and std::uninitialized_move_n: the model does
      not distinguish a copy from a move). */
  method UninitializedCopyN<T>(src: RawMemory<T>, from: nat, n: nat, dst: RawMemory<T>, to: nat)
    requires src.Valid() && dst.Valid() && src.buffer != dst.buffer
    requires from + n <= src.capacity && to + n <= dst.capacity
    requires forall k :: from <= k < from + n ==> src.buffer[k].Init?
    modifies dst.buffer
    ensures forall k :: 0 <= k < dst.capacity ==>
      dst.buffer[k] == if to <= k < to + n then src.buffer[from + k - to] else old(dst.buffer[k])
  {
    var i := 0;
    while i != n
      invariant 0 <= i <= n
      invariant forall k :: 0 <= k < dst.capacity ==>
        dst.buffer[k] == if to <= k < to + i then src.buffer[from + k - to] else old(dst.buffer[k])
    {
      dst.buffer[to + i] := src.buffer[from + i];
      i := i + 1;
    }
  }

  /** std::move_backward by one place within a block: the objects of cells
      [first, last) are moved into [first + 1, last + 1), from back to front. */
  method MoveBackwardByOne<T>(mem: RawMemory<T>, first: nat, last: nat)
    requires mem.Valid() && first <= last < mem.capacity
    modifies mem.buffer
    ensures forall k :: 0 <= k < mem.capacity ==>
      mem.buffer[k] == if first < k <= last then old(mem.buffer[k - 1]) else old(mem.buffer[k])
  {
    var j := last;
    while j > first
      invariant first <= j <= last
      invariant forall k :: 0 <= k < mem.capacity ==>
        mem.buffer[k] == if j < k <= last then old(mem.buffer[k - 1]) else old(mem.buffer[k])
    {
      mem.buffer[j] := mem.buffer[j - 1];
      j := j - 1;
    }
  }

  /** std::move by one place within a block: the objects of cells [first + 1, last + 1)
      are moved into [first, last), from front to back. */
  method MoveForwardByOne<T>(mem: RawMemory<T>, first: nat, last: nat)
    requires mem.Valid() && first <= last < mem.capacity
    modifies mem.buffer
    ensures forall k :: 0 <= k < mem.capacity ==>
      mem.buffer[k] == if first <= k < last then old(mem.buffer[k + 1]) else old(mem.buffer[k])
  {
    var i := first;
    while i < last
      invariant first <= i <= last
      invariant forall k :: 0 <= k < mem.capacity ==>
        mem.buffer[k] == if first <= k < i then old(mem.buffer[k + 1]) else old(mem.buffer[k])
    {
      mem.buffer[i] := mem.buffer[i + 1];
      i := i + 1;
    }
  }

  /** Relocates the `n` objects of cells [from, from + n) of `src` into cells
      [to, to + n) of `dst`, keeping their order, and destroys the originals. */
  method SafeMove<T>(src: RawMemory<T>, from: nat, n: nat, dst: RawMemory<T>, to: nat)
    requires src.Valid() && dst.Valid() && src.buffer != dst.buffer
    requires from + n <= src.capacity && to + n <= dst.capacity
    requires forall k :: from <= k < from + n ==> src.buffer[k].Init?
    modifies src.buffer, dst.buffer
    ensures forall k :: 0 <= k < dst.capacity ==>
      dst.buffer[k] == if to <= k < to + n then old(src.buffer[from + k - to]) else old(dst.buffer[k])
    ensures forall k :: 0 <= k < src.capacity ==>
      src.buffer[k] == if from <= k < from + n then Uninit else old(src.buffer[k])
  {
    UninitializedCopyN(src, from, n, dst, to);
    DestroyN(src, from, n);
  }

  class Vector<T> {
    var data: RawMemory<T>
    var size: nat
    ghost var Repr: set<object>
    /** Elements relocated into a new block by the appends and insertions made so far. */
    ghost var relocations: nat

    /** The object invariant: the cells [0, size) hold live objects and the cells
        [size, capacity) are uninitialised. */
    ghost predicate Valid()
      reads this, Repr
    {
      data in Repr &&
      Repr == {this, data, data.buffer} &&
      data.Valid() &&
      size <= data.capacity &&
      (forall k :: 0 <= k < size ==> data.buffer[k].Init?) &&
      (forall k :: size <= k < data.capacity ==> data.buffer[k] == Uninit)
    }

    /** The live elements, in order. */
    ghost function Elements(): seq<T>
      reads this, Repr
      requires Valid()
    {
      Values(data.buffer[..size])
    }

    /** Cell by cell, the live cells hold the elements. */
    ghost predicate Holds(e: seq<T>)
      reads this, data, data.buffer
    {
      |e| == size <= data.buffer.Length &&
      forall k :: 0 <= k < size ==> data.buffer[k] == Init(e[k])
    }

    lemma HoldsElements()
      requires Valid()
      ensures Holds(Elements())
    {
    }

    lemma ElementsFrom(e: seq<T>)
      requires data in Repr && Repr == {this, data, data.buffer} && data.Valid()
      requires size <= data.capacity && Holds(e)
      requires forall k :: size <= k < data.capacity ==> data.buffer[k] == Uninit
      ensures Valid() && Elements() == e
    {
      ValuesFrom(data.buffer[..size], e);
    }

    /** The number of live elements. */
    function Size(): (n: nat)
      reads this, Repr
      requires Valid()
      ensures n == |Elements()|
    {
      size
    }

    /** The number of cells of the block: live elements and room for more. */
    function Capacity(): (c: nat)
      reads this, Repr
      requires Valid()
      ensures |Elements()| <= c && c == data.buffer.Length
    {
      data.capacity
    }

    /** Default construction: empty, capacity 0, nothing allocated. */
    constructor ()
      ensures Valid() && fresh(Repr)
      ensures Elements() == [] && Capacity() == 0 && relocations == 0
    {
      data := new RawMemory<T>.Empty();
      size := 0;
      relocations := 0;
      new;
      Repr := {this, data, data.buffer};
    }

    /** Sized construction: `n` value-initialised elements (`init` stands for T()),
        with capacity exactly `n`. */
    constructor Sized(n: nat, init: T)
      ensures Valid() && fresh(Repr)
      ensures Elements() == Repeat(init, n) && Capacity() == n && relocations == 0
    {
      data := new RawMemory<T>(n);
      size := n;
      relocations := 0;
      new;
      UninitializedFillN(data, 0, n, init);
      Repr := {this, data, data.buffer};
      ElementsFrom(Repeat(init, n));
    }

    /** Copy construction: the elements of `other`, with capacity exactly its size. */
    constructor Copy(other: Vector<T>)
      requires other.Valid()
      ensures Valid() && fresh(Repr)
      ensures Elements() == other.Elements() && Capacity() == other.Size() && relocations == 0
    {
      data := new RawMemory<T>(other.size);
      size := other.size;
      relocations := 0;
      new;
      other.HoldsElements();
      UninitializedCopyN(other.data, 0, other.size, data, 0);
      Repr := {this, data, data.buffer};
      ElementsFrom(other.Elements());
    }

    /** Move construction: takes over `other`'s block and size; `other` is left empty. */
    constructor Move(other: Vector<T>)
      requires other.Valid()
      modifies other, other.data
      ensures Valid() && other.Valid() && Repr !! other.Repr
      ensures Elements() == old(other.Elements()) && Capacity() == old(other.Capacity())
      ensures other.Elements() == [] && other.Capacity() == 0
      ensures relocations == 0 && other.relocations == old(other.relocations)
      ensures data.buffer == old(other.data.buffer)
    {
      data := new RawMemory<T>.Empty();
      size := 0;
      relocations := 0;
      new;
      data.AssignMove(other.data);
      size := other.size;
      other.size := 0;
      Repr := {this, data, data.buffer};
      other.Repr := {other, other.data, other.data.buffer};
    }

    /** operator[] for reading: the element at `index`. */
    function Get(index: nat): (x: T)
      reads this, Repr
      requires Valid() && index < Size()
      ensures x == Elements()[index]
    {
      HoldsElements();
      data.buffer[index].value
    }

    /** operator[] for writing through the returned reference. */
    method Set(index: nat, x: T)
      requires Valid() && index < Size()
      modifies data.buffer
      ensures Valid() && data == old(data) && data.buffer == old(data.buffer)
      ensures Elements() == old(Elements())[index := x] && relocations == old(relocations)
    {
      HoldsElements();
      ghost var e := Elements();
      data.buffer[index] := Init(x);
      ElementsFrom(e[index := x]);
    }

    /** Destruction: destroys every live element; releasing the block is not modelled. */
    method Dispose()
      requires Valid()
      modifies data.buffer
      ensures forall k :: 0 <= k < old(Capacity()) ==> data.buffer[k] == Uninit
    {
      DestroyN(data, 0, size);
    }

    /** Makes room for `newCapacity` elements: nothing happens when there is room
        already, otherwise the elements move in order to a block of exactly that size. */
    method Reserve(newCapacity: nat)
      requires Valid()
      modifies Repr
      ensures Valid() && fresh(Repr - old(Repr)) && data == old(data)
      ensures Elements() == old(Elements())
      ensures newCapacity <= old(Capacity()) ==> Capacity() == old(Capacity()) && data.buffer == old(data.buffer)
      ensures newCapacity > old(Capacity()) ==> Capacity() == newCapacity
      ensures relocations == old(relocations) + if newCapacity > old(Capacity()) then old(Size()) else 0
    {
      if newCapacity <= data.capacity {
        return;
      }
      HoldsElements();
      ghost var e := Elements();
      var newData := new RawMemory<T>(newCapacity);
      SafeMove(data, 0, size, newData, 0);
      relocations := relocations + size;
      data.Swap(newData);
      Repr := {this, data, data.buffer};
      ElementsFrom(e);
    }

    /** Exchanges contents, sizes and capacities with `other` in O(1). */
    method Swap(other: Vector<T>)
      requires Valid() && other.Valid() && (other == this || Repr !! other.Repr)
      modifies Repr, other.Repr
      ensures Valid() && other.Valid() && (other == this || Repr !! other.Repr)
      ensures data == old(data) && data.buffer == old(other.data.buffer)
      ensures other.data == old(other.data) && other.data.buffer == old(data.buffer)
      ensures Elements() == old(other.Elements()) && other.Elements() == old(Elements())
      ensures Capacity() == old(other.Capacity()) && other.Capacity() == old(Capacity())
      ensures relocations == old(relocations) && other.relocations == old(other.relocations)
    {
      data.Swap(other.data);
      var s := size;
      size := other.size;
      other.size := s;
      Repr := {this, data, data.buffer};
      other.Repr := {other, other.data, other.data.buffer};
    }

    /** Copy assignment. Self-assignment does nothing. Otherwise: when `rhs` does not
        fit, a copy of `rhs` is swapped in; when it fits, the common prefix is assigned
        over, then the rest of `rhs` is constructed behind it or the surplus elements
        are destroyed. The tail is taken from `rhs` from index `size` on, not from
        `rhs.size - size` as the source does (see Findings in README). */
    method CopyAssign(rhs: Vector<T>)
      requires Valid() && rhs.Valid() && (rhs == this || Repr !! rhs.Repr)
      modifies Repr
      ensures Valid() && fresh(Repr - old(Repr))
      ensures rhs.Valid() && rhs.Elements() == old(rhs.Elements())
      ensures Elements() == old(rhs.Elements())
      ensures Capacity() == if old(rhs.Size()) > old(Capacity()) then old(rhs.Size()) else old(Capacity())
      ensures old(rhs.Size()) <= old(Capacity()) ==> data.buffer == old(data.buffer)
      ensures relocations == old(relocations)
    {
      if rhs != this {
        rhs.HoldsElements();
        if rhs.size > data.capacity {
          var large := new Vector<T>.Copy(rhs);
          Swap(large);
        } else if rhs.size > size {
          AssignPrefix(rhs, size);
          UninitializedCopyN(rhs.data, size, rhs.size - size, data, size);
          size := rhs.size;
          ElementsFrom(rhs.Elements());
        } else {
          AssignPrefix(rhs, rhs.size);
          DestroyN(data, rhs.size, size - rhs.size);
          size := rhs.size;
          ElementsFrom(rhs.Elements());
        }
      }
    }

    /** The element-by-element assignment loop of copy assignment: cells [0, n) take
        the elements of `rhs` at the same indices. */
    method AssignPrefix(rhs: Vector<T>, n: nat)
      requires Valid() && rhs.Valid() && Repr !! rhs.Repr
      requires n <= Size() && n <= rhs.Size()
      modifies data.buffer
      ensures Valid() && data == old(data) && data.buffer == old(data.buffer)
      ensures forall k :: 0 <= k < Capacity() ==>
        data.buffer[k] == if k < n then rhs.data.buffer[k] else old(data.buffer[k])
    {
      var i := 0;
      while i < n
        invariant 0 <= i <= n
        invariant forall k :: 0 <= k < data.capacity ==>
          data.buffer[k] == if k < i then rhs.data.buffer[k] else old(data.buffer[k])
      {
        data.buffer[i] := rhs.data.buffer[i];
        i := i + 1;
      }
    }

    /** Move assignment. Self-assignment does nothing; otherwise this vector takes over
        `rhs`'s block and size and `rhs` is left empty. */
    method MoveAssign(rhs: Vector<T>)
      requires Valid() && rhs.Valid() && (rhs == this || Repr !! rhs.Repr)
      modifies Repr, rhs.Repr
      ensures Valid() && rhs.Valid()
      ensures rhs == this ==> Elements() == old(Elements()) && Capacity() == old(Capacity())
      ensures rhs != this ==> Repr !! rhs.Repr
      ensures rhs != this ==> Elements() == old(rhs.Elements()) && Capacity() == old(rhs.Capacity())
      ensures rhs != this ==> rhs.Elements() == [] && rhs.Capacity() == 0
      ensures data.buffer == if rhs == this then old(data.buffer) else old(rhs.data.buffer)
      ensures relocations == old(relocations)
    {
      if rhs == this {
        return;
      }
      data.AssignMove(rhs.data);
      size := rhs.size;
      rhs.size := 0;
      Repr := {this, data, data.buffer};
      rhs.Repr := {rhs, rhs.data, rhs.data.buffer};
    }

    /** Sets the size to `newSize`: surplus elements are destroyed, missing ones are
        value-initialised (`init` stands for T()) after reserving room for them. */
    method Resize(newSize: nat, init: T)
      requires Valid()
      modifies Repr
      ensures Valid() && fresh(Repr - old(Repr))
      ensures Elements() == Resized(old(Elements()), newSize, init)
      ensures Capacity() == if newSize <= old(Capacity()) then old(Capacity()) else newSize
      ensures newSize <= old(Capacity()) ==> data.buffer == old(data.buffer)
      ensures relocations == old(relocations) + if newSize > old(Capacity()) then old(Size()) else 0
    {
      HoldsElements();
      ghost var e := Elements();
      if newSize < size {
        DestroyN(data, newSize, size - newSize);
      } else if newSize > size {
        Reserve(newSize);
        HoldsElements();
        UninitializedFillN(data, size, newSize - size, init);
      }
      size := newSize;
      ElementsFrom(Resized(e, newSize, init));
    }

    /** Appends a copy of `x`. A full vector first moves to a block of GrowthCapacity(size);
        otherwise the block, and so every earlier element, stays in place. */
    method PushBack(x: T)
      requires Valid()
      modifies Repr
      ensures Valid() && fresh(Repr - old(Repr))
      ensures Elements() == old(Elements()) + [x]
      ensures Capacity() == NextCapacity(old(Size()), old(Capacity()))
      ensures old(Size()) < old(Capacity()) ==> data.buffer == old(data.buffer)
      ensures relocations == old(relocations) + RelocationsOnAppend(old(Size()), old(Capacity()))
    {
      HoldsElements();
      ghost var e := Elements();
      if size == data.capacity {
        var newData := new RawMemory<T>(GrowthCapacity(size));
        newData.buffer[size] := Init(x);
        SafeMove(data, 0, size, newData, 0);
        relocations := relocations + size;
        data.Swap(newData);
        Repr := {this, data, data.buffer};
      } else {
        data.buffer[size] := Init(x);
      }
      size := size + 1;
      ElementsFrom(e + [x]);
    }

    /** Constructs `x` (the object built from the forwarded arguments) as the new last
        element and returns its index (the source returns a reference to it). */
    method EmplaceBack(x: T) returns (r: nat)
      requires Valid()
      modifies Repr
      ensures Valid() && fresh(Repr - old(Repr))
      ensures Elements() == old(Elements()) + [x]
      ensures Capacity() == NextCapacity(old(Size()), old(Capacity()))
      ensures old(Size()) < old(Capacity()) ==> data.buffer == old(data.buffer)
      ensures relocations == old(relocations) + RelocationsOnAppend(old(Size()), old(Capacity()))
      ensures r == old(Size()) && r < Size() && Elements()[r] == x
    {
      HoldsElements();
      ghost var e := Elements();
      if size == data.capacity {
        var newData := new RawMemory<T>(GrowthCapacity(size));
        newData.buffer[size] := Init(x);
        SafeMove(data, 0, size, newData, 0);
        relocations := relocations + size;
        data.Swap(newData);
        Repr := {this, data, data.buffer};
      } else {
        data.buffer[size] := Init(x);
      }
      size := size + 1;
      ElementsFrom(e + [x]);
      r := size - 1;
    }

    /** Constructs `x` at index `pos`, shifting the elements from `pos` on one place
        right, and returns `pos`. */
    method Emplace(pos: nat, x: T) returns (r: nat)
      requires Valid() && pos <= Size()
      modifies Repr
      ensures Valid() && fresh(Repr - old(Repr))
      ensures Elements() == Inserted(old(Elements()), pos, x)
      ensures Capacity() == NextCapacity(old(Size()), old(Capacity()))
      ensures relocations == old(relocations) + RelocationsOnAppend(old(Size()), old(Capacity()))
      ensures old(Size()) < old(Capacity()) ==> data.buffer == old(data.buffer)
      ensures r == pos
    {
      if pos == size {
        InsertedAtEnd(Elements(), x);
        r := EmplaceBack(x);
      } else if size == data.capacity {
        r := EmplaceWithReallocate(pos, x);
      } else {
        r := EmplaceWithoutReallocate(pos, x);
      }
    }

    /** Insert(pos, value), for both the copying and the moving overload. */
    method Insert(pos: nat, x: T) returns (r: nat)
      requires Valid() && pos <= Size()
      modifies Repr
      ensures Valid() && fresh(Repr - old(Repr))
      ensures Elements() == Inserted(old(Elements()), pos, x)
      ensures Capacity() == NextCapacity(old(Size()), old(Capacity()))
      ensures relocations == old(relocations) + RelocationsOnAppend(old(Size()), old(Capacity()))
      ensures old(Size()) < old(Capacity()) ==> data.buffer == old(data.buffer)
      ensures r == pos
    {
      r := Emplace(pos, x);
    }

    /** Mid-sequence insertion into a full vector: `x` is placed at `pos` in a block of
        GrowthCapacity(size), then the prefix is relocated before it and the suffix
        after it. */
    method EmplaceWithReallocate(pos: nat, x: T) returns (r: nat)
      requires Valid() && pos < Size() && Size() == Capacity()
      modifies Repr
      ensures Valid() && fresh(Repr - old(Repr))
      ensures Elements() == Inserted(old(Elements()), pos, x)
      ensures Capacity() == GrowthCapacity(old(Size()))
      ensures relocations == old(relocations) + old(Size())
      ensures r == pos
    {
      HoldsElements();
      ghost var e := Elements();
      var newData := new RawMemory<T>(GrowthCapacity(size));
      newData.buffer[pos] := Init(x);
      SafeMove(data, 0, pos, newData, 0);
      SafeMove(data, pos, size - pos, newData, pos + 1);
      relocations := relocations + size;
      data.Swap(newData);
      Repr := {this, data, data.buffer};
      size := size + 1;
      r := pos;
      ghost var f := Inserted(e, pos, x);
      forall k | 0 <= k < size
        ensures data.buffer[k] == Init(f[k])
      {
        if k < pos {
        } else if k == pos {
        } else {
          assert data.buffer[k] == old(data.buffer[k - 1]);
        }
      }
      ElementsFrom(f);
    }

    /** Mid-sequence insertion with room to spare: the last element is moved into the
        first free cell, the elements [pos, size - 1) are moved one place right from
        back to front (std::move_backward), and `x` is assigned at `pos`. */
    method EmplaceWithoutReallocate(pos: nat, x: T) returns (r: nat)
      requires Valid() && pos < Size() < Capacity()
      modifies data.buffer, this`size
      ensures Valid() && data == old(data) && data.buffer == old(data.buffer)
      ensures Elements() == Inserted(old(Elements()), pos, x)
      ensures Capacity() == old(Capacity()) && relocations == old(relocations)
      ensures r == pos
    {
      HoldsElements();
      ghost var e := Elements();
      var n := size;
      var temp := x;
      data.buffer[n] := data.buffer[n - 1];
      MoveBackwardByOne(data, pos, n - 1);
      data.buffer[pos] := Init(temp);
      size := n + 1;
      r := pos;
      ghost var f := Inserted(e, pos, x);
      forall k | 0 <= k < size
        ensures data.buffer[k] == Init(f[k])
      {
        if k < pos {
        } else if k == pos {
        } else {
          assert data.buffer[k] == old(data.buffer[k - 1]);
        }
      }
      ElementsFrom(f);
    }

    /** Removes the element at `pos`: the elements after it are moved one place left
        (std::move), the last cell is destroyed, and `pos` is returned. */
    method Erase(pos: nat) returns (r: nat)
      requires Valid() && pos < Size()
      modifies data.buffer, this`size
      ensures Valid() && data == old(data) && data.buffer == old(data.buffer)
      ensures Elements() == Removed(old(Elements()), pos)
      ensures Capacity() == old(Capacity()) && relocations == old(relocations)
      ensures r == pos
    {
      HoldsElements();
      ghost var e := Elements();
      var n := size;
      MoveForwardByOne(data, pos, n - 1);
      data.buffer[n - 1] := Uninit;
      size := n - 1;
      r := pos;
      ElementsFrom(Removed(e, pos));
    }

    /** Removes the last element; the block stays in place. */
    method PopBack()
      requires Valid() && Size() > 0
      modifies data.buffer, this`size
      ensures Valid() && data == old(data) && data.buffer == old(data.buffer)
      ensures Elements() == old(Elements())[..old(Size()) - 1]
      ensures Capacity() == old(Capacity()) && relocations == old(relocations)
    {
      HoldsElements();
      ghost var e := Elements();
      data.buffer[size - 1] := Uninit;
      size := size - 1;
      ElementsFrom(e[..size]);
    }
  }
}
