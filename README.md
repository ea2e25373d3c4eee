# advanced-vector in Dafny

A verified model of `advanced-vector/vector.h`, a from-scratch growable array built in
two layers:

- `RawMemory<T>` (module `RawMemoryModel`, `raw_memory.dfy`): a block of raw storage with
  a fixed capacity, exchanged and moved in O(1) and never copied. Each cell is a `Slot`:
  `Uninit` (raw bytes) or `Init(v)` (a constructed object). A null block is a block of
  length 0.
- `Vector<T>` (module `VectorModel`, `vector.dfy`): a `RawMemory` object plus the live
  count `size`. Its invariant `Valid()` says that cells `[0, size)` hold objects and
  cells `[size, capacity)` are uninitialised. The ghost `Elements()` is the sequence of
  live objects. Each operation's contract states the new `Elements()` and `Capacity()`
  in terms of the old ones, and whether the block stayed in place. Where the block stays
  in place, earlier positions stay valid. The ghost counter `relocations` counts the
  elements moved into a new block by appends, insertions and `Reserve`.
- The free-standing loops of the source, the `std::` algorithms it calls, and `SafeMove`
  are methods over `RawMemory` cells in `VectorModel`. They are `DestroyN`,
  `UninitializedFillN`, `UninitializedCopyN`, `MoveBackwardByOne`, `MoveForwardByOne`
  and `SafeMove`.
- `SeqSpec` (`sequences.dfy`) gives the effect of insertion, erasure and resizing on
  plain sequences, with the lemmas that tie them together.
- `GrowthPolicy` (`growth.dfy`) gives the capacity a full vector grows to and the number
  of elements an append relocates, and proves that appending is amortised constant time:
  `PushBack` and `EmplaceBack` add `RelocationsOnAppend` to `relocations`, and
  `RelocationsAfterAppends` sums it over `n` appends to an empty vector.
- `CopyAssignFinding` (`copy_assign_finding.dfy`) models one branch of copy assignment
  exactly as written (see Findings).

Iterators (raw pointers into the block) are indices. The object built by `T()` or from
the forwarded arguments of `Emplace`/`EmplaceBack` is passed in as a value (`init`, `x`).
Moving an object and copying it are the same in the model.

## Model

| member | source | states |
|---|---|---|
| `RawMemoryModel.RawMemory.Empty` | advanced-vector/vector.h:15 | a default block has capacity 0 and no storage |
| `RawMemoryModel.RawMemory.constructor` | advanced-vector/vector.h:17-20 | allocation gives exactly `n` cells, all uninitialised, in fresh storage |
| `RawMemoryModel.RawMemory.Move` | advanced-vector/vector.h:72-74 | the new block owns the source's storage and capacity; the source is left null with capacity 0 |
| `RawMemoryModel.RawMemory.AssignMove` | advanced-vector/vector.h:92-96 | the target takes the source's storage and capacity; a distinct source is left null with capacity 0 |
| `RawMemoryModel.RawMemory.Swap` | advanced-vector/vector.h:45-48 | storage and capacity are exchanged between the two blocks |
| `VectorModel.DestroyN` | advanced-vector/vector.h:179-183 | exactly the `n` cells from `from` become uninitialised; every other cell is unchanged |
| `VectorModel.UninitializedFillN` | advanced-vector/vector.h:147 | exactly the `n` cells from `from` hold the value-initialised object; every other cell is unchanged |
| `VectorModel.UninitializedCopyN` | advanced-vector/vector.h:158 | cells `[to, to+n)` of the target hold the source's objects in the same order; every other cell is unchanged |
| `VectorModel.MoveForwardByOne` | advanced-vector/vector.h:411 | each cell of `[first, last)` receives its right neighbour's object; every other cell is unchanged |
| `VectorModel.MoveBackwardByOne` | advanced-vector/vector.h:452 | each cell of `(first, last]` receives its left neighbour's object; every other cell is unchanged |
| `VectorModel.SafeMove` | advanced-vector/vector.h:459-466 | the `n` objects are relocated into the target in order; their source cells are destroyed; nothing else changes |
| `VectorModel.Vector.constructor` | advanced-vector/vector.h:137 | the default vector is empty with capacity 0 |
| `VectorModel.Vector.Sized` | advanced-vector/vector.h:143-148 | `Vector(n)` holds `n` value-initialised elements and has capacity exactly `n` |
| `VectorModel.Vector.Copy` | advanced-vector/vector.h:154-159 | the copy holds the source's elements; its capacity equals the source's size; its storage is fresh, so the two vectors share nothing |
| `VectorModel.Vector.Move` | advanced-vector/vector.h:170-173 | the new vector holds the source's former elements and capacity; the source is left empty with capacity 0; the new vector takes over the source's block itself, so no element is copied; the two share nothing |
| `VectorModel.Vector.Size` | advanced-vector/vector.h:161-163 | the size is the number of live elements |
| `VectorModel.Vector.Capacity` | advanced-vector/vector.h:165-167 | the capacity is the number of cells of the block and is never below the number of live elements |
| `VectorModel.Vector.Get` | advanced-vector/vector.h:195-202 | reading at `index < Size()` yields the element at that position; it is a function, usable in other contracts |
| `VectorModel.Vector.Set` | advanced-vector/vector.h:199-202 | writing through the reference at `index < Size()` replaces only that element |
| `VectorModel.Vector.Dispose` | advanced-vector/vector.h:222-224 | after destruction no cell of the block holds an object |
| `VectorModel.Vector.Reserve` | advanced-vector/vector.h:207-218 | the elements are kept in order; a capacity at or below the current one changes nothing; a larger one becomes the exact new capacity and relocates every element |
| `VectorModel.Vector.Swap` | advanced-vector/vector.h:228-231 | the two vectors exchange elements, sizes, capacities and storage |
| `VectorModel.Vector.CopyAssign` | advanced-vector/vector.h:235-263 | afterwards the target's elements equal `rhs`'s, in every branch; capacity grows to `rhs.Size()` only when `rhs` did not fit; `rhs` is unchanged; whenever `rhs` fits (self-assignment included) the storage stays in place |
| `VectorModel.Vector.AssignPrefix` | advanced-vector/vector.h:244-246 | the first `n` cells take `rhs`'s objects at the same indices; the other cells are unchanged |
| `VectorModel.Vector.MoveAssign` | advanced-vector/vector.h:266-274 | self-assignment changes nothing; otherwise the target holds `rhs`'s former elements and capacity, and `rhs` is empty with capacity 0; the target's block is `rhs`'s former block itself, so no element is copied |
| `VectorModel.Vector.Resize` | advanced-vector/vector.h:284-292 | the size becomes `n`; a shrink keeps the first `n` elements; a grow keeps all elements and appends value-initialised ones; capacity becomes `max(capacity, n)`; storage stays in place when `n` fits |
| `VectorModel.Vector.PushBack` | advanced-vector/vector.h:300-332 | the value is appended and earlier elements are unchanged; a full vector grows to 1 if empty, else to twice its size; otherwise capacity and storage are unchanged; `relocations` grows by `RelocationsOnAppend`, i.e. by the size exactly when the block is replaced |
| `VectorModel.Vector.EmplaceBack` | advanced-vector/vector.h:352-363 | as PushBack, and the returned position is that of the new last element, which holds the value |
| `VectorModel.Vector.Emplace` | advanced-vector/vector.h:366-377 | at `pos <= Size()` the result is `old[..pos] + [x] + old[pos..]`, the returned position is `pos`, and capacity grows only when the vector was full, in which case exactly `Size()` elements are relocated; otherwise the storage stays in place |
| `VectorModel.Vector.Insert` | advanced-vector/vector.h:399-405 | same effect as Emplace, including the storage staying in place when the vector was not full |
| `VectorModel.Vector.EmplaceWithReallocate` | advanced-vector/vector.h:422-443 | for a full vector and `pos < Size()`: the same insertion, in a new block of twice the size, relocating exactly `Size()` elements |
| `VectorModel.Vector.EmplaceWithoutReallocate` | advanced-vector/vector.h:446-457 | for `pos < Size() < Capacity()`: the same insertion, with the storage and capacity unchanged |
| `VectorModel.Vector.Erase` | advanced-vector/vector.h:407-415 | at `pos < Size()` the result is `old[..pos] + old[pos+1..]`; the returned position is `pos`; capacity and storage are unchanged |
| `VectorModel.Vector.PopBack` | advanced-vector/vector.h:337-341 | on a non-empty vector only the last element is removed; capacity and storage are unchanged |
| `SeqSpec.Inserted` | advanced-vector/vector.h:446-457 | insertion at `i` puts the value at `i`, keeps the elements before `i` in place and moves every later element one place right |
| `SeqSpec.Removed` | advanced-vector/vector.h:407-415 | removal at `i` keeps the elements before `i` in place and moves every later element one place left; the length drops by one |
| `SeqSpec.Resized` | advanced-vector/vector.h:284-292 | the result has length `n`; it keeps the old elements up to `n` and holds the fill value at every new index |
| `SeqSpec.RemovedInserted` | advanced-vector/vector.h:399-415 | erasing at the index just inserted at gives back the original elements |
| `SeqSpec.InsertedRemoved` | advanced-vector/vector.h:399-415 | re-inserting an erased element at its index gives back the original elements |
| `SeqSpec.InsertedAtEnd` | advanced-vector/vector.h:367-370 | inserting at `end()` is appending, which is why Emplace may delegate to EmplaceBack |
| `SeqSpec.ResizedBack` | advanced-vector/vector.h:284-292 | growing and then shrinking back to the old size gives back the original elements |
| `GrowthPolicy.GrowthCapacity` | advanced-vector/vector.h:302 | the grown capacity always has room for one more element |
| `GrowthPolicy.NextCapacity` | advanced-vector/vector.h:301-302 | after an append there is room for the new element and capacity never shrinks |
| `GrowthPolicy.RelocationsOnAppend` | advanced-vector/vector.h:301-304 | an append relocates every element exactly when it replaces the block, and none otherwise |
| `GrowthPolicy.RelocationsAfterAppends` | advanced-vector/vector.h:299-310 | `n > 0` appends to an empty vector relocate fewer elements in total than the final capacity |
| `GrowthPolicy.CapacityAfterAppends` | advanced-vector/vector.h:300-310 | after `n` appends to an empty vector, `n <= capacity < 2n` |
| `GrowthPolicy.AppendsAreAmortisedConstant` | advanced-vector/vector.h:294-299 | `n` appends, each adding `RelocationsOnAppend` to `relocations` by `PushBack`'s contract, relocate exactly `capacity - 1` elements in total, fewer than `2n` |
| `CopyAssignFinding.GrowInPlaceAsWritten` | advanced-vector/vector.h:247-249 | the as-written branch stays within `rhs`'s live elements exactly when `rhs.size <= 2*size`; the assigned prefix is always right |
| `CopyAssignFinding.GrowInPlaceFromEmptyReadsPastEnd` | advanced-vector/vector.h:247-249 | assigning to an empty target that has room reads only past the end of `rhs` |
| `CopyAssignFinding.GrowInPlaceCounterexample` | advanced-vector/vector.h:242-250 | assigning `[1,2,3]` to a two-element target yields `[1,2,2]` |
| `CopyAssignFinding.GrowInPlaceCorrectWhenDoubling` | advanced-vector/vector.h:247-249 | for any elements, the as-written branch copies `rhs` when `rhs.size == 2*size` |
| `CopyAssignFinding.GrowInPlaceCorrectIffDoubling` | advanced-vector/vector.h:247-249 | for distinct elements, the as-written branch copies `rhs` exactly when `rhs.size == 2*size` |

## Findings

| source | as written | input that shows it | evidently intended | confidence | as-written member | corrected member |
|---|---|---|---|---|---|---|
| advanced-vector/vector.h:247-249 | copy assignment into a vector that has room for a longer `rhs` constructs the tail from `rhs` starting at index `rhs.size_ - size_` | a two-element target with capacity 3 assigned `[1,2,3]` becomes `[1,2,2]`; an empty target with capacity 3 assigned `[1,2,3]` reads three cells past `rhs`'s live elements | construct the tail from index `size_`, so the target equals `rhs` | high (not executed) | `CopyAssignFinding.GrowInPlaceCounterexample` | `VectorModel.Vector.CopyAssign` |

The branch copies correctly only when `rhs.size_ == 2 * size_` (for `rhs` with distinct
elements; `CopyAssignFinding.GrowInPlaceCorrectIffDoubling`). It is wrong for an empty
target too: the read then starts at `rhs.size_`. Everywhere else the model uses the
corrected tail offset `size_`.

## Left out

- Exception safety: the `try`/`catch` rollback paths (vector.h:319-325, 426-438) and the strong/basic guarantees. Nothing in the model throws, so every operation succeeds.
- The compile-time choice between moving and copying (`is_nothrow_move_constructible_v`, vector.h:315 and 460). Both branches leave the same objects in the same cells, and moved-from objects are not modelled, so one `SafeMove` covers both.
- The `PushBack(T&&)` overload (vector.h:312-332) is covered by `VectorModel.Vector.PushBack`. Its effect on the elements and capacity is the same as the copying overload's. The two `Insert` overloads are likewise one `Insert`.
- `operator new` and `operator delete` (vector.h:83-90), and the RawMemory destructor (vector.h:22-24): releasing a block is not modelled, and allocation is a fresh Dafny array.
- RawMemory `operator+` and `operator[]` (vector.h:26-43), and `GetAddress` (vector.h:50-56): pointers are indices into the block. The `index < capacity` assertion is Dafny's own array-bounds check at each access. The `offset <= capacity` bound is the `from + n <= capacity` precondition of the helpers that take an offset and a count.
- `begin`/`end`/`cbegin`/`cend` (vector.h:113-130): positions are indices `0..Size()`.
- `CopyConstruct` and `Destroy` (vector.h:186-193), placement new and `std::destroy_at`: each is a write of one cell (`Init(v)` or `Uninit`).
- `RawMemoryModel.RawMemory.AssignMove`: the release of the old block is not modelled. In a self-move, the source's `Init` therefore leaves the block pointing at the storage it has just released, which the model shows as the block keeping its storage. `Vector` never self-moves a block.
- `VectorModel.Vector.MoveAssign`: the objects in the target's old block are not destroyed before that block is released (a leak in the source, vector.h:270). Because the old block is simply dropped in the model, the leak is not visible.
- `VectorModel.Vector.Dispose`: destroys the live objects; releasing the block and the end of the vector's lifetime are not modelled.
- Move counts within a block: the `end() - pos` moves of an insertion without reallocation (vector.h:386-387), and Erase's promise of exactly one destructor call and `end() - pos - 1` assignments (vector.h:394-395), are not counted. Only relocations into a new block are counted (`relocations`).
- `GrowthPolicy.AppendsAreAmortisedConstant`: the bound is proved for the sum `RelocationsAfterAppends`, which `PushBack`'s and `EmplaceBack`'s `relocations` postconditions follow step by step; no single lemma speaks of a run of `PushBack` calls, because a lemma cannot call a method.
- `size_t` bounds: sizes and capacities are unbounded naturals, so the overflow of `size_ * 2` and `n * sizeof(T)` is not modelled.
- Ownership is an explicit precondition. Two vectors passed to `Swap`, `CopyAssign` or `MoveAssign` are either the same vector or own disjoint objects (`Repr !! rhs.Repr`), as the source's exclusive ownership guarantees.
