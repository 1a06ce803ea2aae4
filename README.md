# FullVector in Dafny

This project models `vector.h`, a growable contiguous sequence container, `Vector<T>`, built on a fixed-capacity block of raw slots, `RawMemory<T>`.

- `raw_memory.dfy` (module `RawMem`) is the block. Its `buffer` is `null` exactly when its capacity is 0. It can be read and written slot by slot, swapped and moved, but not copied. It also holds the slot-moving loops the vector uses: `Relocate` copies a range into another block, `CopyInPlace` copies a range onto the same positions, and `ShiftRight`/`ShiftLeft` move a range one slot within a block (`std::move_backward` and `std::move`).
- `vector.dfy` (module `Vectors`) is the vector. The class `Vector` owns a `RawMemory` and a live count `size <= capacity`. The ghost `Elements()` is slots `[0, size)` of the block. Every mutator changes the block and `size` in place, as the source does:
  - one-slot shifts inside the block for `Erase` and for insertion with spare room;
  - a fresh block plus `Swap` for reallocation; `GrownWithInserted` builds the fresh block of an insertion into a full vector.
  Each mutator's `ensures` gives the new element sequence and the new capacity in terms of the old ones. Iterators are indices: `Begin()` is 0 and `End()` is `size`.
- `vector_spec.dfy` (module `VectorSpec`) holds the value-level vocabulary:
  - `Inserted`, `Erased` and `Resized` on sequences;
  - the growth rule `GrowthCapacity(size) = size == 0 ? 1 : 2 * size`;
  - `NextCapacity`, the capacity after one insertion;
  - the lemmas relating these: erase undoes insert, insert and erase are permutations, resizing twice, and appends from empty give power-of-two capacities.
- `scenarios.dfy` (module `VectorScenarios`) walks through the container's documented scenarios as client code. It uses only the contracts.

The value-initialised element `T()` that `Vector(size)` and `Resize` construct is passed in explicitly as `init`. Element types are `T(0)` because a Dafny array needs initial values. The slots past `size` stand for uninitialised memory, and nothing is stated about them.

Copy assignment is meant to copy the overlapping prefix element by element. The code copies nothing when both sizes are equal (vector.h:146 and vector.h:155 both test strict inequality). `CopyAssignAsWritten` follows the code. `CopyAssign` is the corrected version (see Findings).

## Model

| member | source | states |
|---|---|---|
| RawMem.RawMemory.Empty | vector.h:13-13 | the default block has capacity 0 and a null buffer |
| RawMem.RawMemory.constructor | vector.h:15-18 | a block of exactly `n` fresh slots; null when `n == 0` |
| RawMem.RawMemory.Allocate | vector.h:84-86 | null for 0 slots, otherwise a fresh array of exactly `n` slots |
| RawMem.RawMemory.Move | vector.h:27-29 | the new block takes over the other's buffer and capacity; the other is left with capacity 0 and no buffer |
| RawMem.RawMemory.MoveAssign | vector.h:31-34 | buffers and capacities of the two blocks are exchanged |
| RawMem.RawMemory.Swap | vector.h:55-58 | buffers and capacities of the two blocks are exchanged; both stay well formed |
| RawMem.RawMemory.Offset | vector.h:36-40 | only offsets `0..capacity` inclusive are addresses; the one-past-the-end address is `capacity` |
| RawMem.RawMemory.Get | vector.h:50-53 | reading slot `index < capacity` yields that slot's current value |
| RawMem.RawMemory.Set | vector.h:50-53 | writing slot `index < capacity` changes that slot only |
| RawMem.RawMemory.Capacity | vector.h:68-70 | the capacity is 0 exactly for the null block |
| RawMem.Relocate | vector.h:219-226 | slots `[to, to+count)` of the target receive slots `[from, from+count)` of the source; every other target slot keeps its value |
| RawMem.CopyInPlace | vector.h:147-161 | slots `[lo, hi)` of the target receive the same slots of the source; the rest are kept, even when both blocks are one |
| RawMem.ShiftRight | vector.h:450-450 | `std::move_backward` by one slot: slots `[lo, hi)` move to `[lo + 1, hi + 1)`; slot `lo` and every slot outside `[lo, hi]` keep their values |
| RawMem.ShiftLeft | vector.h:395-395 | `std::move` by one slot: slots `[lo + 1, hi)` move to `[lo, hi - 1)`; slot `hi - 1` and every slot outside `[lo, hi)` keep their values |
| Vectors.Vector.constructor | vector.h:101-101 | the default vector is empty with capacity 0 |
| Vectors.Vector.OfSize | vector.h:109-114 | `n` value-initialised elements in a block of capacity exactly `n` |
| Vectors.Vector.Copy | vector.h:124-129 | the copy holds the other's elements, with capacity equal to the other's size (not its capacity) |
| Vectors.Vector.Move | vector.h:132-134 | the new vector holds the other's former elements and capacity and owns its former array; the other is left empty with capacity 0, keeps its own `RawMemory` and owns no array; both remain usable |
| Vectors.Vector.Swap | vector.h:178-181 | elements and capacities of the two vectors are exchanged |
| Vectors.Vector.MoveAssign | vector.h:169-172 | elements and capacities of the two vectors are exchanged; each keeps its own `RawMemory` object and the arrays they own are exchanged, so both remain usable |
| Vectors.Vector.CopyAssignAsWritten | vector.h:140-166 | if `rhs` has more elements than the capacity, the result is a copy of `rhs` with capacity `rhs.Size()`; otherwise the capacity and block are kept, the size becomes `rhs.Size()`, and the elements become `rhs`'s only when the sizes differ |
| Vectors.Vector.CopyAssign | vector.h:140-166 | corrected assignment: the elements always become `rhs`'s; the capacity rule is the same as as written |
| Vectors.Vector.Reserve | vector.h:189-233 | elements unchanged; capacity becomes `max(old, n)`; if `n <= capacity`, the block is not replaced |
| Vectors.Vector.Size | vector.h:245-247 | the number of live elements |
| Vectors.Vector.Capacity | vector.h:249-251 | never below the number of live elements |
| Vectors.Vector.Get | vector.h:266-269 | `operator[]` for `index < Size()` yields element `index` |
| Vectors.Vector.Set | vector.h:266-269 | writing through `operator[]` replaces element `index` only; capacity kept |
| Vectors.Vector.Begin | vector.h:346-348 | `begin()` is at or before `end()`, and equal to it exactly when the vector is empty |
| Vectors.Vector.End | vector.h:350-352 | `end()` is the number of elements and within the block |
| Vectors.Vector.Resize | vector.h:272-281 | elements become `Resized(old, n, init)`: the first `min(old size, n)` elements are kept and slots `[old size, n)` hold `init`; capacity becomes `max(old capacity, n)`, so shrinking never lowers it; if `n <= capacity`, the block is not replaced |
| Vectors.Vector.PushBack | vector.h:287-290 | the same effect as `EmplaceBack` |
| Vectors.Vector.PopBack | vector.h:296-299 | for a non-empty vector, drops the last element; block and capacity kept |
| Vectors.Vector.EmplaceBack | vector.h:309-339 | elements become `old + [v]`; with a spare slot the block is kept, otherwise the capacity becomes `GrowthCapacity(old size)`; the result is the index of `v` |
| Vectors.Vector.Emplace | vector.h:376-386 | for `pos <= size`, elements become `Inserted(old, pos, v)`; capacity is `NextCapacity(old size, old capacity)`; with a spare slot the block is kept; returns `pos` |
| Vectors.Vector.BigCapacity | vector.h:433-456 | with a spare slot, elements become `Inserted(old, pos, v)` in the same block and the capacity is unchanged |
| Vectors.Vector.CompletelyFilled | vector.h:459-516 | when full, elements become `Inserted(old, pos, v)` and the capacity becomes `GrowthCapacity(old size)` |
| Vectors.GrownWithInserted | vector.h:461-510 | a fresh block of the grown capacity whose first `size + 1` slots are the old elements with `v` inserted at `pos`; the old block is untouched |
| Vectors.Vector.Erase | vector.h:388-401 | at `end()`, nothing changes and `end()` is returned; otherwise elements become `Erased(old, pos)` and `pos` is returned; block and capacity kept |
| Vectors.Vector.Insert | vector.h:404-412 | the same effect as `Emplace` at `pos`: elements become `Inserted(old, pos, v)`, capacity is `NextCapacity(old size, old capacity)`, with a spare slot the block is kept, and the returned `pos` holds `v` |
| VectorSpec.GrowthCapacity | vector.h:324-324 | the grown capacity always leaves room for one more element, and is at most `2 * size + 1` |
| VectorSpec.NextCapacity | vector.h:311-324 | after one insertion the capacity exceeds the old size and never falls below the old capacity |
| VectorSpec.CapacityAfterAppends | vector.h:309-339 | after `k` appends, the capacity holds all `size + k` elements and never shrinks |
| VectorSpec.AppendsKeepPowerOfTwo | vector.h:309-339 | a vector grown only by appends keeps a power-of-two capacity below twice its size |
| VectorSpec.AppendsFromEmpty | vector.h:309-339 | after `k > 0` appends to an empty vector, the capacity is the least power of two that is at least `k` |
| VectorSpec.Inserted | vector.h:376-386 | insertion places `v` at `pos`, keeps the prefix and shifts the tail one slot right |
| VectorSpec.Erased | vector.h:388-401 | erasure keeps the prefix and shifts the tail one slot left |
| VectorSpec.Resized | vector.h:272-281 | the resized sequence has length `n`, keeps the common prefix and fills the rest with the default |
| VectorSpec.EraseUndoesInsert | vector.h:376-401 | erasing at the position just inserted at restores the original elements |
| VectorSpec.InsertAtEndAppends | vector.h:439-441 | inserting at `end()` is appending, which is why `BigCapacity` may delegate to `EmplaceBack` |
| VectorSpec.InsertedIsPermutation | vector.h:443-454 | insertion adds one occurrence of `v` and loses no element |
| VectorSpec.ErasedIsPermutation | vector.h:393-399 | erasure removes exactly one occurrence, of the erased element |
| VectorSpec.DropLastIsEraseLast | vector.h:296-299 | `PopBack` has the same effect on the elements as erasing the last position |
| VectorSpec.ResizeToSameSize | vector.h:272-281 | resizing to the current size changes nothing |
| VectorSpec.ResizeTwice | vector.h:272-281 | resizing to `n` and then to `m <= n` equals resizing to `m`; in particular, growing and shrinking back restores the elements |
| VectorSpec.AssignedAsWritten | vector.h:145-164 | the storage-reusing copy assignment as written yields `rhs`'s length, and either `rhs`'s elements or, for equal sizes, the old ones |
| VectorSpec.AssignedAsWrittenCopiesIff | vector.h:145-164 | the as-written assignment reaches `rhs`'s elements if and only if the sizes differ or the contents already agree |
| VectorSpec.AssignEqualSizesKeepsStale | vector.h:146-162 | assigning `[2]` over `[1]` leaves `[1]` |

## Left out

- Exceptions and rollback are not modelled: the `try`/`catch` blocks of `CompletelyFilled` (vector.h:475-482, 496-508), and the strong guarantee of `EmplaceBack`'s growth path when the new element's constructor throws. Dafny has no exceptions. The model keeps the source's order of steps, but no failing path. The catch at vector.h:480 also destroys a slot that was never constructed.
- Allocation failure of `operator new` is not modelled; `Allocate` always succeeds.
- The compile-time choice between moving and copying elements (vector.h:219-226, 326-333, 464-483, 487-510) is not modelled. Both branches put the same values into the new block, so one `Relocate` stands for both.
- Object lifetimes are not modelled: placement `new`, destructors, `std::destroy_n`/`destroy_at`, `Deallocate` and `~RawMemory`/`~Vector` (vector.h:20-22, 89-91, 241-243, 278, 297, 397, 513). Only the live-prefix invariant `size <= capacity` represents them. The `std::destroy_n` calls in the shrinking branch of `Resize` (vector.h:278) and in the shrinking branch of copy assignment (vector.h:157) therefore reduce to the change of `size`. That copy-assignment branch still copies `rhs`'s prefix (vector.h:161), and the model does too.
- The unused private helpers `DestroyN`, `CopyConstruct` and `Destroy` (vector.h:416-430) are left out.
- The `const` overloads are left out (vector.h:42-48, 262-264, 354-368), and so are `RawMemory::GetAddress`/`Begin` (vector.h:60-77). As indices they are all slot 0 or the same reads.
- Raw pointers and their invalidation are not modelled; iterators are indices. "The block is not replaced" is stated as `Repr == old(Repr)`.
- Vectors.Vector.CompletelyFilled: an argument that aliases an element of the vector itself is not modelled. Take `v.Insert(v.begin() + 1, v[0])` on a full vector. The source moves the prefix `[0, pos)` out of the old block (vector.h:464-467) before it constructs the new element from the forwarded argument (vector.h:485). The argument then refers to a moved-from element, so the inserted value need not be the old `v[0]`. The model receives `v` as a value, relocates by copying and always yields `Inserted(old, pos, v)`. `EmplaceBack` (vector.h:325) and `BigCapacity` (vector.h:443) build the value before moving anything and are not affected.
- `EmplaceBack`, `Emplace` and `Insert` take the finished element value. They do not forward constructor arguments, and the `const T&`/`T&&` overloads of `Insert` are one method. `EmplaceBack` returns the new element's index where the source returns a reference.
- `size_t` is unbounded here, so the `Size() * 2` at vector.h:324 and vector.h:462 never wraps. Neither does the byte count `n * sizeof(T)` passed to `operator new` at vector.h:85. In the source that product wraps for `n > SIZE_MAX / sizeof(T)`, so a huge `Reserve` would allocate a tiny block while `capacity_` becomes `n`. `RawMem.RawMemory.Allocate` always yields `n` slots.
- `PopBack` on an empty vector and `operator[]` out of range are undefined behaviour in the source. They are preconditions here.

## Findings

| source | as written | input that shows it | evidently intended | confidence | as-written member | corrected member |
|---|---|---|---|---|---|---|
| vector.h:145-164 | when `rhs.size_ <= capacity` and `size_ == rhs.size_`, neither branch copies, so the destination keeps its old elements | destination `[1]`, `rhs = [2]`: after `dst = rhs` the destination still holds `[1]` | copy assignment always leaves the destination equal to `rhs` | high, not executed | VectorSpec.AssignEqualSizesKeepsStale | Vectors.Vector.CopyAssign |
