# advanced-vector in Dafny

A model of `advanced-vector/vector.h`: a growable contiguous array built in two layers.

- `RawMemory<T>` owns a block of uninitialised slots.
- `Vector<T>` owns one such block plus the count of live elements at its front.

In this model:

- `RawMemory` is a class over a Dafny `array<T>`. The array's length is the capacity, and a zero-length array stands for the null buffer.
- `Vector` is a class with a `const data: RawMemory<T>`, a `size` field and a ghost `Elements: seq<T>`. `Valid()` ties these together: `size <= capacity` and `Elements == buf[0..size)`.
- Every operation is proved against a value-level specification in `VectorSpec`. It states what the operation does to `Elements`, what the capacity becomes, and whether the old block is kept.
- The relocation rule of `Reserve` and of the reallocating insert lives in `Relocation.Policy`. It moves elements when moving cannot throw or the type cannot be copied, and copies them otherwise. Each relocation is recorded in a ghost tally (elements moved, elements copied), so "growth moves, not copies" is a provable statement.

| file | module | contents |
|---|---|---|
| `raw_memory.dfy` | `RawStorage` | `RawMemory`: construction, move construction and assignment, `Swap`, slot access |
| `relocation.dfy` | `Relocation` | element traits, the move-or-copy policy, the relocation tally |
| `vector_spec.dfy` | `VectorSpec` | insert, remove, pop, resize and growth on sequences; capacity and amortisation lemmas; push/pop runs |
| `vector.dfy` | `Vectors` | `Vector` and the in-place block algorithms it uses (copy, fill, shift right, shift left) |
| `move_model.dfy` | `MoveModel` | the in-place insert path in a model where moving leaves a moved-from value behind (see Findings) |
| `scenarios.dfy` | `Scenarios` | client programs: the push-five capacity sequence, an edit sequence, copy and move |

Modelling conventions:

- Iterators and pointers are indices into the block.
- Moving and copying an element both carry the same value. Only the tally tells them apart.
- Value-initialisation (`T()`) is the vector's `const init`, given once when the vector is constructed (copied from the source by copy and move construction), because Dafny has no default value for a type parameter. `Vector.Sized` and `Vector.Resize` fill new slots with it.
- The two type traits the C++ reads at compile time (nothrow move constructible, copy constructible) are the vector's `const traits`.
- Slots past `size` hold arbitrary values, which is how uninitialised memory appears here.

## Model

| member | source | states |
|---|---|---|
| `RawStorage.RawMemory.constructor` | advanced-vector/vector.h:22-27 | a fresh block of exactly the requested number of slots (none for 0, as the default constructor) |
| `RawStorage.RawMemory.Move` | advanced-vector/vector.h:33-39 | the new owner holds the source's block; the source is left with an empty block |
| `RawStorage.RawMemory.MoveAssign` | advanced-vector/vector.h:41-50 | this takes over the source's block and the source is left empty; self-assignment changes nothing |
| `RawStorage.RawMemory.Capacity` | advanced-vector/vector.h:96-99 | the number of slots of the owned block, which bounds the indices `Get` and `Set` accept |
| `RawStorage.RawMemory.Swap` | advanced-vector/vector.h:80-84 | the two owners exchange blocks and no slot is touched |
| `RawStorage.RawMemory.Get` | advanced-vector/vector.h:74-78 | reads the slot at an index below the capacity (the bound assert is the precondition) |
| `RawStorage.RawMemory.Set` | advanced-vector/vector.h:74-78 | writes the slot at an index below the capacity; every other slot is unchanged |
| `Relocation.Policy` | advanced-vector/vector.h:308-319 | relocation moves whenever moving cannot throw, never copies a type without a copy constructor, and never risks a throwing move when a copy is available |
| `Relocation.Tally.Record` | advanced-vector/vector.h:315-325 | relocating n elements adds n to the counter of the strategy used and leaves the other counter alone |
| `VectorSpec.Insert` | advanced-vector/vector.h:420-441 | after inserting at i: one more element, the value at i, the elements before i in place, the ones from i on shifted up by one |
| `VectorSpec.Remove` | advanced-vector/vector.h:486-497 | after removing i: one element fewer, the elements before i in place, the ones after i shifted down by one |
| `VectorSpec.DropLast` | advanced-vector/vector.h:375-382 | PopBack removes exactly the last element, and an empty sequence stays empty |
| `VectorSpec.Filled` | advanced-vector/vector.h:141-150 | n elements, each the value-initialised value |
| `VectorSpec.Resized` | advanced-vector/vector.h:339-358 | size n, the first min(size, n) elements kept, positions from the old size up to n hold the initial value |
| `VectorSpec.GrowthCapacity` | advanced-vector/vector.h:462-464 | the reallocating insert's new block has room for one more element and has max(1, 2·size) slots |
| `VectorSpec.CapacityAfterInsert` | advanced-vector/vector.h:425-435 | inserting leaves the capacity alone while there is room and otherwise grows it past the size; it never shrinks |
| `VectorSpec.RelocatedByInsert` | advanced-vector/vector.h:469-479 | an insert relocates nothing when there is room and all size elements when the vector is full |
| `VectorSpec.CapacityAfterPushes` | advanced-vector/vector.h:360-405 | after n pushes onto an empty vector the capacity is at least n |
| `VectorSpec.PushesGrowGeometrically` | advanced-vector/vector.h:462-464 | after n ≥ 1 pushes from empty the capacity is a power of two in [n, 2n), and the relocations performed so far number capacity − 1 (amortised O(1) append) |
| `VectorSpec.RemoveInsert` | advanced-vector/vector.h:486-497 | erasing at the index just inserted at gives back the original elements |
| `VectorSpec.InsertAtEnd` | advanced-vector/vector.h:402 | inserting at end() appends |
| `VectorSpec.DropLastAppend` | advanced-vector/vector.h:361-382 | PopBack undoes PushBack |
| `VectorSpec.RemoveLastIsDropLast` | advanced-vector/vector.h:486-505 | erasing the last element is the same as PopBack |
| `VectorSpec.ResizeRoundTrip` | advanced-vector/vector.h:339-358 | growing with Resize and shrinking back to the old size restores the elements |
| `VectorSpec.RunSize` | advanced-vector/vector.h:360-382 | after any run of PushBack and PopBack in which no pop meets an empty vector, the size is the start size plus pushes minus pops |
| `VectorSpec.PushAllPopAll` | advanced-vector/vector.h:360-382 | pushing a sequence of values and then popping as many restores the elements |
| `VectorSpec.Pushing` | advanced-vector/vector.h:361-369 | the run of PushBack calls for a list of values, in order |
| `VectorSpec.Popping` | advanced-vector/vector.h:375-382 | a run of n PopBack calls |
| `Vectors.CopyN` | advanced-vector/vector.h:318-324 | slots [to, to+n) of the destination receive the source slots [from, from+n) in order; no other destination slot changes |
| `Vectors.Fill` | advanced-vector/vector.h:348 | slots [from, to) receive the initial value; no other slot changes |
| `Vectors.ShiftRight` | advanced-vector/vector.h:454 | each slot of [first, last) moves one to the right; slots outside (first, last] are unchanged |
| `Vectors.ShiftLeft` | advanced-vector/vector.h:492 | each slot of [first, last) moves one to the left; slots outside [first−1, last−1) are unchanged |
| `Vectors.Vector.constructor` | advanced-vector/vector.h:131-133 | no elements, capacity 0; `init` stands for T() |
| `Vectors.Vector.Sized` | advanced-vector/vector.h:141-150 | n elements each equal to the value-initialised `init`, capacity exactly n |
| `Vectors.Vector.Copy` | advanced-vector/vector.h:152-160 | the same elements as the source, capacity equal to the source's size; the source is not modified |
| `Vectors.Vector.Move` | advanced-vector/vector.h:162-165 | takes the source's block and elements; the source ends with no elements and capacity 0 |
| `Vectors.Vector.Size` | advanced-vector/vector.h:249-252 | the number of live elements |
| `Vectors.Vector.Capacity` | advanced-vector/vector.h:254-257 | never below the number of live elements |
| `Vectors.Vector.Items` | advanced-vector/vector.h:259-290 | iterating begin()..end() yields the live elements in order |
| `Vectors.Vector.Get` | advanced-vector/vector.h:236-240 | reading index i < size gives the i-th live element |
| `Vectors.Vector.Set` | advanced-vector/vector.h:236-240 | writing through index i < size replaces the i-th element and nothing else |
| `Vectors.Vector.Swap` | advanced-vector/vector.h:242-246 | the two vectors exchange elements and blocks |
| `Vectors.Vector.CopyAssign` | advanced-vector/vector.h:180-217 | afterwards this equals the source elementwise; the capacity becomes the source's size only when that exceeds the old capacity (fresh block), otherwise block and capacity are kept; self-assignment changes nothing; the source is unchanged |
| `Vectors.Vector.MoveAssign` | advanced-vector/vector.h:219-226 | the two vectors exchange elements and blocks; moving a vector into itself changes nothing |
| `Vectors.Vector.Reserve` | advanced-vector/vector.h:297-331 | elements unchanged; capacity becomes max(old, n); when n fits, the block (and so every element's slot) is kept; otherwise a fresh block is used and all elements are relocated with the policy's strategy |
| `Vectors.Vector.Resize` | advanced-vector/vector.h:339-358 | elements become Resized(old, n, init) with the vector's own `init`; capacity becomes max(old capacity, n), a fresh block being used only when n exceeds the old capacity |
| `Vectors.Vector.PushBack` | advanced-vector/vector.h:360-369 | appends the value; capacity and relocations as for an insert at the end |
| `Vectors.Vector.EmplaceBack` | advanced-vector/vector.h:393-405 | appends the value and returns the new last element |
| `Vectors.Vector.PopBack` | advanced-vector/vector.h:375-382 | removes only the last element, does nothing on an empty vector, keeps the block |
| `Vectors.Vector.Insert` | advanced-vector/vector.h:407-418 | as Emplace |
| `Vectors.Vector.Emplace` | advanced-vector/vector.h:420-441 | elements become old[0..i) ++ [v] ++ old[i..size) and i is returned; with room the block and capacity are kept, when full a fresh block of max(1, 2·size) slots is used and all old elements are relocated with the policy's strategy |
| `Vectors.Vector.NoRealloc` | advanced-vector/vector.h:443-457 | with spare capacity, the first size + 1 slots become the insertion of v at i into the live elements, for every i ≤ size, including an empty vector |
| `Vectors.Vector.Realloc` | advanced-vector/vector.h:459-483 | for a full vector, a fresh block of GrowthCapacity(size) slots whose first size + 1 slots hold the insertion of v at i; size elements recorded as relocated |
| `Vectors.Vector.Erase` | advanced-vector/vector.h:485-505 | at i < size removes exactly element i, keeps the rest in order and returns i; at any other index removes the last element if any and returns the new end; the block is kept |
| `MoveModel.LastIndex` | advanced-vector/vector.h:451 | size − 1 in size_t arithmetic: one less for a non-empty vector, SIZE_MAX for an empty one |
| `MoveModel.EmptyNoReallocIndexesOutOfRange` | advanced-vector/vector.h:451 | on an empty vector the index read lies outside every block (Findings) |
| `MoveModel.MoveLastToEnd` | advanced-vector/vector.h:451 | the slot past the end receives the last element, whose own slot is left moved-from |
| `MoveModel.MoveBackward` | advanced-vector/vector.h:454 | move_backward over slots keeps the length of the block |
| `MoveModel.MoveBackwardShifts` | advanced-vector/vector.h:454 | over a proper range each slot moves one right, the first is left moved-from and everything outside is unchanged |
| `MoveModel.NoReallocAsWritten` | advanced-vector/vector.h:443-457 | the in-place insert as written yields one slot more than the live elements |
| `MoveModel.NoReallocAsWrittenInsertsInside` | advanced-vector/vector.h:443-457 | as written, inserting before the end is a correct insert even when moves leave values behind |
| `MoveModel.AppendLosesLastElement` | advanced-vector/vector.h:451-456 | as written, appending with spare capacity leaves the old last element moved-from (Findings) |
| `MoveModel.NoReallocFixed` | advanced-vector/vector.h:443-457 | the corrected in-place insert yields one slot more than the live elements, with the value at the requested index |
| `MoveModel.NoReallocFixedInserts` | advanced-vector/vector.h:443-457 | the corrected path inserts correctly at every index, the empty vector included |
| `Scenarios.PushFive` | advanced-vector/vector.h:360-405 | pushing 1..5 onto an empty vector gives capacities 1, 2, 4, 4, 8 and values in push order; the 7 relocations are all moves for a nothrow-movable type and all copies for a copyable type whose move may throw |
| `Scenarios.EditDefaultInts` | advanced-vector/vector.h:394-505 | three default ints, EmplaceBack(5), Insert at 1 of 9, Erase at 2 give [0,0,0], [0,0,0,5], [0,9,0,0,5], [0,9,0,5], returning positions 1 and 2 |
| `Scenarios.ReserveThenPush` | advanced-vector/vector.h:420-457 | Reserve(3) then PushBack(x) gives [x] with capacity 3 |
| `Scenarios.CopyConstruct` | advanced-vector/vector.h:152-160 | a copy of [7,7,8] held in 4 slots has capacity 3; the source is unchanged |
| `Scenarios.CopyAssignKeepsBlock` | advanced-vector/vector.h:180-217 | copy-assigning into a block of 10 keeps capacity 10; self-assignment changes nothing |
| `Scenarios.MoveConstruct` | advanced-vector/vector.h:162-165 | the moved-to vector has the elements and the block; the source is empty with capacity 0, and PopBack on it does nothing |

## Findings

| source | as written | input that shows it | evidently intended | confidence | as-written member | corrected member |
|---|---|---|---|---|---|---|
| advanced-vector/vector.h:451 | the in-place insert path reads the last element at index size_ − 1 even when the vector is empty, which wraps to SIZE_MAX and fails the bound assert of RawMemory's operator[] (undefined behaviour without asserts) | `Reserve(3)` on an empty vector, then `PushBack(x)` | the value is stored in slot 0 of the reserved block | high, not executed | `MoveModel.EmptyNoReallocIndexesOutOfRange` | `Vectors.Vector.NoRealloc` |
| advanced-vector/vector.h:451-456 | when inserting at end() with spare capacity, the path moves the last element into the new slot, calls move_backward on an inverted range, and then overwrites the new slot with the value. The old last slot keeps only the moved-from value. The standard leaves the inverted range undefined. `MoveModel.MoveBackward` assumes it moves nothing, as the generic loop of libstdc++ does for a type that is not trivially copyable such as std::string; other libraries and the memmove path for trivially copyable types may behave differently, so even `Vector<int>` is not guaranteed to append correctly | a `Vector<std::string>` holding "a", "b" with capacity 4, then `PushBack("c")`: the result is "a", "", "c" | "a", "b", "c" | high, not executed | `MoveModel.AppendLosesLastElement` | `MoveModel.NoReallocFixedInserts` |

The Vector model uses the corrected path. `Vectors.Vector.NoRealloc` places an appended value without moving anything, and it shifts the tail only for an index inside the vector. Its contract is the insertion for every index up to the size, the empty vector included. `MoveModel.NoReallocFixed` is the same corrected path over sequences with moved-from values. Both are proved equal to `VectorSpec.Insert` (by `MoveModel.NoReallocFixedInserts` and by the contract of `Vectors.Vector.NoRealloc`), so the two definitions agree.

## Notes on the code

Where the comments and the code disagree, the model follows the code.

- PopBack on an empty vector: the comment at advanced-vector/vector.h:371-374 calls it undefined behaviour. The code guards on `size_ > 0` (advanced-vector/vector.h:377), so it is a no-op. `Vectors.Vector.PopBack` and `VectorSpec.DropLast` state the no-op.
- Growth size: the reallocating insert grows to 1 from size 0 and to 2 × size otherwise (advanced-vector/vector.h:464). This uses the size, not the capacity. The path runs only when size ≥ capacity (advanced-vector/vector.h:425), and size ≤ capacity always holds, so this equals max(1, 2 × capacity). `Vectors.Vector.Realloc` requires size == capacity.
- Erase at end(): the code pops the last element for every position that is not before end() (advanced-vector/vector.h:499-504). It does not leave the vector unchanged. `Vectors.Vector.Erase` accepts any index and does the same.
- Partial destruction: the reallocating insert destroys only size_ − index old elements (advanced-vector/vector.h:481). It destroys slots [0, size_ − index). The moved-from objects in the last `index` old slots, [size_ − index, size_), are never destroyed before the old block is released. This matters for types with non-trivial destructors. Object lifetimes are not part of this model (see below), so this shows nowhere in the contracts.

## Left out

- Raw allocation and release through operator new and operator delete (advanced-vector/vector.h:103-120): a block is a fresh Dafny array, and releasing it is garbage collection.
- Allocation failure and element-construction exceptions, with the strong-guarantee reasoning that goes with them: C++ exception machinery. Every operation here succeeds.
- Object lifetimes: placement-new, destroy_n, destroy_at, and the destructors of RawMemory and Vector (advanced-vector/vector.h:52-55, 174-178). In a value model they leave no trace.
- `RawStorage.RawMemory.MoveAssign`: models the intended hand-over, where the source ends with an empty block. The code instead releases the block that the source still points to (advanced-vector/vector.h:46), so the source double-frees it later. Dafny has no dangling references to express this. Vector never calls this operator.
- RawMemory's operator+ and GetAddress, and the iterator arithmetic of Vector (advanced-vector/vector.h:57-67, 86-94, 259-290): addresses are indices. The bound assert of operator+ is the index bound in the methods that take indices. begin()..end() is `Vectors.Vector.Items`.
- The const overloads that forward to the mutable ones (advanced-vector/vector.h:64-72, 231-234, 272-290): duplicates.
- `Vectors.Vector.Emplace` and `Vectors.Vector.EmplaceBack`: take a single value instead of variadic constructor arguments forwarded to T's constructor.
- Value-initialisation: each vector fixes its own `init`. Nothing forces two vectors of the same element type to hold the same `init`, as C++'s single `T()` does. A swap or move between such vectors exchanges the elements, and each vector keeps its own `init`.
- `Vectors.Vector.EmplaceBack` returns the new last element by value rather than a reference to its slot. `Vectors.Vector.Get` and `Vectors.Vector.Set` split the reference returned by operator[].
- `Vectors.Vector.CopyAssign` requires that two distinct vectors do not share a block, which C++ ownership guarantees. The model needs it to copy between blocks.
- Move versus copy: both carry the same value here. The choice is visible only through the ghost relocation tally. The moved-from state of a relocated element is modelled only in `MoveModel` (Findings).
- size_t width: sizes and capacities are unbounded naturals. Wrap-around of `size_ * 2` and of the allocation size is not modelled; only the wrap of size_ − 1 is (`MoveModel.LastIndex`).
- Iterator invalidation rules: not represented, since positions are indices.
- Thread safety: the container is single-threaded and has none.
