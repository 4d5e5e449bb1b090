# advanced-vector in Dafny

A model of `advanced-vector/vector.h`, a from-scratch growable contiguous
array in two layers:

- `RawMemory<T>` (module `Raw`): a move-only owner of a block of
  `capacity` slots. It never constructs or destroys elements. Here a block
  is a sequence of slots, and each slot is either `Uninit` or `Live(value)`.
  Slot access needs `index < capacity`. The block can be moved out,
  move-assigned and swapped.
- `Vector<T>` (module `Vectors`): a block plus a live count `size`. Its
  invariant `Valid` says `size <= capacity`, slots `[0, size)` are live and
  slots `[size, capacity)` are uninitialised. `Elements(v)` is the element
  sequence a valid vector stands for.

The vector is modelled as a value. Every operation that mutates the C++
object in place returns the new state instead. The in-place work of the
source runs as loops over a local array in module `Algorithms`:
- relocation into another block (`uninitialized_move_n`,
  `uninitialized_copy_n`, `std::copy`);
- filling a range (value construction, `destroy_n`);
- the one-slot right shift of insertion (`std::move_backward`);
- the one-slot left shift of erasure (`std::move`).

The source picks move or copy with a move-if-noexcept trait. Both give the
same values, so both are one `Transfer`. A value-initialised `T()` is an
explicit `zero` parameter. Iterator positions are `nat` offsets.

Module `Growth` holds the growth rule. A full vector that appends or
inserts moves to a block of `2 * size` slots, or 1 slot when empty. The
code writes this rule in terms of the size (`size_ * 2`), not the capacity.
The two agree, because growth happens only when `size == capacity`. Module
`Growth` also proves what a run of appends does to capacity. Module
`VectorProperties` relates several operations: erase undoes emplace, pop
undoes push, self copy-assignment is a no-op, and appends follow a doubling
capacity schedule.

## Model

| member | source | states |
|---|---|---|
| Raw.Allocate | advanced-vector/vector.h:17-20 | a new block has exactly the requested number of slots, all uninitialised; a block of 0 slots stands for the null buffer |
| Raw.RawMemory.Capacity | advanced-vector/vector.h:76-78 | the capacity of a block is its number of slots |
| Raw.MoveOut | advanced-vector/vector.h:29-31 | move construction hands the whole block to the new owner and leaves the source with capacity 0 |
| Raw.MoveAssign | advanced-vector/vector.h:33-42 | move assignment gives the target the source's block and leaves the source with capacity 0 |
| Raw.Swap | advanced-vector/vector.h:63-66 | swap exchanges the blocks, so each holder ends with the other's capacity |
| Raw.At | advanced-vector/vector.h:58-61 | slot access is only defined below the capacity and yields that slot |
| Algorithms.Transfer | advanced-vector/vector.h:157-162 | relocating n slots puts source slot first+k at destination dFirst+k and leaves every other destination slot unchanged |
| Algorithms.Fill | advanced-vector/vector.h:179 | construction or destruction of a range sets exactly the slots of that range and no others |
| Algorithms.ShiftRight | advanced-vector/vector.h:363 | the backward move shifts every slot of [first, last) one place right and keeps every slot outside (first, last] |
| Algorithms.ShiftLeft | advanced-vector/vector.h:199 | the forward move shifts every slot of (first, last) one place left and keeps every slot outside [first, last - 1) |
| Vectors.Capacity | advanced-vector/vector.h:147-149 | a vector's capacity is the slot count of its block, and a valid vector's size never exceeds it |
| Vectors.ViewDeterminesVector | advanced-vector/vector.h:256-257 | two valid vectors with the same elements and capacity are the same vector (the slots past the live prefix are all uninitialised) |
| Vectors.Empty | advanced-vector/vector.h:101 | the default vector is valid with no elements and capacity 0 |
| Vectors.WithSize | advanced-vector/vector.h:103-108 | `Vector(n)` has size and capacity n and every element is the value-initialised value |
| Vectors.CopyOf | advanced-vector/vector.h:110-115 | the copy has the source's elements and capacity exactly the source's size |
| Vectors.MoveFrom | advanced-vector/vector.h:116-118 | the move constructor takes the source vector whole and leaves it valid with size and capacity 0 |
| Vectors.Swap | advanced-vector/vector.h:168-171 | swap exchanges elements and capacities and keeps both vectors valid |
| Vectors.MoveAssign | advanced-vector/vector.h:250-253 | move assignment is a swap: the target gets the source and the source gets the target's old contents |
| Vectors.Reserve | advanced-vector/vector.h:151-166 | reserve keeps the elements; with k <= capacity the vector is unchanged, otherwise capacity becomes exactly k |
| Vectors.Resize | advanced-vector/vector.h:173-182 | size becomes n with the common prefix kept; growing appends value-initialised elements, capacity is max(old capacity, n); shrinking keeps capacity |
| Vectors.PopBack | advanced-vector/vector.h:184-187 | on a non-empty vector, drops exactly the last element and keeps the capacity |
| Vectors.EmplaceBack | advanced-vector/vector.h:306-329 | appends x after the old elements and returns x; capacity becomes the growth capacity only when the vector was full |
| Vectors.PushBack | advanced-vector/vector.h:279-302 | appends x after the old elements; capacity becomes the growth capacity only when the vector was full |
| Vectors.GrowAndInsert | advanced-vector/vector.h:336-355 | the growth path of emplace yields a block of the growth capacity with x at p, the prefix before it and the suffix one place later |
| Vectors.ShiftAndInsert | advanced-vector/vector.h:356-366 | the in-place path of emplace keeps the block size and yields x at p with the old suffix one place later |
| Vectors.Emplace | advanced-vector/vector.h:333-379 | for p <= size the elements become old[..p] + [x] + old[p..], the returned position is p, and capacity grows only when full |
| Vectors.Erase | advanced-vector/vector.h:196-204 | for p < size the elements become old[..p] + old[p+1..], the returned position is p, and capacity is unchanged |
| Vectors.At | advanced-vector/vector.h:224-227 | indexed access below size yields the element at that position of the sequence |
| Vectors.SetAt | advanced-vector/vector.h:224-227 | writing through the returned reference replaces exactly that element and keeps size and capacity |
| Vectors.CopyAssign | advanced-vector/vector.h:229-249 | after copy assignment the elements equal rhs's; capacity becomes rhs.size when rhs did not fit, otherwise it is unchanged |
| Growth.GrowthCapacity | advanced-vector/vector.h:282 | the block chosen for a full vector always has room for one more element |
| Growth.AppendGrowth | advanced-vector/vector.h:280-296 | after m >= 1 appends from empty, capacity is 2^(R-1) for R reallocations and lies in [m, 2m), so R - 1 = ceil(log2 m) |
| Growth.AppendRelocations | advanced-vector/vector.h:280-296 | those m appends relocate capacity - 1 < 2m elements in all, so appending is amortised constant time |
| VectorProperties.EmplaceThenErase | advanced-vector/vector.h:196-204 | erase at p right after emplace at p restores the original elements |
| VectorProperties.PushThenPop | advanced-vector/vector.h:184-187 | pop right after push restores the original elements |
| VectorProperties.SelfCopyAssign | advanced-vector/vector.h:229-230 | copy-assigning a vector from itself leaves it exactly as it was |
| VectorProperties.AppendAll | advanced-vector/vector.h:279-302 | appending xs to an empty vector gives exactly xs, with the capacity of the doubling schedule; the appends that took the growth branch, counted as they run, number Reallocations(m), and the elements they relocated number Relocated(m) |
| VectorProperties.AppendReallocations | advanced-vector/vector.h:280-294 | a run of m >= 1 appends takes the growth branch R times (counted in the loop), ends with capacity 2^(R-1) in [m, 2m), and relocates capacity - 1 < 2m elements |
| VectorProperties.DoublingScenario | advanced-vector/vector.h:279-301 | pushing 1, 2, 3 gives capacities 1, 2, 4; insert at 1 then erase at 1 and resize to 1 leave [1] with capacity 4 |
| VectorProperties.PositionAsWritten | advanced-vector/vector.h:197 | the offset stored in a 32-bit int equals the true offset below 2^31 and differs from it by a multiple of 2^32 |
| VectorProperties.PositionAsWrittenWraps | advanced-vector/vector.h:334 | at offset 2^31 the stored position is -2^31, not the offset |

## Left out

- Allocation and deallocation (`operator new`/`operator delete` and `sizeof(T)` sizing, lines 85-91) are left out. A block is a slot sequence of length `capacity`, and the old block is simply dropped after relocation. The null buffer is a block of 0 slots.
- Raw.MoveAssign: the self-move check at line 34 is not modelled, because values have no identity. The target's previous block is not released there (a leak), which is invisible without allocation.
- `RawMemory::operator+` and `GetAddress` (lines 44-52, 68-74) are raw pointers. Offsets are `nat` indices here, and the bound `offset <= capacity` appears as the range preconditions of the `Algorithms` methods.
- Placement new, destructor calls and object lifetimes are left out. Only which slots are live is modelled, through `Slot`.
- Exceptions, allocation failure and the strong and best-effort guarantees are left out, including the `catch` block at lines 372-374.
- The move-if-noexcept branch (lines 157-162, 286-291, 342-350) is one `Transfer`. Moved-from source slots keep their values, because the old block is discarded right after.
- Iterators (`begin`, `end`, `cbegin`, `cend`, lines 124-141) are `nat` positions.
- `Insert` (lines 189-194) only forwards to `Emplace`, so `Vectors.Emplace` is its model.
- The unused private helpers `DestroyN`, `CopyConstruct` and `Destroy` (lines 260-274) are left out.
- The `Size()` query (lines 143-145) is the field `v.size`.
- The debug `assert`s and the callers' obligations (index below size, non-empty `PopBack`, valid positions) are `requires` clauses.
- VectorProperties.SelfCopyAssign: the `this != &rhs` alias check is modelled as assignment from an equal value. The result is the same vector either way.
- Copy independence holds trivially for values and is not stated separately.
- Sizes, capacities and positions (`size_t`) are unbounded `nat`s. In the source, `n * sizeof(T)` at line 86 and `size_ * 2` at lines 282, 309 and 338 wrap modulo 2^64. The model does not follow that wrap.
- Vectors.Reserve: "capacity becomes exactly k" holds in the source only while `k * sizeof(T) < 2^64`. Past that, the allocation size wraps and a smaller block would be recorded as capacity k. The same bound applies to Vectors.WithSize, Vectors.Resize and Vectors.CopyOf.
- Growth.GrowthCapacity: the doubling `size_ * 2` is not reduced modulo 2^64. A full vector of 2^63 or more elements would wrap there. The same applies to Vectors.EmplaceBack, Vectors.PushBack and Vectors.Emplace.
- The forwarded constructor arguments (`Type&&` and `Args&&...`, lines 207-213, 284, 311, 340 and 360) are one already-built value `x`. The element is the value the arguments construct, and constructor side effects are left out.

## Findings

| source | as written | input that shows it | evidently intended | confidence | as-written member | corrected member |
|---|---|---|---|---|---|---|
| advanced-vector/vector.h:197 | `Erase` stores `pos - begin()` in a 32-bit `int` | a vector with more than 2^31 elements, erasing at offset 2^31: the stored position is -2^31 and `begin() + position` points before the block | keep the full offset (`size_t` or `ptrdiff_t`) | not executed; conversion is implementation-defined before C++20 and modulo 2^32 from C++20 | VectorProperties.PositionAsWrittenWraps | Vectors.Erase |
| advanced-vector/vector.h:334 | `Emplace` stores `pos - begin()` in a 32-bit `int` | a vector with more than 2^31 elements, emplacing at offset 2^31: the new element is constructed at a negative offset | keep the full offset (`size_t` or `ptrdiff_t`) | not executed; conversion is implementation-defined before C++20 and modulo 2^32 from C++20 | VectorProperties.PositionAsWrittenWraps | Vectors.Emplace |
