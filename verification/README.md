# A verified model of `ywen::vector<_Ty>`

This project models the growable array `ywen::vector<_Ty>` in Dafny. The
vector is a teaching example of exception-safe C++ (Error-Handling/Demo/vector/vector.hpp).

A vector keeps three pieces of state:

- `m_size`: the number of elements;
- `m_capacity`: the number of slots;
- `m_vec`: an owned buffer.

Each mutating call follows "build a replacement buffer, then commit":

- `insert(index, value)` allocates a new buffer. It copies the elements before `index` into it, then the elements from `index` on, shifted up by one slot and copied from the top down. Then it copies `value` into slot `index`. Only after every copy has succeeded does it swap the buffer in and set the capacity, then the size.
- `erase(index)` does the same with the elements after `index` shifted down. Erasing the last element takes a fast path that only decrements the size.
- `push_back` is `insert(size, value)`, and `pop_back` is `erase(size - 1)`.
- A full vector grows to `2 * capacity + 1` slots.

In C++, an allocation `new _Ty[n]` may throw `std::bad_alloc`, or whatever `_Ty`'s default constructor throws. `_Ty`'s copy assignment may throw anything. The model passes these failures into every mutating call as a `Faults` value (module `Failures`):

- whether the allocation fails (`AllocationFailed`, whichever of the two causes);
- for each copy ordinal of the call and the value copied, whether that copy throws.

Every mutating method returns an `Outcome`: `Done`, or `Thrown` with the allocation failure or the ordinal of the failing copy. Its contract states the following:

- which outcome arises, as a function of the faults and of the exact sequence of copies the source makes;
- on `Done`, the new elements, size and capacity;
- on `Thrown`, that size, capacity, buffer and elements are exactly as before.

This all-or-nothing guarantee covers allocation and copy failures only. A destructor that throws while `delete[]` frees the old buffer is the subject of the second finding below.

The vector itself is a class (`DynamicArray.Vector`) with these parts:

- `size` and `capacity` fields;
- an `array<T>` buffer;
- a ghost `Contents` sequence;
- a `Valid()` invariant: `size <= capacity`, the buffer has `capacity` slots, and its first `size` slots are `Contents`.

The copy loops are methods over the fresh array, proved against two specification functions:

- `Splice.Inserted`, for splicing a value in;
- `Splice.Removed`, for splicing an element out.

`Rebuild` describes the assignments `insert` and `erase` make, as lists of writes. It fixes the order of the copies the fault model counts. Running those writes on a buffer of the length `insert` allocates is what exposes the first finding below.

The write lists and the copy loops are tied together. `FillInserted` and `FillErased` ensure that, on success, the prefix they leave is exactly what their write list makes of the prefix the buffer held before. `Rebuild.InsertWritesMakeInserted` and `Rebuild.EraseWritesMakeRemoved` prove that this is the spliced sequence, whatever the buffer held.

`Release` models, on plain values, the order in which `erase` commits: off its fast path it swaps the buffer in, frees the old one, then sets the size. On the fast path it only sets the size.

The comment on `m_vec` at vector.hpp:127-131 states an invariant: the pointer is null exactly when the size is 0. The code does not keep it. `erase` of the last remaining element keeps the buffer (vector.hpp:289-293, 330), and so does `pop_back`. The model therefore uses the invariant of `m_size` and `m_capacity` instead (vector.hpp:114-125): `size <= capacity == buffer.Length`. A zero-length array stands for `nullptr`.

Files:

- `wrappers.dfy`: `Option`.
- `failures.dfy`: the fault model.
- `splice.dfy`: the abstract effect of `insert` and `erase`.
- `growth.dfy`: the capacity rule.
- `rebuild.dfy`: the replacement buffers.
- `release.dfy`: the commit order of `erase` when freeing the old buffer throws.
- `vector.dfy`: the class.
- `scenarios.dfy`: client code in the shape of the unit tests in Demo/vector/main.cpp.

## Model

| member | source | states |
|---|---|---|
| DynamicArray.Vector.Valid | Error-Handling/Demo/vector/vector.hpp:114-125 | The invariants of `m_size` and `m_capacity`: `size <= capacity`, the buffer has `capacity` slots, and its first `size` slots are the elements. |
| DynamicArray.Vector.constructor | Error-Handling/Demo/vector/vector.hpp:135-140 | The default constructor gives a valid vector with size 0, capacity 0 and no elements. |
| DynamicArray.Vector.FromList | Error-Handling/Demo/vector/vector.hpp:142-178 | The initializer-list constructor allocates exactly `count` slots (nothing for an empty list) and copies the list in order. It completes exactly when the allocation and every copy succeed; otherwise it throws the first failure and no vector exists. On success size == capacity == `count` and the elements are the list. |
| DynamicArray.Vector.Insert | Error-Handling/Demo/vector/vector.hpp:215-275 | For `index <= size`: the outcome is the first of allocation failure or first failing copy, in the source's copy order. On success the elements are the old ones with `value` spliced in at `index`, size grows by one and capacity becomes `NextCapacity` (never smaller, grown exactly when full). On a throw, size, capacity, buffer and elements are unchanged. |
| DynamicArray.Vector.FillInserted | Error-Handling/Demo/vector/vector.hpp:232-252 | The three copy steps of `insert` stop at the first copy that throws and report it. If none throws, the first `size + 1` slots of the new buffer are the spliced-in elements. They are also exactly what the write list `InsertWrites` makes of those slots' previous values. |
| DynamicArray.Vector.CopyLeftPart | Error-Handling/Demo/vector/vector.hpp:234-239 | Copies `0 .. index-1` put the elements before `index` into the same slots, or stop at the first throwing copy. The same loop appears in `erase` at lines 304-309. |
| DynamicArray.Vector.ShiftRightPartUp | Error-Handling/Demo/vector/vector.hpp:243-248 | The descending loop moves each element from `index` on one slot up, or stops at the first throwing copy. Slots up to `index` are untouched. |
| DynamicArray.Vector.Erase | Error-Handling/Demo/vector/vector.hpp:277-335 | For `index < size`: erasing the last element always completes and keeps the buffer and all its slots as they were. Otherwise the outcome is the first of allocation failure or first failing copy. On success the elements are the old ones with `index` spliced out and size drops by one. On a throw, size, buffer and elements are unchanged. Capacity never changes. |
| DynamicArray.Vector.FillErased | Error-Handling/Demo/vector/vector.hpp:302-318 | The two copy loops of `erase` stop at the first throwing copy and report it. If none throws, the first `size - 1` slots of the new buffer are the remaining elements in order. They are also exactly what the write list `EraseWrites` makes of those slots' previous values. |
| DynamicArray.Vector.ShiftRightPartDown | Error-Handling/Demo/vector/vector.hpp:313-318 | The ascending loop moves each element after `index` one slot down, or stops at the first throwing copy. Slots before `index` are untouched. |
| DynamicArray.Vector.PushBack | Error-Handling/Demo/vector/vector.hpp:201-206 | `push_back(v)` is `insert(size, v)`. On success it appends `v` and grows the capacity by the same rule; on a throw nothing changes. |
| DynamicArray.Vector.PopBack | Error-Handling/Demo/vector/vector.hpp:208-213 | On a non-empty vector, `pop_back()` is `erase(size - 1)`. It cannot throw, drops the last element and keeps capacity and buffer. |
| DynamicArray.Vector.Size | Error-Handling/Demo/vector/vector.hpp:337-342 | `size()` is the number of elements. |
| DynamicArray.Vector.Capacity | Error-Handling/Demo/vector/vector.hpp:344-349 | `capacity()` is the number of slots of the buffer and never less than the number of elements. |
| DynamicArray.Vector.Empty | Error-Handling/Demo/vector/vector.hpp:351-356 | `empty()` holds exactly when there are no elements. |
| DynamicArray.Vector.At | Error-Handling/Demo/vector/vector.hpp:358-387 | For `i < size`, `at(i)` and `operator[](i)` give the i-th element. |
| DynamicArray.Vector.Data | Error-Handling/Demo/vector/vector.hpp:389-401 | `data()`, read up to the size, is the elements in order. |
| Growth.GrownCapacity | Error-Handling/Demo/vector/vector.hpp:403-408 | `_get_new_capacity` always gives more slots than before, and an odd number of them. |
| Growth.NextCapacity | Error-Handling/Demo/vector/vector.hpp:225-226 | The capacity after `insert` has room for one more element and is never smaller than before. It equals the old capacity exactly when there was a free slot; otherwise it is `2 * capacity + 1`. |
| Growth.CapacityAfterPushes | Error-Handling/Demo/vector/vector.hpp:201-206 | After `n` pushes onto a default-constructed vector, the capacity holds at least `n` elements. |
| Growth.CapacityAfterPushesLaw | Error-Handling/Demo/vector/vector.hpp:403-408 | Growing from empty, the capacities are one less than a power of two (0, 1, 3, 7, ...). They are never below `n` and, for `n > 0`, below `2n`. |
| Failures.FirstCopyFault | Error-Handling/Demo/vector/vector.hpp:234-252 | Copies made in order that stop at the first exception: the result is Done, or the failure of one of the copies from the starting ordinal on. |
| Failures.OutcomeOf | Error-Handling/Demo/vector/vector.hpp:229-252 | A call that allocates and then copies: it throws from the allocation exactly when it allocates and the allocation fails; any copy failure it reports is one of its copies. |
| Failures.FirstCopyFaultIsFirst | Error-Handling/Demo/vector/vector.hpp:234-252 | A sequence of copies that stops at the first exception completes exactly when no copy throws. Otherwise it reports the lowest-numbered copy that throws. |
| Failures.OutcomeOfIsFirstFault | Error-Handling/Demo/vector/vector.hpp:229-252 | A call completes exactly when its allocation (if any) and all its copies succeed. It throws from `new _Ty[n]` (`std::bad_alloc`, or an exception of `_Ty`'s default constructor) exactly when its allocation fails. Otherwise it throws for the first failing copy. |
| Failures.NoFaultsNeverThrow | Error-Handling/Demo/vector/vector.hpp:229-230 | With memory available and copies that cannot throw, every call completes. |
| Splice.Inserted | Error-Handling/Demo/vector/vector.hpp:232-252 | Inserting `v` at `index` keeps the elements before `index` in place, puts `v` at `index`, moves the rest up by one and adds one to the length. |
| Splice.Removed | Error-Handling/Demo/vector/vector.hpp:302-318 | Erasing `index` keeps the elements before it in place, moves the rest down by one and takes one from the length. |
| Splice.InsertedAddsOne | Error-Handling/Demo/vector/vector.hpp:232-252 | Inserting adds exactly one occurrence of the value, as multisets. |
| Splice.RemovedTakesOne | Error-Handling/Demo/vector/vector.hpp:302-318 | Erasing removes exactly one occurrence of the erased element, as multisets. |
| Splice.RemovedInserted | Error-Handling/Demo/vector/vector.hpp:215-335 | `erase(i)` after `insert(i, v)` restores the elements. |
| Splice.InsertedRemoved | Error-Handling/Demo/vector/vector.hpp:215-335 | `insert(i, x)` after `erase(i)`, where `x` was the element at `i`, restores the elements. |
| Splice.InsertedAtEnd | Error-Handling/Demo/vector/vector.hpp:201-206 | Inserting at index `size` appends. |
| Splice.RemovedAtEnd | Error-Handling/Demo/vector/vector.hpp:208-213 | Erasing index `size - 1` drops the last element. |
| Rebuild.InsertWrites | Error-Handling/Demo/vector/vector.hpp:234-252 | The assignments of `insert`, in order: one per element plus one for the value. |
| Rebuild.EraseWrites | Error-Handling/Demo/vector/vector.hpp:304-318 | The assignments of `erase` off its fast path, in order: one per remaining element. |
| Rebuild.InsertCopies | Error-Handling/Demo/vector/vector.hpp:234-252 | The values `insert` copies, in the order the fault model numbers them: the elements before `index` upwards, then the elements from the last one down to `index`, then `value` last. |
| Rebuild.EraseCopies | Error-Handling/Demo/vector/vector.hpp:304-318 | The values `erase` copies off its fast path, in order, are exactly the remaining elements. |
| Rebuild.ApplyWrites | Error-Handling/Demo/vector/vector.hpp:238-252 | A list of assignments into a buffer fails exactly when one of them indexes past the end. Otherwise the buffer keeps its length. |
| Rebuild.ApplyWritesKeeps | Error-Handling/Demo/vector/vector.hpp:238-252 | A slot no assignment targets keeps its value. |
| Rebuild.ApplyWritesAt | Error-Handling/Demo/vector/vector.hpp:238-252 | With distinct in-range targets, each targeted slot ends up holding the value written to it. |
| Rebuild.InsertWriteInto | Error-Handling/Demo/vector/vector.hpp:243-248 | Each slot above `index` is written once by the descending loop, with the element just below it. |
| Rebuild.InsertWritesTargets | Error-Handling/Demo/vector/vector.hpp:234-252 | The assignments of `insert` target slots 0 to `size`, each exactly once. |
| Rebuild.InsertWritesFillAt | Error-Handling/Demo/vector/vector.hpp:234-252 | On a buffer with a slot beyond the last element, each assignment of `insert` lands and its value stays in its slot. |
| Rebuild.InsertWritesFillBeyond | Error-Handling/Demo/vector/vector.hpp:234-252 | Slots beyond `size` are untouched by the assignments of `insert`. |
| Rebuild.InsertWritesSlot | Error-Handling/Demo/vector/vector.hpp:234-252 | After the assignments of `insert`, slot `p` holds element `p` before `index`, the value at `index`, element `p - 1` up to `size`, and its old content beyond. |
| Rebuild.InsertWritesFill | Error-Handling/Demo/vector/vector.hpp:234-252 | On any buffer with a slot beyond the last element, the assignments of `insert` leave the spliced-in elements followed by the untouched slots. |
| Rebuild.InsertWritesMakeInserted | Error-Handling/Demo/vector/vector.hpp:234-252 | On a buffer of exactly `size + 1` slots, whatever it held, the assignments of `insert` leave exactly the spliced-in elements. |
| Rebuild.EraseWritesTargets | Error-Handling/Demo/vector/vector.hpp:304-318 | Assignment k of `erase` targets slot k, so no slot is written twice. |
| Rebuild.EraseWritesSlot | Error-Handling/Demo/vector/vector.hpp:304-318 | After the assignments of `erase`, slot `p` holds element `p` before `index`, element `p + 1` up to `size - 2`, and its old content beyond. |
| Rebuild.EraseWritesFill | Error-Handling/Demo/vector/vector.hpp:304-318 | On any buffer with room for the remaining elements, the assignments of `erase` leave them in order, followed by the untouched slots. |
| Rebuild.EraseWritesMakeRemoved | Error-Handling/Demo/vector/vector.hpp:304-318 | On a buffer of exactly `size - 1` slots, whatever it held, the assignments of `erase` leave exactly the remaining elements. |
| Rebuild.AsWrittenInsertBuffer | Error-Handling/Demo/vector/vector.hpp:229-252 | The replacement buffer of `insert` as written: `new _Ty[m_capacity]` with the capacity from before the call, filled by the assignments of `insert`. When all of them land, it has the old capacity's number of slots. |
| Rebuild.InsertBuffer | Error-Handling/Demo/vector/vector.hpp:225-252 | The replacement buffer of `insert` sized by the capacity after the call. When all assignments land, it has `NextCapacity` slots. |
| Rebuild.AsWrittenInsertOverflowsWhenFull | Error-Handling/Demo/vector/vector.hpp:229-252 | With the buffer sized by the old capacity, as written, `insert` indexes past the end exactly when the vector is full. |
| Rebuild.FirstInsertIntoEmptyOverflows | Error-Handling/Demo/vector/vector.hpp:229-252 | As written, `insert(0, 10)` on a default-constructed vector writes slot 0 of a zero-slot buffer. |
| Rebuild.InsertBufferHoldsInserted | Error-Handling/Demo/vector/vector.hpp:225-252 | Sized by the capacity after the call, every assignment of `insert` lands in the buffer. The buffer then has `NextCapacity` slots, and its first `size + 1` are the spliced-in elements. |
| Rebuild.EraseBufferHoldsRemoved | Error-Handling/Demo/vector/vector.hpp:298-318 | Sized by the unchanged capacity, every assignment of `erase` lands in the buffer, and its first `size - 1` slots are the remaining elements. |
| Release.Live | Error-Handling/Demo/vector/vector.hpp:114-132 | The elements a vector's fields present: as many as its size. |
| Release.ErasedBuffer | Error-Handling/Demo/vector/vector.hpp:298-318 | The replacement buffer of `erase` keeps the capacity, holds the remaining elements in order, and has fresh slots after them. |
| Release.ErasedBufferIsWritten | Error-Handling/Demo/vector/vector.hpp:300-318 | The replacement buffer is what the assignments of `erase` leave in a freshly allocated buffer of `m_capacity` default-constructed slots. |
| Release.AsWrittenEraseCommit | Error-Handling/Demo/vector/vector.hpp:289-330 | `erase` as written: the fast path only lowers the size; otherwise the new buffer is swapped in, the old one freed, and then the size set. The capacity is kept and the fields stay consistent; the size drops by one exactly when the call is on the fast path or the free does not throw. |
| Release.AsWrittenThrowingFreeKeepsStaleSize | Error-Handling/Demo/vector/vector.hpp:289-330 | As written, when freeing the old buffer throws, `erase` keeps the old size exactly when it is off its fast path. The vector then presents the remaining elements followed by a fresh slot. On the fast path nothing is freed and the last element is dropped. |
| Release.EraseFromOneTwoWithThrowingFree | Error-Handling/Demo/vector/vector.hpp:320-330 | `erase(0)` on {1, 2} with a throwing free leaves the vector reading {2, x}, x the default-constructed slot (0 in the lemma's instance). That is neither {1, 2} nor {2}. |
| Release.EraseCommitHoldsRemoved | Error-Handling/Demo/vector/vector.hpp:289-330 | If the size is set before the old buffer is freed, the vector holds exactly the remaining elements with the same capacity, whether or not the free throws. |
| Release.EraseCommit | Error-Handling/Demo/vector/vector.hpp:289-330 | `erase` with the size set before the old buffer is freed: the size drops by one and the capacity is kept, whether or not the free throws. |
| Release.EraseCommitsDifferOnlyOnThrowingFree | Error-Handling/Demo/vector/vector.hpp:289-330 | The as-written and the corrected commit agree when the free succeeds. When it throws, they agree exactly on the fast path. |
| Scenarios.DefaultConstructed | Demo/vector/main.cpp:7-16 | A default-constructed vector is empty, with size 0 and capacity 0. |
| Scenarios.ListReadBack | Demo/vector/main.cpp:18-40 | Constructing from any list, the empty one included, then reading `at(0)`, `at(1)`, ... gives back the list. The size and capacity are its length, and the vector is empty exactly when the list is. |
| Scenarios.InsertIntoEmpty | Demo/vector/main.cpp:44-51 | The first insert into an empty vector holds just that value, with capacity 1. |
| Scenarios.InsertIntoFourTens | Demo/vector/main.cpp:53-103 | Inserting 0 into {10, 10, 10, 10} at the head, middle, last position or tail puts the 0 exactly there and keeps the four 10s around it. |
| Scenarios.EraseFromOneToFour | Demo/vector/main.cpp:117-154 | Erasing any index of {1, 2, 3, 4} leaves the other three values in order. |
| Scenarios.EraseOnlyElement | Demo/vector/main.cpp:108-115 | Erasing the only element leaves an empty vector of size 0. |
| Scenarios.PushRange | Demo/vector/main.cpp:167-170 | Pushing `0 .. n-1` onto an empty vector gives exactly those elements. The capacity becomes `CapacityAfterPushes(n)` from 0, and is kept when it already held `n`. |
| Scenarios.PopTimes | Demo/vector/main.cpp:173-177 | Popping `n` times from `n` elements empties the vector and keeps the capacity. |
| Scenarios.RegularUse | Demo/vector/main.cpp:157-178 | Two rounds of pushing `n` values and popping them all: each round reaches size `n` and ends empty. The second round reuses the capacity of the first without growing. |

## Left out

- Heap mechanics are reduced to the `Faults` parameter and the `Outcome` result. Left out are the exception objects, the release-on-throw of `std::unique_ptr` and the `delete[]` of the old buffer (vector.hpp:264, 327): Dafny is garbage-collected. `DynamicArray.Vector` has no free step, so its methods commit as `Release.EraseCommit` does.
- A destructor declared `noexcept(false)` that throws inside `delete[]` is modelled only in `Release`, and only for `erase`. The same happens in `insert`: the exception leaves after the buffer swap (vector.hpp:258) and before `m_capacity` and `m_size` are set (vector.hpp:268-269). The vector then holds the new buffer under the old size and capacity, contrary to the comment at vector.hpp:260-263. That case of `insert` is not modelled.
- The destructor (vector.hpp:180-199) is not modelled: Dafny has no destructors.
- The exception object a failing copy raises is not modelled; only the ordinal of the failing copy is recorded.
- `data()` returns a raw pointer through which callers may alias and write the buffer. The model only reads the live prefix. The `const_cast` of the non-const `at` (vector.hpp:358-363) and the non-const `operator[]` returning a writable reference are not modelled: both read.
- `m_size` and `m_capacity` are `unsigned int` and the arithmetic is `size_t`. The model uses unbounded `nat`, so the wrap-around of `capacity * 2 + 1` (vector.hpp:407) and the narrowing into `unsigned int` are not modelled.
- Index preconditions are `requires`: `index <= size` for `insert`, `index < size` for `erase` and `at`, and a non-empty vector for `pop_back`. The source only `assert`s them (vector.hpp:219-220, 281-283, 369-370), so a release build would wrap `m_size - 1` on an empty `pop_back` (vector.hpp:212).
- For an empty initializer list, the source returns before initialising `m_size`, `m_capacity` and `m_vec` (vector.hpp:147-153), and its `assert`s read those uninitialised members. The model gives the empty state of the default constructor.
- The null-pointer invariant stated in the comment at vector.hpp:127-131 is not modelled, because the code does not keep it; see above.
- DynamicArray.Vector.FillInserted and DynamicArray.Vector.FillErased: these take the old elements as a sequence (`buffer[..size]`), not the old array. The model therefore does not capture reading `m_vec` while the new buffer is being written. The two buffers are distinct objects in both the source and the model.
- DynamicArray.Vector.Insert allocates `NextCapacity` slots, not the `m_capacity` slots of vector.hpp:230. This is the corrected behaviour of the first finding below; the as-written buffer is modelled in `Rebuild.AsWrittenInsertBuffer`.

## Findings

| source | as written | input that shows it | evidently intended | confidence | as-written member | corrected member |
|---|---|---|---|---|---|---|
| Error-Handling/Demo/vector/vector.hpp:225-252 | `insert` computes `new_capacity` but allocates `new _Ty[m_capacity]`, the capacity from before the call. Its copies write slots up to `m_size`. | Any insert into a full vector, for instance the first `insert(0, 10)` on a default-constructed vector (Demo/vector/main.cpp:45-47): it writes `new_vec[0]` into a buffer of 0 slots. | Allocate `new _Ty[new_capacity]`, so that every write lands in the buffer and the committed `m_capacity` matches the buffer's length. | not executed | Rebuild.AsWrittenInsertOverflowsWhenFull | Rebuild.InsertBufferHoldsInserted |
| Error-Handling/Demo/vector/vector.hpp:320-330 | `erase` swaps the new buffer in, then runs `delete[]` on the old one, and only then sets `m_size`. The comment at vector.hpp:323-326 says that if `delete[]` throws, the size and capacity stay correct. | `erase(0)` on {1, 2} of a type whose destructor is `noexcept(false)` and throws. The vector keeps size 2 over the new buffer and reads {2, x}, where x is a default-constructed slot. | Set `m_size` (and, in `insert`, `m_capacity`) before freeing the old buffer, so a throwing destructor leaves the new, consistent state. | not executed | Release.EraseFromOneTwoWithThrowingFree | Release.EraseCommitHoldsRemoved |
