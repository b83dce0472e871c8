/**
 * `ywen::vector<_Ty>`: a growable array that owns a buffer of `capacity`
 * slots, of which the first `size` hold its elements. Every mutating call
 * builds a complete replacement buffer first and commits it (buffer, then
 * capacity, then size) only after every element copy has succeeded, so a
 * call whose allocation or element copy throws leaves the vector exactly as
 * it was. (A destructor that throws while the old buffer is freed is not
 * modelled.)
 */
module DynamicArray {
  import opened Wrappers
  import opened Failures
  import opened Splice
  import opened Growth
  import opened Rebuild

  class Vector<T(0)> {
    /** `m_size`: the number of elements. */
    var size: nat
    /** `m_capacity`: the number of slots in the buffer. */
    var capacity: nat
    /** `m_vec`: the owned buffer (a buffer of length 0 stands for `nullptr`). */
    var buffer: array<T>
    /** The elements, in order. */
    ghost var Contents: seq<T>

    /** The object invariant: `m_size <= m_capacity`, the buffer has
        `m_capacity` slots, and its first `m_size` slots are the elements. */
    ghost predicate Valid()
      reads this, buffer
    {
      && size <= capacity
      && buffer.Length == capacity
      && Contents == buffer[..size]
    }

    /** The default constructor: no elements, no slots. */
    constructor ()
      ensures Valid() && fresh(buffer)
      ensures size == 0 && capacity == 0 && Contents == []
    {
      size, capacity := 0, 0;
      buffer := new T[0];
      Contents := [];
    }

    /** The initializer-list constructor: a buffer of exactly `|init|` slots
        holding copies of `init` in order. If the allocation or a copy throws,
        no vector comes into existence. An empty list allocates nothing. */
    static method FromList(init: seq<T>, faults: Faults<T>) returns (outcome: Outcome, v: Vector?<T>)
      ensures outcome == OutcomeOf(faults, |init| > 0, init)
      ensures outcome.Done? ==>
        && v != null && fresh(v) && fresh(v.buffer) && v.Valid()
        && v.Contents == init && v.size == |init| && v.capacity == |init|
      ensures outcome.Thrown? ==> v == null
    {
      var count := |init|;
      if count == 0 {
        v := new Vector();
        return Done, v;
      }
      if faults.allocFails {
        return Thrown(AllocationFailed), null;
      }
      var newBuffer := new T[count];
      var i := 0;
      while i < count
        invariant 0 <= i <= count
        invariant newBuffer[..i] == init[..i]
        invariant OutcomeOf(faults, true, init) == FirstCopyFault(faults, init, i)
      {
        if CopyThrows(faults, i, init[i]) {
          return Thrown(CopyFailed(i)), null;
        }
        newBuffer[i] := init[i];
        i := i + 1;
      }
      assert newBuffer[..] == init;
      v := new Vector();
      v.buffer := newBuffer;
      v.size := count;
      v.capacity := count;
      v.Contents := init;
      outcome := Done;
    }

    /** `insert(index, value)`: build a buffer of the new capacity holding the
        elements with `value` spliced in at `index`, then commit it (buffer,
        capacity, size). If the allocation or a copy throws, nothing changes. */
    method Insert(index: nat, value: T, faults: Faults<T>) returns (outcome: Outcome)
      requires Valid()
      requires index <= size
      modifies this
      ensures Valid()
      ensures outcome == OutcomeOf(faults, true, InsertCopies(old(Contents), index, value))
      ensures outcome.Done? ==>
        && Contents == Inserted(old(Contents), index, value)
        && size == old(size) + 1
        && capacity == NextCapacity(old(size), old(capacity))
        && fresh(buffer)
      ensures outcome.Thrown? ==>
        && size == old(size) && capacity == old(capacity)
        && buffer == old(buffer) && Contents == old(Contents)
    {
      var newCapacity := NextCapacity(size, capacity);
      var newSize := size + 1;
      if faults.allocFails {
        return Thrown(AllocationFailed);
      }
      var newBuffer := new T[newCapacity];
      outcome := FillInserted(buffer[..size], index, value, newBuffer, faults);
      if outcome.Done? {
        buffer := newBuffer;
        capacity := newCapacity;
        size := newSize;
        Contents := Inserted(Contents, index, value);
      }
    }

    /** The copy loops of `insert`: into `dst`, the elements `src` before
        `index` in place, those from `index` on shifted up by one (from the
        top down), then `value` at `index`; stop at the first copy that
        throws. */
    static method FillInserted(src: seq<T>, index: nat, value: T, dst: array<T>, faults: Faults<T>)
      returns (outcome: Outcome)
      requires index <= |src| < dst.Length
      modifies dst
      ensures outcome == OutcomeOf(faults, false, InsertCopies(src, index, value))
      ensures outcome.Done? ==> dst[..|src| + 1] == Inserted(src, index, value)
      ensures outcome.Done? ==>
        ApplyWrites(old(dst[..|src| + 1]), InsertWrites(src, index, value)) == Some(dst[..|src| + 1])
    {
      var size := |src|;
      ghost var plan := InsertCopies(src, index, value);
      forall k | 0 <= k <= size
        ensures plan[k] == if k < index then src[k] else if k < size then src[size - 1 - (k - index)] else value
      {
        InsertCopyAt(src, index, value, k);
      }
      outcome := CopyLeftPart(src, index, dst, faults, plan);
      if outcome.Thrown? {
        return;
      }
      outcome := ShiftRightPartUp(src, index, dst, faults, plan);
      if outcome.Thrown? {
        return;
      }
      if CopyThrows(faults, size, value) {
        return Thrown(CopyFailed(size));
      }
      dst[index] := value;
      assert dst[..size + 1] == Inserted(src, index, value);
      InsertWritesMakeInserted(src, index, value, old(dst[..size + 1]));
    }

    /** The first copy loop of `insert` and of `erase`: copies 0 to
        `index` - 1 put the elements before `index` into the same slots of
        `dst`; stop at the first copy that throws. Slots from `index` on are
        left alone. */
    static method CopyLeftPart(src: seq<T>, index: nat, dst: array<T>, faults: Faults<T>, ghost plan: seq<T>)
      returns (outcome: Outcome)
      requires index <= |src| && index <= dst.Length && index <= |plan|
      requires forall k :: 0 <= k < index ==> plan[k] == src[k]
      modifies dst
      ensures outcome.Thrown? ==> outcome == FirstCopyFault(faults, plan, 0)
      ensures outcome.Done? ==> FirstCopyFault(faults, plan, 0) == FirstCopyFault(faults, plan, index)
      ensures outcome.Done? ==> forall j :: 0 <= j < index ==> dst[j] == src[j]
      ensures forall j :: index <= j < dst.Length ==> dst[j] == old(dst[j])
    {
      var i := 0;
      while i < index
        invariant 0 <= i <= index
        invariant forall j :: 0 <= j < i ==> dst[j] == src[j]
        invariant forall j :: index <= j < dst.Length ==> dst[j] == old(dst[j])
        invariant FirstCopyFault(faults, plan, 0) == FirstCopyFault(faults, plan, i)
      {
        if CopyThrows(faults, i, src[i]) {
          return Thrown(CopyFailed(i));
        }
        dst[i] := src[i];
        i := i + 1;
      }
      outcome := Done;
    }

    /** The second copy loop of `insert`: from the top down, copies `index`
        to `|src|` - 1 move the elements from `index` on one slot up in
        `dst`; stop at the first copy that throws. Slots up to `index` are
        left alone. */
    static method ShiftRightPartUp(src: seq<T>, index: nat, dst: array<T>, faults: Faults<T>, ghost plan: seq<T>)
      returns (outcome: Outcome)
      requires index <= |src| < dst.Length && |src| <= |plan|
      requires forall k :: index <= k < |src| ==> plan[k] == src[|src| - 1 - (k - index)]
      modifies dst
      ensures outcome.Thrown? ==> outcome == FirstCopyFault(faults, plan, index)
      ensures outcome.Done? ==> FirstCopyFault(faults, plan, index) == FirstCopyFault(faults, plan, |src|)
      ensures outcome.Done? ==> forall j :: index < j <= |src| ==> dst[j] == src[j - 1]
      ensures forall j :: 0 <= j <= index ==> dst[j] == old(dst[j])
    {
      var size := |src|;
      var i := size;
      while i > index
        invariant index <= i <= size
        invariant forall j :: i < j <= size ==> dst[j] == src[j - 1]
        invariant forall j :: 0 <= j <= index ==> dst[j] == old(dst[j])
        invariant FirstCopyFault(faults, plan, index) == FirstCopyFault(faults, plan, index + (size - i))
      {
        var step := index + (size - i);
        if CopyThrows(faults, step, src[i - 1]) {
          return Thrown(CopyFailed(step));
        }
        dst[i] := src[i - 1];
        i := i - 1;
      }
      outcome := Done;
    }

    /** `erase(index)`: erasing the last element only shrinks the size;
        otherwise build a buffer of the same capacity holding the other
        elements in order, then commit it. The capacity never changes; if the
        allocation or a copy throws, nothing changes. */
    method Erase(index: nat, faults: Faults<T>) returns (outcome: Outcome)
      requires Valid()
      requires index < size
      modifies this
      ensures Valid()
      ensures capacity == old(capacity)
      ensures outcome ==
        if index == old(size) - 1 then Done
        else OutcomeOf(faults, true, EraseCopies(old(Contents), index))
      ensures outcome.Done? ==>
        && Contents == Removed(old(Contents), index)
        && size == old(size) - 1
      ensures outcome.Thrown? ==>
        && size == old(size) && buffer == old(buffer) && Contents == old(Contents)
      ensures index == old(size) - 1 ==> buffer == old(buffer) && buffer[..] == old(buffer[..])
    {
      var newSize := size - 1;
      if index != size - 1 {
        if faults.allocFails {
          return Thrown(AllocationFailed);
        }
        var newBuffer := new T[capacity];
        outcome := FillErased(buffer[..size], index, newBuffer, faults);
        if outcome.Thrown? {
          return;
        }
        buffer := newBuffer;
      }
      size := newSize;
      Contents := Removed(Contents, index);
      outcome := Done;
    }

    /** The copy loops of `erase`: into `dst`, the elements `src` before
        `index` in place and those after it shifted down by one; stop at the
        first copy that throws. */
    static method FillErased(src: seq<T>, index: nat, dst: array<T>, faults: Faults<T>)
      returns (outcome: Outcome)
      requires index < |src| <= dst.Length
      modifies dst
      ensures outcome == OutcomeOf(faults, false, EraseCopies(src, index))
      ensures outcome.Done? ==> dst[..|src| - 1] == Removed(src, index)
      ensures outcome.Done? ==>
        ApplyWrites(old(dst[..|src| - 1]), EraseWrites(src, index)) == Some(dst[..|src| - 1])
    {
      ghost var plan := EraseCopies(src, index);
      forall k | 0 <= k < |src| - 1
        ensures plan[k] == if k < index then src[k] else src[k + 1]
      {
        EraseCopyAt(src, index, k);
      }
      outcome := CopyLeftPart(src, index, dst, faults, plan);
      if outcome.Thrown? {
        return;
      }
      outcome := ShiftRightPartDown(src, index, dst, faults, plan);
      if outcome.Thrown? {
        return;
      }
      assert dst[..|src| - 1] == Removed(src, index);
      EraseWritesMakeRemoved(src, index, old(dst[..|src| - 1]));
    }

    /** The second copy loop of `erase`: copies `index` to `|src|` - 2 move
        the elements after `index` one slot down in `dst`; stop at the first
        copy that throws. Slots before `index` are left alone. */
    static method ShiftRightPartDown(src: seq<T>, index: nat, dst: array<T>, faults: Faults<T>, ghost plan: seq<T>)
      returns (outcome: Outcome)
      requires index < |src| <= dst.Length && |src| - 1 <= |plan|
      requires forall k :: index <= k < |src| - 1 ==> plan[k] == src[k + 1]
      modifies dst
      ensures outcome.Thrown? ==> outcome == FirstCopyFault(faults, plan, index)
      ensures outcome.Done? ==> FirstCopyFault(faults, plan, index) == FirstCopyFault(faults, plan, |src| - 1)
      ensures outcome.Done? ==> forall j :: index <= j < |src| - 1 ==> dst[j] == src[j + 1]
      ensures forall j :: 0 <= j < index ==> dst[j] == old(dst[j])
    {
      var newSize := |src| - 1;
      var i := index;
      while i < newSize
        invariant index <= i <= newSize
        invariant forall j :: index <= j < i ==> dst[j] == src[j + 1]
        invariant forall j :: 0 <= j < index ==> dst[j] == old(dst[j])
        invariant FirstCopyFault(faults, plan, index) == FirstCopyFault(faults, plan, i)
      {
        if CopyThrows(faults, i, src[i + 1]) {
          return Thrown(CopyFailed(i));
        }
        dst[i] := src[i + 1];
        i := i + 1;
      }
      outcome := Done;
    }

    /** `push_back(value)`: `insert(size(), value)`, which appends. */
    method PushBack(value: T, faults: Faults<T>) returns (outcome: Outcome)
      requires Valid()
      modifies this
      ensures Valid()
      ensures outcome == OutcomeOf(faults, true, InsertCopies(old(Contents), old(size), value))
      ensures outcome.Done? ==>
        && Contents == old(Contents) + [value]
        && size == old(size) + 1
        && capacity == NextCapacity(old(size), old(capacity))
      ensures outcome.Thrown? ==>
        && size == old(size) && capacity == old(capacity)
        && buffer == old(buffer) && Contents == old(Contents)
    {
      outcome := Insert(size, value, faults);
      InsertedAtEnd(old(Contents), value);
    }

    /** `pop_back()`: `erase(size() - 1)`, which takes the fast path, so it
        copies nothing, cannot throw and keeps the buffer. */
    method PopBack()
      requires Valid()
      requires size > 0
      modifies this
      ensures Valid()
      ensures Contents == old(Contents)[..old(size) - 1] && size == old(size) - 1
      ensures capacity == old(capacity) && buffer == old(buffer)
    {
      var outcome := Erase(size - 1, NoFaults());
      RemovedAtEnd(old(Contents));
    }

    /** `size()`. */
    function Size(): (n: nat)
      reads this, buffer
      requires Valid()
      ensures n == |Contents|
    {
      size
    }

    /** `capacity()`: never less than the number of elements. */
    function Capacity(): (c: nat)
      reads this, buffer
      requires Valid()
      ensures |Contents| <= c && c == buffer.Length
    {
      capacity
    }

    /** `empty()`. */
    function Empty(): (e: bool)
      reads this, buffer
      requires Valid()
      ensures e <==> Contents == []
    {
      size == 0
    }

    /** `at(i)` and `operator[](i)`: the i-th element. */
    function At(i: nat): (x: T)
      reads this, buffer
      requires Valid()
      requires i < size
      ensures x == Contents[i]
    {
      buffer[i]
    }

    /** `data()`, read only: the live prefix of the buffer. */
    function Data(): (d: seq<T>)
      reads this, buffer
      requires Valid()
      ensures d == Contents
    {
      buffer[..size]
    }
  }
}
