/**
 * The order in which `erase` commits its replacement buffer, with the three
 * fields of the vector as plain values. The source swaps the buffer in,
 * frees the old buffer with `delete[]` (which runs `_Ty`'s destructors, and
 * a destructor declared `noexcept(false)` may throw), and only then sets the
 * size. `freeThrows` says whether that `delete[]` throws.
 */
module Release {
  import opened Wrappers
  import opened Splice
  import opened Rebuild

  /** `m_size`, `m_capacity` and the slots of `m_vec`. */
  datatype Fields<T> = Fields(size: nat, capacity: nat, buffer: seq<T>)

  /** `m_size <= m_capacity` and the buffer has `m_capacity` slots. */
  predicate Consistent<T>(f: Fields<T>)
  {
    f.size <= f.capacity && |f.buffer| == f.capacity
  }

  /** The elements the fields present: the first `size` slots. */
  function Live<T>(f: Fields<T>): (r: seq<T>)
    requires Consistent(f)
    ensures |r| == f.size
  {
    f.buffer[..f.size]
  }

  /** The replacement buffer of `erase(index)`: the remaining elements in
      order, then fresh slots up to the unchanged capacity. */
  function ErasedBuffer<T>(f: Fields<T>, index: nat, blank: T): (r: seq<T>)
    requires Consistent(f) && index < f.size
    ensures |r| == f.capacity
    ensures r[..f.size - 1] == Removed(Live(f), index)
    ensures forall j :: f.size - 1 <= j < |r| ==> r[j] == blank
  {
    Removed(Live(f), index) + seq(f.capacity - (f.size - 1), _ => blank)
  }

  /** The replacement buffer is what the writes of `erase(index)` leave in a
      freshly allocated buffer of `capacity` slots that each hold `blank`. */
  lemma ErasedBufferIsWritten<T>(f: Fields<T>, index: nat, blank: T)
    requires Consistent(f) && index < f.size
    ensures ApplyWrites(seq(f.capacity, _ => blank), EraseWrites(Live(f), index)) == Some(ErasedBuffer(f, index, blank))
  {
    var blanks := seq(f.capacity, _ => blank);
    EraseWritesFill(Live(f), index, blanks);
    assert blanks[f.size - 1..] == seq(f.capacity - (f.size - 1), _ => blank);
  }

  /** `erase(index)` as written. Erasing the last element only lowers the
      size. Otherwise the new buffer is swapped in, the old one is freed, and
      then the size is set; a throwing free skips that last step. */
  function AsWrittenEraseCommit<T>(f: Fields<T>, index: nat, blank: T, freeThrows: bool): (r: Fields<T>)
    requires Consistent(f) && index < f.size
    ensures Consistent(r) && r.capacity == f.capacity
    ensures r.size == f.size - 1 <==> index == f.size - 1 || !freeThrows
  {
    if index == f.size - 1 then f.(size := f.size - 1)
    else
      var swapped := f.(buffer := ErasedBuffer(f, index, blank));
      if freeThrows then swapped else swapped.(size := f.size - 1)
  }

  /** As written, a throwing free leaves the new buffer under the old size
      exactly when `erase` is off its fast path: the vector then presents the
      remaining elements followed by a fresh slot, which is neither the
      elements before the call nor those after it. On the fast path nothing
      is freed and the last element is dropped. */
  lemma AsWrittenThrowingFreeKeepsStaleSize<T>(f: Fields<T>, index: nat, blank: T)
    requires Consistent(f) && index < f.size
    ensures var g := AsWrittenEraseCommit(f, index, blank, true);
      && (g.size == f.size <==> index < f.size - 1)
      && (index < f.size - 1 ==> Live(g) == Removed(Live(f), index) + [blank])
      && (index == f.size - 1 ==> Live(g) == Removed(Live(f), index))
  {
    var g := AsWrittenEraseCommit(f, index, blank, true);
    if index < f.size - 1 {
      var e := ErasedBuffer(f, index, blank);
      assert g.buffer == e;
      assert e[..f.size] == e[..f.size - 1] + [e[f.size - 1]];
    } else {
      RemovedAtEnd(Live(f));
    }
  }

  /** `erase(0)` on {1, 2} with a throwing free: the vector then reads
      {2, x}, where x is the fresh slot (`blank`, here 0). */
  lemma EraseFromOneTwoWithThrowingFree()
    ensures Live(AsWrittenEraseCommit(Fields(2, 2, [1, 2]), 0, 0, true)) == [2, 0]
    ensures Live(AsWrittenEraseCommit(Fields(2, 2, [1, 2]), 0, 0, true)) != [1, 2]
    ensures Live(AsWrittenEraseCommit(Fields(2, 2, [1, 2]), 0, 0, true)) != [2]
  {
    AsWrittenThrowingFreeKeepsStaleSize(Fields(2, 2, [1, 2]), 0, 0);
  }

  /** `erase(index)` with the fields set before the old buffer is freed, so
      whether the free throws no longer matters. */
  function EraseCommit<T>(f: Fields<T>, index: nat, blank: T, freeThrows: bool): (r: Fields<T>)
    requires Consistent(f) && index < f.size
    ensures Consistent(r) && r.size == f.size - 1 && r.capacity == f.capacity
  {
    if index == f.size - 1 then f.(size := f.size - 1)
    else Fields(f.size - 1, f.capacity, ErasedBuffer(f, index, blank))
  }

  /** Setting the fields first, the vector holds the remaining elements with
      the same capacity whether or not freeing the old buffer throws. */
  lemma EraseCommitHoldsRemoved<T>(f: Fields<T>, index: nat, blank: T, freeThrows: bool)
    requires Consistent(f) && index < f.size
    ensures var g := EraseCommit(f, index, blank, freeThrows);
      && Consistent(g)
      && g.capacity == f.capacity
      && Live(g) == Removed(Live(f), index)
  {
    if index == f.size - 1 {
      RemovedAtEnd(Live(f));
    }
  }

  /** The two orders differ only when the free throws. */
  lemma EraseCommitsDifferOnlyOnThrowingFree<T>(f: Fields<T>, index: nat, blank: T)
    requires Consistent(f) && index < f.size
    ensures AsWrittenEraseCommit(f, index, blank, false) == EraseCommit(f, index, blank, false)
    ensures AsWrittenEraseCommit(f, index, blank, true) == EraseCommit(f, index, blank, true)
      <==> index == f.size - 1
  {
  }
}
