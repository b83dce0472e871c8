/**
 * The assignments `insert` and `erase` make into their replacement buffer,
 * as a list of writes, and what those writes leave in a buffer of a given
 * length. The list fixes the order of the element copies (which the fault
 * model counts) and the slots they land in; running it on a buffer of the
 * length the source allocates shows where `insert` writes past the end.
 */
module Rebuild {
  import opened Wrappers
  import opened Splice
  import opened Growth

  /** One assignment `new_vec[pos] = val`. */
  datatype Write<T> = Write(pos: nat, val: T)

  /** The values copied by a list of writes, in order. */
  function Values<T>(w: seq<Write<T>>): (r: seq<T>)
    ensures |r| == |w|
  {
    seq(|w|, k requires 0 <= k < |w| => w[k].val)
  }

  /** The writes of `insert(index, v)` on elements `s`: the left part upwards,
      then the right part from the top down, each shifted up by one, then `v`. */
  function InsertWrites<T>(s: seq<T>, index: nat, v: T): (w: seq<Write<T>>)
    requires index <= |s|
    ensures |w| == |s| + 1
  {
    seq(index, k requires 0 <= k < index => Write(k, s[k]))
    + seq(|s| - index, j requires 0 <= j < |s| - index => Write(|s| - j, s[|s| - 1 - j]))
    + [Write(index, v)]
  }

  /** The k-th write of `insert(index, v)`: copy k of the left part, copy
      k - index of the descending right part, or finally the value itself. */
  lemma InsertWriteAt<T>(s: seq<T>, index: nat, v: T, k: nat)
    requires index <= |s| && k <= |s|
    ensures InsertWrites(s, index, v)[k] ==
      if k < index then Write(k, s[k])
      else if k < |s| then Write(|s| - (k - index), s[|s| - 1 - (k - index)])
      else Write(index, v)
  {
  }

  /** Slot `p` above `index` is written by copy `index + |s| - p` of
      `insert(index, v)`, with the element below it. */
  lemma InsertWriteInto<T>(s: seq<T>, index: nat, v: T, p: nat)
    requires index < p <= |s|
    ensures InsertWrites(s, index, v)[index + |s| - p] == Write(p, s[p - 1])
  {
    InsertWriteAt(s, index, v, index + |s| - p);
  }

  /** The writes of `erase(index)` off its fast path: the left part in place,
      then the right part shifted down by one, both upwards. */
  function EraseWrites<T>(s: seq<T>, index: nat): (w: seq<Write<T>>)
    requires index < |s|
    ensures |w| == |s| - 1
  {
    seq(|s| - 1, k requires 0 <= k < |s| - 1 => if k < index then Write(k, s[k]) else Write(k, s[k + 1]))
  }

  /** The k-th write of `erase(index)`: slot k receives element k before
      `index` and element k + 1 from `index` on. */
  lemma EraseWriteAt<T>(s: seq<T>, index: nat, k: nat)
    requires index < |s| && k < |s| - 1
    ensures EraseWrites(s, index)[k] == if k < index then Write(k, s[k]) else Write(k, s[k + 1])
  {
  }

  /** The values `insert(index, v)` copies, in the order it copies them:
      the elements before `index` upwards, then the elements from the last
      one down to `index`, then `v` last. */
  function InsertCopies<T>(s: seq<T>, index: nat, v: T): (c: seq<T>)
    requires index <= |s|
    ensures |c| == |s| + 1
    ensures c[..index] == s[..index]
    ensures forall k :: index <= k < |s| ==> c[k] == s[|s| - 1 - (k - index)]
    ensures c[|s|] == v
  {
    Values(InsertWrites(s, index, v))
  }

  /** Copy k of `insert(index, v)`: element k while copying the left part,
      then the elements from the last one down to `index`, then `v`. */
  lemma InsertCopyAt<T>(s: seq<T>, index: nat, v: T, k: nat)
    requires index <= |s| && k <= |s|
    ensures InsertCopies(s, index, v)[k] ==
      if k < index then s[k] else if k < |s| then s[|s| - 1 - (k - index)] else v
  {
    InsertWriteAt(s, index, v, k);
  }

  /** The values `erase(index)` copies off its fast path, in order: exactly
      the elements that remain. */
  function EraseCopies<T>(s: seq<T>, index: nat): (c: seq<T>)
    requires index < |s|
    ensures c == Removed(s, index)
  {
    Values(EraseWrites(s, index))
  }

  /** Copy k of `erase(index)`. */
  lemma EraseCopyAt<T>(s: seq<T>, index: nat, k: nat)
    requires index < |s| && k < |s| - 1
    ensures EraseCopies(s, index)[k] == if k < index then s[k] else s[k + 1]
  {
    EraseWriteAt(s, index, k);
  }

  /** The buffer `buf` after the writes `w` in order, or None as soon as a
      write lands outside it. */
  function ApplyWrites<T>(buf: seq<T>, w: seq<Write<T>>): (r: Option<seq<T>>)
    ensures r.None? <==> exists k :: 0 <= k < |w| && w[k].pos >= |buf|
    ensures r.Some? ==> |r.value| == |buf|
    decreases |w|
  {
    if w == [] then Some(buf)
    else if w[0].pos >= |buf| then None
    else
      var r := ApplyWrites(buf[w[0].pos := w[0].val], w[1..]);
      assert forall k :: 1 <= k < |w| ==> w[k] == w[1..][k - 1];
      r
  }

  /** A slot that no write targets keeps its value. */
  lemma {:induction false} ApplyWritesKeeps<T>(buf: seq<T>, w: seq<Write<T>>, p: nat)
    requires p < |buf|
    requires forall k :: 0 <= k < |w| ==> w[k].pos != p
    requires ApplyWrites(buf, w).Some?
    ensures ApplyWrites(buf, w).value[p] == buf[p]
    decreases |w|
  {
    if w != [] {
      ApplyWritesKeeps(buf[w[0].pos := w[0].val], w[1..], p);
    }
  }

  /** When the writes target distinct slots, each slot written ends up holding
      the value written to it. */
  lemma {:induction false} ApplyWritesAt<T>(buf: seq<T>, w: seq<Write<T>>, k: nat)
    requires k < |w|
    requires forall i :: 0 <= i < |w| ==> w[i].pos < |buf|
    requires forall i, j :: 0 <= i < j < |w| ==> w[i].pos != w[j].pos
    ensures ApplyWrites(buf, w).Some?
    ensures ApplyWrites(buf, w).value[w[k].pos] == w[k].val
    decreases |w|
  {
    var buf' := buf[w[0].pos := w[0].val];
    if k == 0 {
      ApplyWritesKeeps(buf', w[1..], w[0].pos);
    } else {
      ApplyWritesAt(buf', w[1..], k - 1);
    }
  }

  /** The writes of `insert` target the slots 0 to `|s|`, each exactly once. */
  lemma InsertWritesTargets<T>(s: seq<T>, index: nat, v: T)
    requires index <= |s|
    ensures var w := InsertWrites(s, index, v);
      && (forall i :: 0 <= i < |w| ==> w[i].pos <= |s|)
      && (forall i, j :: 0 <= i < j < |w| ==> w[i].pos != w[j].pos)
  {
    var w := InsertWrites(s, index, v);
    forall i | 0 <= i < |w| ensures w[i].pos <= |s| {
      InsertWriteAt(s, index, v, i);
    }
    forall i, j | 0 <= i < j < |w| ensures w[i].pos != w[j].pos {
      InsertWriteAt(s, index, v, i);
      InsertWriteAt(s, index, v, j);
    }
  }

  /** Slot `p` of a buffer after the writes of `insert`, when a write
      targets it: the value of write `k`. */
  lemma InsertWritesFillAt<T>(s: seq<T>, index: nat, v: T, buf: seq<T>, k: nat)
    requires index <= |s| < |buf| && k <= |s|
    ensures ApplyWrites(buf, InsertWrites(s, index, v)).Some?
    ensures ApplyWrites(buf, InsertWrites(s, index, v)).value[InsertWrites(s, index, v)[k].pos] ==
      InsertWrites(s, index, v)[k].val
  {
    InsertWritesTargets(s, index, v);
    ApplyWritesAt(buf, InsertWrites(s, index, v), k);
  }

  /** Slots beyond `|s|` are untouched by the writes of `insert`. */
  lemma InsertWritesFillBeyond<T>(s: seq<T>, index: nat, v: T, buf: seq<T>, p: nat)
    requires index <= |s| < p < |buf|
    ensures ApplyWrites(buf, InsertWrites(s, index, v)).Some?
    ensures ApplyWrites(buf, InsertWrites(s, index, v)).value[p] == buf[p]
  {
    InsertWritesFillAt(s, index, v, buf, 0);
    InsertWritesTargets(s, index, v);
    ApplyWritesKeeps(buf, InsertWrites(s, index, v), p);
  }

  /** Slot `p` of a buffer after the writes of `insert`: element `p` before
      `index`, `v` at `index`, element `p - 1` up to `|s|`, and untouched
      beyond. */
  lemma InsertWritesSlot<T>(s: seq<T>, index: nat, v: T, buf: seq<T>, p: nat)
    requires index <= |s| < |buf| && p < |buf|
    ensures ApplyWrites(buf, InsertWrites(s, index, v)).Some?
    ensures ApplyWrites(buf, InsertWrites(s, index, v)).value[p] ==
      if p < index then s[p] else if p == index then v else if p <= |s| then s[p - 1] else buf[p]
  {
    var n := |s|;
    if p < index {
      InsertWriteAt(s, index, v, p);
      InsertWritesFillAt(s, index, v, buf, p);
    } else if p == index {
      InsertWriteAt(s, index, v, n);
      InsertWritesFillAt(s, index, v, buf, n);
    } else if p <= n {
      InsertWriteInto(s, index, v, p);
      InsertWritesFillAt(s, index, v, buf, index + n - p);
    } else {
      InsertWritesFillBeyond(s, index, v, buf, p);
    }
  }

  /** On any buffer with a slot beyond the last element, the writes of
      `insert` all land and leave the elements with `v` spliced in at
      `index` in front of the slots they do not reach. */
  lemma InsertWritesFill<T>(s: seq<T>, index: nat, v: T, buf: seq<T>)
    requires index <= |s| < |buf|
    ensures ApplyWrites(buf, InsertWrites(s, index, v)) == Some(Inserted(s, index, v) + buf[|s| + 1..])
  {
    var g := Inserted(s, index, v) + buf[|s| + 1..];
    InsertWritesSlot(s, index, v, buf, 0);
    var r := ApplyWrites(buf, InsertWrites(s, index, v)).value;
    forall p | 0 <= p < |buf| ensures r[p] == g[p] {
      InsertWritesSlot(s, index, v, buf, p);
    }
    assert r == g;
  }

  /** Whatever a buffer of `|s| + 1` slots held, the writes of `insert`
      overwrite every slot and leave exactly the spliced-in elements. */
  lemma InsertWritesMakeInserted<T>(s: seq<T>, index: nat, v: T, buf: seq<T>)
    requires index <= |s| && |buf| == |s| + 1
    ensures ApplyWrites(buf, InsertWrites(s, index, v)) == Some(Inserted(s, index, v))
  {
    InsertWritesFill(s, index, v, buf);
    assert Inserted(s, index, v) + buf[|s| + 1..] == Inserted(s, index, v);
  }

  /** Write k of `erase` targets slot k, so no slot is written twice. */
  lemma EraseWritesTargets<T>(s: seq<T>, index: nat)
    requires index < |s|
    ensures forall i :: 0 <= i < |s| - 1 ==> EraseWrites(s, index)[i].pos == i
  {
    forall i | 0 <= i < |s| - 1 ensures EraseWrites(s, index)[i].pos == i {
      EraseWriteAt(s, index, i);
    }
  }

  /** Slot `p` of a buffer after the writes of `erase`: element `p` before
      `index`, element `p + 1` up to `|s| - 2`, and untouched beyond. */
  lemma EraseWritesSlot<T>(s: seq<T>, index: nat, buf: seq<T>, p: nat)
    requires index < |s| && |s| - 1 <= |buf| && p < |buf|
    ensures ApplyWrites(buf, EraseWrites(s, index)).Some?
    ensures ApplyWrites(buf, EraseWrites(s, index)).value[p] ==
      if p < index then s[p] else if p < |s| - 1 then s[p + 1] else buf[p]
  {
    var w := EraseWrites(s, index);
    EraseWritesTargets(s, index);
    assert ApplyWrites(buf, w).Some?;
    if p < |s| - 1 {
      EraseWriteAt(s, index, p);
      ApplyWritesAt(buf, w, p);
    } else {
      ApplyWritesKeeps(buf, w, p);
    }
  }

  /** On any buffer with room for the remaining elements, the writes of
      `erase` all land and leave those elements in order in front of the
      slots they do not reach. */
  lemma EraseWritesFill<T>(s: seq<T>, index: nat, buf: seq<T>)
    requires index < |s| && |s| - 1 <= |buf|
    ensures ApplyWrites(buf, EraseWrites(s, index)) == Some(Removed(s, index) + buf[|s| - 1..])
  {
    var g := Removed(s, index) + buf[|s| - 1..];
    if |buf| == 0 {
      assert EraseWrites(s, index) == [] && g == buf;
    } else {
      EraseWritesSlot(s, index, buf, 0);
      var r := ApplyWrites(buf, EraseWrites(s, index)).value;
      forall p | 0 <= p < |buf| ensures r[p] == g[p] {
        EraseWritesSlot(s, index, buf, p);
      }
      assert r == g;
    }
  }

  /** Whatever a buffer of `|s| - 1` slots held, the writes of `erase`
      overwrite every slot and leave exactly the remaining elements. */
  lemma EraseWritesMakeRemoved<T>(s: seq<T>, index: nat, buf: seq<T>)
    requires index < |s| && |buf| == |s| - 1
    ensures ApplyWrites(buf, EraseWrites(s, index)) == Some(Removed(s, index))
  {
    EraseWritesFill(s, index, buf);
    assert Removed(s, index) + buf[|s| - 1..] == Removed(s, index);
  }

  /** The replacement buffer of `insert` as the source allocates it,
      `new _Ty[m_capacity]` with the capacity from before the call, filled by
      the writes of `insert`; `blank` is what a fresh slot holds. */
  function AsWrittenInsertBuffer<T>(s: seq<T>, capacity: nat, index: nat, v: T, blank: T): (r: Option<seq<T>>)
    requires index <= |s| <= capacity
    ensures r.Some? ==> |r.value| == capacity
  {
    ApplyWrites(seq(capacity, _ => blank), InsertWrites(s, index, v))
  }

  /** As written, `insert` writes past the end of its new buffer exactly when
      the vector is full, that is exactly when it has to grow. */
  lemma AsWrittenInsertOverflowsWhenFull<T>(s: seq<T>, capacity: nat, index: nat, v: T, blank: T)
    requires index <= |s| <= capacity
    ensures AsWrittenInsertBuffer(s, capacity, index, v, blank).None? <==> |s| == capacity
  {
    var w := InsertWrites(s, index, v);
    if |s| == capacity {
      var k := if index < |s| then index else |s|;
      InsertWriteAt(s, index, v, k);
      assert w[k].pos == |s|;
    } else {
      forall k | 0 <= k < |w| ensures w[k].pos <= |s| {
        InsertWriteAt(s, index, v, k);
      }
    }
  }

  /** The first `insert` into a default-constructed vector writes slot 0 of a
      buffer with no slots. */
  lemma FirstInsertIntoEmptyOverflows()
    ensures AsWrittenInsertBuffer([], 0, 0, 10, 0).None?
  {
    AsWrittenInsertOverflowsWhenFull([], 0, 0, 10, 0);
  }

  /** The replacement buffer of `insert` sized by the capacity after the call. */
  function InsertBuffer<T>(s: seq<T>, capacity: nat, index: nat, v: T, blank: T): (r: Option<seq<T>>)
    requires index <= |s| <= capacity
    ensures r.Some? ==> |r.value| == NextCapacity(|s|, capacity)
  {
    ApplyWrites(seq(NextCapacity(|s|, capacity), _ => blank), InsertWrites(s, index, v))
  }

  /** Sized by the new capacity, every write of `insert` lands in the buffer,
      and its live prefix is the elements with `v` spliced in at `index`. */
  lemma InsertBufferHoldsInserted<T>(s: seq<T>, capacity: nat, index: nat, v: T, blank: T)
    requires index <= |s| <= capacity
    ensures InsertBuffer(s, capacity, index, v, blank).Some?
    ensures |InsertBuffer(s, capacity, index, v, blank).value| == NextCapacity(|s|, capacity)
    ensures InsertBuffer(s, capacity, index, v, blank).value[..|s| + 1] == Inserted(s, index, v)
  {
    InsertWritesFill(s, index, v, seq(NextCapacity(|s|, capacity), _ => blank));
  }

  /** The replacement buffer of `erase`, `new _Ty[m_capacity]`, holds the
      remaining elements in order after the writes of `erase`. */
  lemma EraseBufferHoldsRemoved<T>(s: seq<T>, capacity: nat, index: nat, blank: T)
    requires index < |s| <= capacity
    ensures ApplyWrites(seq(capacity, _ => blank), EraseWrites(s, index)).Some?
    ensures ApplyWrites(seq(capacity, _ => blank), EraseWrites(s, index)).value[..|s| - 1] == Removed(s, index)
  {
    EraseWritesFill(s, index, seq(capacity, _ => blank));
  }
}
