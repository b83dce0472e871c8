/**
 * Client code in the style of the unit tests of the vector: each method
 * builds vectors with the public operations only (element copies of `int`
 * never throw, so every call runs without faults) and states what the test
 * expects of them.
 */
module Scenarios {
  import opened Failures
  import opened Splice
  import opened Growth
  import opened Rebuild
  import opened DynamicArray

  /** A default-constructed vector is empty, with size and capacity 0. */
  method DefaultConstructed() returns (empty: bool, size: nat, capacity: nat)
    ensures empty && size == 0 && capacity == 0
  {
    var v := new Vector<int>();
    empty, size, capacity := v.Empty(), v.Size(), v.Capacity();
  }

  /** Building a vector from a list (the empty list included) and reading
      `at(0)`, `at(1)`, ... gives the list back, and the capacity is exactly
      the length of the list. */
  method ListReadBack<T(0)>(xs: seq<T>) returns (read: seq<T>, empty: bool, size: nat, capacity: nat)
    ensures read == xs && size == |xs| && capacity == |xs|
    ensures empty <==> xs == []
  {
    NoFaultsNeverThrow(|xs| > 0, xs);
    var outcome, v := Vector.FromList(xs, NoFaults());
    empty, size, capacity := v.Empty(), v.Size(), v.Capacity();
    read := [];
    var i := 0;
    while i < size
      invariant 0 <= i <= size
      invariant read == xs[..i]
    {
      read := read + [v.At(i)];
      i := i + 1;
    }
  }

  /** The first insertion into an empty vector holds just that value and
      grows the capacity to 1. */
  method InsertIntoEmpty(x: int) returns (read: seq<int>, capacity: nat)
    ensures read == [x] && capacity == 1
  {
    var v := new Vector<int>();
    NoFaultsNeverThrow(true, InsertCopies([], 0, x));
    var outcome := v.Insert(0, x, NoFaults());
    read, capacity := v.Data(), v.Capacity();
  }

  /** Inserting 0 into {10, 10, 10, 10} at the head (0), in the middle (2),
      at the last position (3) or at the tail (4) puts the 0 exactly at that
      position and keeps four 10s around it. */
  method InsertIntoFourTens(index: nat) returns (read: seq<int>)
    requires index <= 4
    ensures |read| == 5 && read[index] == 0
    ensures forall j :: 0 <= j < 5 && j != index ==> read[j] == 10
  {
    var tens := [10, 10, 10, 10];
    NoFaultsNeverThrow(true, tens);
    var outcome, v := Vector.FromList(tens, NoFaults());
    NoFaultsNeverThrow(true, InsertCopies(tens, index, 0));
    outcome := v.Insert(index, 0, NoFaults());
    read := v.Data();
  }

  /** Erasing index 0, 1, 2 or 3 from {1, 2, 3, 4} leaves the other three
      values in order. */
  method EraseFromOneToFour(index: nat) returns (read: seq<int>)
    requires index < 4
    ensures |read| == 3
    ensures forall j :: 0 <= j < 3 ==> read[j] == if j < index then j + 1 else j + 2
  {
    var xs := [1, 2, 3, 4];
    NoFaultsNeverThrow(true, xs);
    var outcome, v := Vector.FromList(xs, NoFaults());
    NoFaultsNeverThrow(true, EraseCopies(xs, index));
    outcome := v.Erase(index, NoFaults());
    read := v.Data();
  }

  /** Erasing the only element of {1} leaves an empty vector. */
  method EraseOnlyElement() returns (empty: bool, size: nat)
    ensures empty && size == 0
  {
    NoFaultsNeverThrow(true, [1]);
    var outcome, v := Vector.FromList([1], NoFaults());
    outcome := v.Erase(0, NoFaults());
    empty, size := v.Empty(), v.Size();
  }

  /** `push_back(0)`, ..., `push_back(n - 1)` on an empty vector whose
      capacity is either 0 or already enough for `n` elements. */
  method PushRange(v: Vector<nat>, n: nat)
    requires v.Valid() && v.Contents == []
    requires v.capacity == 0 || n <= v.capacity
    modifies v
    ensures v.Valid() && v.Contents == seq(n, k => k) && v.size == n
    ensures v.capacity == if n <= old(v.capacity) then old(v.capacity) else CapacityAfterPushes(n)
  {
    var j: nat := 0;
    while j < n
      invariant 0 <= j <= n
      invariant v.Valid() && v.Contents == seq(j, k => k) && v.size == j
      invariant v.capacity == if n <= old(v.capacity) then old(v.capacity) else CapacityAfterPushes(j)
    {
      NoFaultsNeverThrow(true, InsertCopies(v.Contents, v.size, j));
      var outcome := v.PushBack(j, NoFaults());
      assert seq(j + 1, k => k) == seq(j, k => k) + [j];
      j := j + 1;
    }
  }

  /** `pop_back()`, `n` times, on a vector of `n` elements; the capacity is
      kept. */
  method PopTimes(v: Vector<nat>, n: nat)
    requires v.Valid() && v.size == n
    modifies v
    ensures v.Valid() && v.Contents == [] && v.capacity == old(v.capacity)
  {
    var j := 0;
    while j < n
      invariant 0 <= j <= n
      invariant v.Valid() && v.size == n - j && v.capacity == old(v.capacity)
    {
      v.PopBack();
      j := j + 1;
    }
  }

  /** Two rounds of pushing `0 .. n - 1` and popping everything: each round
      reaches size `n` and ends empty, the first round grows the capacity to
      `CapacityAfterPushes(n)` and the second reuses it without growing. */
  method RegularUse(n: nat) returns (peak1: nat, empty1: bool, capacity1: nat,
                                     peak2: nat, empty2: bool, capacity2: nat)
    ensures peak1 == n && peak2 == n && empty1 && empty2
    ensures capacity1 == CapacityAfterPushes(n) && capacity2 == capacity1
  {
    var v := new Vector<nat>();
    PushRange(v, n);
    peak1 := v.Size();
    PopTimes(v, n);
    empty1, capacity1 := v.Empty(), v.Capacity();
    PushRange(v, n);
    peak2 := v.Size();
    PopTimes(v, n);
    empty2, capacity2 := v.Empty(), v.Capacity();
  }
}
