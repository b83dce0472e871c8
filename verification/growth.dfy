/**
 * The capacity rule of the vector: a full vector grows to twice its capacity
 * plus one, and a vector with a free slot keeps its capacity.
 */
module Growth {

  /** `_get_new_capacity`: the capacity a full vector grows to. */
  function GrownCapacity(capacity: nat): (r: nat)
    ensures r > capacity && r % 2 == 1
  {
    2 * capacity + 1
  }

  /** The capacity `insert` leaves on a vector of `size` elements and
      `capacity` slots: enough room for one more element, never less than
      before, and grown exactly when the vector was full. */
  function NextCapacity(size: nat, capacity: nat): (r: nat)
    requires size <= capacity
    ensures size + 1 <= r && capacity <= r
    ensures r == capacity || r == GrownCapacity(capacity)
    ensures r == capacity <==> size < capacity
  {
    if size + 1 > capacity then GrownCapacity(capacity) else capacity
  }

  /** The capacity of a default-constructed vector after `n` successful
      `push_back` calls. */
  function CapacityAfterPushes(n: nat): (c: nat)
    ensures n <= c
  {
    if n == 0 then 0 else NextCapacity(n - 1, CapacityAfterPushes(n - 1))
  }

  predicate IsPowerOfTwo(x: nat)
    decreases x
  {
    x == 1 || (x >= 2 && x % 2 == 0 && IsPowerOfTwo(x / 2))
  }

  /** Growing from empty, the capacities run 0, 1, 3, 7, 15, ...: one less
      than a power of two, and never more than twice the number of elements
      (so the first `push_back` gives capacity 1). */
  lemma {:induction false} CapacityAfterPushesLaw(n: nat)
    ensures IsPowerOfTwo(CapacityAfterPushes(n) + 1)
    ensures n <= CapacityAfterPushes(n)
    ensures n > 0 ==> CapacityAfterPushes(n) < 2 * n
  {
    if n > 0 {
      CapacityAfterPushesLaw(n - 1);
      var c := CapacityAfterPushes(n - 1);
      if n - 1 == c {
        assert CapacityAfterPushes(n) + 1 == 2 * (c + 1);
        assert (CapacityAfterPushes(n) + 1) / 2 == c + 1;
      }
    }
  }
}
