/**
 * The ways a mutating call of the vector can fail part-way. In the source an
 * element copy is `_Ty`'s copy assignment, which may throw, and every
 * allocation is a `new _Ty[n]`, which may throw `std::bad_alloc` or whatever
 * `_Ty`'s default constructor throws. Here the environment decides, per call,
 * whether the allocation fails and which copy fails.
 */
module Failures {

  /** Why a call gave up: `new _Ty[n]` threw (out of memory, or a default
      constructor raised), or the copy with this ordinal (counted from 0
      within the call) raised. */
  datatype Error = AllocationFailed | CopyFailed(step: nat)

  /** How a call ended: normally, or with an exception propagated to the caller. */
  datatype Outcome = Done | Thrown(error: Error)

  /** The faults a call meets: `allocFails` makes the allocation of the
      replacement buffer throw; `copyFails(k, x)` makes the k-th copy of the
      call, which copies `x`, throw. */
  datatype Faults<!T> = Faults(allocFails: bool, copyFails: (nat, T) -> bool)

  /** An element type whose constructors and copies never throw, and memory
      that never runs out. */
  function NoFaults<T>(): Faults<T>
  {
    Faults(false, (k: nat, x: T) => false)
  }

  /** Whether the k-th copy of a call, which copies `x`, throws. */
  predicate CopyThrows<T>(faults: Faults<T>, k: nat, x: T)
  {
    faults.copyFails(k, x)
  }

  /** The first copy, at or after ordinal `from`, that fails when the copies of
      `plan` are made in order; Done when none does. */
  function FirstCopyFault<T>(faults: Faults<T>, plan: seq<T>, from: nat): (r: Outcome)
    requires from <= |plan|
    ensures r.Thrown? ==> r.error.CopyFailed? && from <= r.error.step < |plan|
    decreases |plan| - from
  {
    if from == |plan| then Done
    else if CopyThrows(faults, from, plan[from]) then Thrown(CopyFailed(from))
    else FirstCopyFault(faults, plan, from + 1)
  }

  /** How a call ends that first allocates a replacement buffer (when
      `allocates`) and then copies the values of `plan` in order, stopping at
      the first exception. */
  function OutcomeOf<T>(faults: Faults<T>, allocates: bool, plan: seq<T>): (r: Outcome)
    ensures r == Thrown(AllocationFailed) <==> allocates && faults.allocFails
    ensures r.Thrown? && r.error.CopyFailed? ==> r.error.step < |plan|
  {
    if allocates && faults.allocFails then Thrown(AllocationFailed)
    else FirstCopyFault(faults, plan, 0)
  }

  /** The copies from `from` on all succeed exactly when FirstCopyFault is
      Done; otherwise it names the lowest failing copy. */
  lemma {:induction false} FirstCopyFaultIsFirst<T>(faults: Faults<T>, plan: seq<T>, from: nat)
    requires from <= |plan|
    ensures var o := FirstCopyFault(faults, plan, from);
      && (o == Done <==> forall k :: from <= k < |plan| ==> !faults.copyFails(k, plan[k]))
      && (o.Thrown? ==>
            && o.error.CopyFailed?
            && from <= o.error.step < |plan|
            && faults.copyFails(o.error.step, plan[o.error.step])
            && forall k :: from <= k < o.error.step ==> !faults.copyFails(k, plan[k]))
    decreases |plan| - from
  {
    if from < |plan| && !faults.copyFails(from, plan[from]) {
      FirstCopyFaultIsFirst(faults, plan, from + 1);
    }
  }

  /** A call completes exactly when its allocation (if any) and all its copies
      succeed; it throws from `new _Ty[n]` exactly when its allocation fails;
      otherwise it throws the exception of its first failing copy. */
  lemma OutcomeOfIsFirstFault<T>(faults: Faults<T>, allocates: bool, plan: seq<T>)
    ensures var o := OutcomeOf(faults, allocates, plan);
      && (o == Done <==>
            && (allocates ==> !faults.allocFails)
            && forall k :: 0 <= k < |plan| ==> !faults.copyFails(k, plan[k]))
      && (o == Thrown(AllocationFailed) <==> allocates && faults.allocFails)
      && (o.Thrown? && o.error.CopyFailed? ==>
            && o.error.step < |plan|
            && faults.copyFails(o.error.step, plan[o.error.step])
            && forall k :: 0 <= k < o.error.step ==> !faults.copyFails(k, plan[k]))
  {
    FirstCopyFaultIsFirst(faults, plan, 0);
  }

  /** Without faults every call completes. */
  lemma NoFaultsNeverThrow<T>(allocates: bool, plan: seq<T>)
    ensures OutcomeOf(NoFaults(), allocates, plan) == Done
  {
    OutcomeOfIsFirstFault(NoFaults(), allocates, plan);
  }
}
