/** The growth policy of SimpleVector as functions of the counters alone: the
    capacity an insertion or a push leaves behind, the capacity Resize leaves
    behind, and the doubling law that repeated pushes from an empty vector obey. */
module Growth {

  /** Capacity after one Insert or PushBack on a vector holding `size` elements in
      `capacity` slots: an empty block becomes one slot, a full one doubles, and
      otherwise the element goes into a spare slot. There is always room for the
      new element and capacity never shrinks. */
  function GrowCapacity(size: nat, capacity: nat): (r: nat)
    requires size <= capacity
    ensures size < r && capacity <= r
    ensures size < capacity ==> r == capacity
  {
    if capacity == 0 then 1
    else if size < capacity then capacity
    else 2 * capacity
  }

  /** Capacity after Resize(n): unchanged when `n` already fits, otherwise the larger
      of `n` and twice the old capacity. */
  function ResizeCapacity(n: nat, capacity: nat): (r: nat)
    ensures n <= r && capacity <= r
    ensures n <= capacity <==> r == capacity
    ensures capacity < n ==> r == n || r == 2 * capacity
    ensures capacity < n ==> 2 * capacity <= r
  {
    if n <= capacity then capacity
    else if n > 2 * capacity then n
    else 2 * capacity
  }

  function Pow2(e: nat): (r: nat)
    ensures r >= 1
  {
    if e == 0 then 1 else 2 * Pow2(e - 1)
  }

  /** Capacity of a default-constructed vector (capacity 0) after `k` PushBack calls. */
  function CapacityAfterPushes(k: nat): (r: nat)
    ensures k <= r
  {
    if k == 0 then 0 else GrowCapacity(k - 1, CapacityAfterPushes(k - 1))
  }

  /** The doubling law: after k >= 1 pushes from capacity 0 the capacity is the
      smallest power of two that is at least k. */
  lemma {:induction false} DoublingLaw(k: nat) returns (e: nat)
    requires k >= 1
    ensures CapacityAfterPushes(k) == Pow2(e)
    ensures k <= Pow2(e) && (e == 0 || Pow2(e - 1) < k)
  {
    if k == 1 {
      e := 0;
    } else {
      var e' := DoublingLaw(k - 1);
      if k - 1 < Pow2(e') {
        e := e';
      } else {
        e := e' + 1;
      }
    }
  }
}
