/** The storage block under a SimpleVector (the source's ArrayPtr) and the
    element-moving primitives the vector applies to it: allocation of a block of
    default-valued slots, std::fill, std::copy / std::move into another block, and
    the in-place shifts std::copy_backward and std::move that open or close a gap.
    Each is a loop over an array, specified slot by slot. */
module Buffers {

  /** A fresh block of `n` slots, every slot holding the element type's default. */
  method Allocate<T>(n: nat, def: T) returns (a: array<T>)
    ensures fresh(a) && a.Length == n
    ensures forall k :: 0 <= k < n ==> a[k] == def
  {
    a := new T[n](_ => def);
  }

  /** std::fill over the slots [lo, hi). */
  method Fill<T>(a: array<T>, lo: nat, hi: nat, v: T)
    requires lo <= hi <= a.Length
    modifies a
    ensures forall k :: lo <= k < hi ==> a[k] == v
    ensures forall k :: 0 <= k < a.Length && !(lo <= k < hi) ==> a[k] == old(a[k])
  {
    var i := lo;
    while i < hi
      invariant lo <= i <= hi
      invariant forall k :: lo <= k < i ==> a[k] == v
      invariant forall k :: 0 <= k < a.Length && !(lo <= k < i) ==> a[k] == old(a[k])
    {
      a[i] := v;
      i := i + 1;
    }
  }

  /** std::copy (or std::move) of src[lo..hi) into another block, starting at slot `at`. */
  method CopyRange<T>(src: array<T>, lo: nat, hi: nat, dst: array<T>, at: nat)
    requires src != dst
    requires lo <= hi <= src.Length && at + (hi - lo) <= dst.Length
    modifies dst
    ensures forall k :: at <= k < at + (hi - lo) ==> dst[k] == src[lo + (k - at)]
    ensures forall k :: 0 <= k < dst.Length && !(at <= k < at + (hi - lo)) ==> dst[k] == old(dst[k])
  {
    var i := lo;
    while i < hi
      invariant lo <= i <= hi
      invariant forall k :: at <= k < at + (i - lo) ==> dst[k] == src[lo + (k - at)]
      invariant forall k :: 0 <= k < dst.Length && !(at <= k < at + (i - lo)) ==> dst[k] == old(dst[k])
    {
      dst[at + (i - lo)] := src[i];
      i := i + 1;
    }
  }

  /** std::copy of an initializer list into the front of a block. */
  method CopyFromSeq<T>(src: seq<T>, dst: array<T>)
    requires |src| <= dst.Length
    modifies dst
    ensures dst[..|src|] == src
    ensures forall k :: |src| <= k < dst.Length ==> dst[k] == old(dst[k])
  {
    var i := 0;
    while i < |src|
      invariant 0 <= i <= |src|
      invariant dst[..i] == src[..i]
      invariant forall k :: i <= k < dst.Length ==> dst[k] == old(dst[k])
    {
      dst[i] := src[i];
      i := i + 1;
    }
  }

  /** std::copy_backward(a + lo, a + hi, a + hi + 1): every slot of [lo, hi) moves
      one place to the right, last one first, so that slot `lo` is free for a new value. */
  method ShiftRight<T>(a: array<T>, lo: nat, hi: nat)
    requires lo <= hi < a.Length
    modifies a
    ensures forall k :: 0 <= k < lo ==> a[k] == old(a[k])
    ensures forall k :: lo < k <= hi ==> a[k] == old(a[k - 1])
    ensures forall k :: hi < k < a.Length ==> a[k] == old(a[k])
  {
    var i := hi;
    while i > lo
      invariant lo <= i <= hi
      invariant forall k :: 0 <= k < i ==> a[k] == old(a[k])
      invariant forall k :: i < k <= hi ==> a[k] == old(a[k - 1])
      invariant forall k :: hi < k < a.Length ==> a[k] == old(a[k])
    {
      a[i] := a[i - 1];
      i := i - 1;
    }
  }

  /** std::move(a + lo + 1, a + hi, a + lo): every slot of [lo + 1, hi) moves one
      place to the left, first one first, overwriting slot `lo`. Slot hi - 1 is left
      moved-from, so nothing is promised about it. */
  method ShiftLeft<T>(a: array<T>, lo: nat, hi: nat)
    requires lo < hi <= a.Length
    modifies a
    ensures forall k :: 0 <= k < lo ==> a[k] == old(a[k])
    ensures forall k :: lo <= k < hi - 1 ==> a[k] == old(a[k + 1])
    ensures forall k :: hi <= k < a.Length ==> a[k] == old(a[k])
  {
    var i := lo;
    while i + 1 < hi
      invariant lo <= i < hi
      invariant forall k :: 0 <= k < lo ==> a[k] == old(a[k])
      invariant forall k :: lo <= k < i ==> a[k] == old(a[k + 1])
      invariant forall k :: i < k < a.Length ==> a[k] == old(a[k])
    {
      a[i] := a[i + 1];
      i := i + 1;
    }
  }
}
