/** The hash-slot space of a Redis Cluster and the round-robin way cluster
    formation deals it out to the masters. */
module Slots {

  /** Number of hash slots: the slots are 0 .. SlotCount - 1. */
  const SlotCount: nat := 16384

  /** The slots in [lo, SlotCount) that master `i` of `m` is given: those
      whose remainder modulo `m` is `i`, in ascending order. */
  function SlotRange(i: nat, m: nat, lo: nat): (r: seq<nat>)
    requires m > 0
    ensures forall k :: 0 <= k < |r| ==> lo <= r[k] < SlotCount && r[k] % m == i
    ensures forall s: nat :: lo <= s < SlotCount && s % m == i ==> s in r
    ensures forall k, l :: 0 <= k < l < |r| ==> r[k] < r[l]
    decreases SlotCount - lo
  {
    if lo >= SlotCount then []
    else (if lo % m == i then [lo] else []) + SlotRange(i, m, lo + 1)
  }

  /** The ranges of the `m` masters partition the slot space: every slot is
      in the range of master `s % m` and in no other. */
  lemma SlotRangesPartition(m: nat, s: nat, i: nat)
    requires m > 0 && i < m
    ensures s in SlotRange(i, m, 0) <==> s < SlotCount && i == s % m
  {
  }

  /** Starting the scan at 0 or at `i` gives the same slots: no slot below
      `i` has remainder `i`. */
  lemma {:induction false} ScanSkipsBelow(i: nat, m: nat, lo: nat)
    requires lo <= i < m
    ensures SlotRange(i, m, lo) == SlotRange(i, m, i)
    decreases i - lo
  {
    if lo < i {
      assert lo < m && lo % m == lo by { assert lo == 0 * m + lo; }
      ScanSkipsBelow(i, m, lo + 1);
    }
  }

  /** The scan over every slot, from 0, is the scan from `i`. */
  lemma SlotScanFromZero(i: nat, m: nat)
    requires i < m
    ensures SlotRange(i, m, 0) == SlotRange(i, m, i)
  {
    ScanSkipsBelow(i, m, 0);
  }

  /** Master `i` of `m` is given slot `s` exactly when s is a slot whose
      remainder modulo `m` is `i`. */
  lemma SlotOwnedBy(i: nat, m: nat, s: nat)
    requires i < m
    ensures s in SlotRange(i, m, i) <==> s < SlotCount && s % m == i
  {
    SlotScanFromZero(i, m);
    SlotRangesPartition(m, s, i);
  }
}
