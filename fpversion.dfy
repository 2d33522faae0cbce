// The version word of an FPTree node (fptree.cpp `unlock_node`).  fptree.h,
// which fixes its layout, is not part of this model; the layout is that of
// the masstree code FPTree derives from: flags in bits 0..6, the insert
// counter in bits 7..12, the split counter in bits 13..30.

module FpVersion {
  const NODE_LOCKED: bv32 := 0x1
  const NODE_INSERTING: bv32 := 0x2
  const NODE_SPLITTING: bv32 := 0x4
  const NODE_DELETED: bv32 := 0x8
  const NODE_ISROOT: bv32 := 0x10
  const NODE_ISBORDER: bv32 := 0x20
  const NODE_VINSERT: bv32 := 0x0000_1f80
  const NODE_VINSERT_SHIFT: bv32 := 7
  const NODE_VSPLIT: bv32 := 0x7fff_e000
  const NODE_VSPLIT_SHIFT: bv32 := 13
  /** The bits `unlock_node` leaves alone: DELETED, ISBORDER, bit 6, bit 31. */
  const NODE_KEPT: bv32 := 0x8000_0068

  /** The insert counter of a version word. */
  function InsCount(v: bv32): bv32
  {
    (v & NODE_VINSERT) >> NODE_VINSERT_SHIFT
  }

  /** The split counter of a version word. */
  function SplitCount(v: bv32): bv32
  {
    (v & NODE_VSPLIT) >> NODE_VSPLIT_SHIFT
  }

  /** The insert-counter bump of `unlock_node`: the field plus
      `1 << NODE_VINSERT_SHIFT` (0x80), the sum written back unmasked. */
  function InsBumped(v: bv32): bv32
  {
    (v & !NODE_VINSERT) | ((v & NODE_VINSERT) + 0x80)
  }

  /** The split-counter bump of `unlock_node`: the field plus
      `1 << NODE_VSPLIT_SHIFT` (0x2000), masked, and ISROOT cleared. */
  function SplitBumped(v: bv32): bv32
  {
    ((v & !NODE_ISROOT) & !NODE_VSPLIT) | (((v & NODE_VSPLIT) + 0x2000) & NODE_VSPLIT)
  }

  /** Clearing the lock and both operation flags:
      `v & ~(NODE_LOCKED | NODE_INSERTING | NODE_SPLITTING)`. */
  function Released(v: bv32): bv32
  {
    v & 0xffff_fff8
  }

  // Each bit-level fact below is a lemma of its own: the solver handles
  // them one at a time far more cheaply than all together.

  /** The insert bump keeps the flags and the top bit. */
  lemma InsBumpedKeeps(v: bv32)
    ensures InsBumped(v) & 0x8000_007f == v & 0x8000_007f
  {
  }

  /** The insert bump adds one to the insert counter modulo 64. */
  lemma InsBumpedCount(v: bv32)
    ensures InsCount(InsBumped(v)) == (InsCount(v) + 1) & 0x3f
  {
  }

  /** The carry out of the insert counter sets the lowest bit of the split
      counter. */
  lemma InsBumpedCarry(v: bv32)
    ensures SplitCount(InsBumped(v)) == SplitCount(v) | (if InsCount(v) == 0x3f then 1 else 0)
  {
  }

  /** The split bump keeps the other flags and the top bit. */
  lemma SplitBumpedKeeps(v: bv32)
    ensures SplitBumped(v) & 0x8000_006f == v & 0x8000_006f
  {
  }

  /** The split bump clears ISROOT. */
  lemma SplitBumpedRoot(v: bv32)
    ensures SplitBumped(v) & NODE_ISROOT == 0
  {
  }

  /** The split bump leaves the insert counter alone. */
  lemma SplitBumpedIns(v: bv32)
    ensures InsCount(SplitBumped(v)) == InsCount(v)
  {
  }

  /** The split bump adds one to the split counter modulo 2^18. */
  lemma SplitBumpedCount(v: bv32)
    ensures SplitCount(SplitBumped(v)) == (SplitCount(v) + 1) & 0x3_ffff
  {
  }

  /** Releasing clears the lock and both operation flags. */
  lemma ReleasedClears(v: bv32)
    ensures Released(v) & (NODE_LOCKED | NODE_INSERTING | NODE_SPLITTING) == 0
  {
  }

  /** Releasing keeps every other flag and the top bit. */
  lemma ReleasedKeeps(v: bv32)
    ensures Released(v) & 0x8000_0078 == v & 0x8000_0078
  {
  }

  /** Raising a flag, as `split_inter_node` and `split_leaf_node` raise
      SPLITTING, keeps the lock bit. */
  lemma RaiseKeepsLock(v: bv32, flag: bv32)
    requires flag & NODE_LOCKED == 0
    ensures (v | flag) & NODE_LOCKED == v & NODE_LOCKED
  {
  }

  /** The flags `split_leaf_node` leaves on the old leaf: SPLITTING, and
      INSERTING as well when the key stayed in it. */
  predicate SplitMarked(v: bv32, v0: bv32, toright: bool)
  {
    v == if toright then v0 | NODE_SPLITTING else v0 | NODE_SPLITTING | NODE_INSERTING
  }

  /** Releasing keeps both counters. */
  lemma ReleasedCounts(v: bv32)
    ensures InsCount(Released(v)) == InsCount(v) && SplitCount(Released(v)) == SplitCount(v)
  {
  }

  /** `unlock_node`'s new version word (fptree.cpp `unlock_node`). */
  function Unlocked(v: bv32): bv32
  {
    var v1 := if v & NODE_INSERTING != 0 then InsBumped(v) else v;
    var v2 := if v1 & NODE_SPLITTING != 0 then SplitBumped(v1) else v1;
    Released(v2)
  }

  /** Unlocking clears the lock and both operation flags; the insert counter
      goes up by one (mod 64) iff INSERTING was set, its carry out setting
      the lowest bit of the split counter; the split counter goes up by one
      (mod 2^18) and ISROOT is cleared iff SPLITTING was set; DELETED,
      ISBORDER and the unused bits are kept. */
  lemma UnlockedIs(v: bv32)
    ensures Unlocked(v) & (NODE_LOCKED | NODE_INSERTING | NODE_SPLITTING) == 0
    ensures Unlocked(v) & NODE_ISROOT == (if v & NODE_SPLITTING != 0 then 0 else v & NODE_ISROOT)
    ensures Unlocked(v) & NODE_KEPT == v & NODE_KEPT
    ensures InsCount(Unlocked(v)) == (if v & NODE_INSERTING != 0 then (InsCount(v) + 1) & 0x3f else InsCount(v))
    ensures var s := SplitCount(v) | (if v & NODE_INSERTING != 0 && InsCount(v) == 0x3f then 1 else 0);
      SplitCount(Unlocked(v)) == (if v & NODE_SPLITTING != 0 then (s + 1) & 0x3_ffff else s)
  {
    var v1 := if v & NODE_INSERTING != 0 then InsBumped(v) else v;
    if v & NODE_INSERTING != 0 { InsBumpedKeeps(v); InsBumpedCount(v); InsBumpedCarry(v); }
    var v2 := if v1 & NODE_SPLITTING != 0 then SplitBumped(v1) else v1;
    if v1 & NODE_SPLITTING != 0 {
      SplitBumpedKeeps(v1); SplitBumpedRoot(v1); SplitBumpedIns(v1); SplitBumpedCount(v1);
    }
    ReleasedClears(v2); ReleasedKeeps(v2); ReleasedCounts(v2);
  }
}
