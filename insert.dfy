// The whole merge of a full bottom-node buffer into its leaf
// (`insert_into_leaf` in the fast-fair variant, the matching part of
// `insert_lnode` in the lock-based one): the first loop over the group, the
// second loop, and the split when the leaf fills up with a member pending.
// What the merge means is stated once, by Want: after it every key reads as
// the group member with that key says, and otherwise as before.

module LeafInsert {
  import opened Bits
  import opened LeafNode
  import opened LeafSort
  import opened LeafMerge
  import opened LeafSplit

  // ------------------------------------------------------ the meaning

  /** The value of x once the members from i on are merged over a leaf
      where x had value d: the member with key x decides, value 0 being a
      deletion. */
  function Want(g: seq<Entry>, i: nat, x: int64, d: int64): int64
    requires i <= |g|
    decreases |g| - i
  {
    if i == |g| then d
    else if g[i].k == x then g[i].v
    else Want(g, i + 1, x, d)
  }

  /** The member with key x decides its value. */
  lemma {:induction false} WantHit(g: seq<Entry>, i: nat, j: nat, x: int64, d: int64)
    requires DistinctKeys(g) && i <= j < |g| && g[j].k == x
    ensures Want(g, i, x, d) == g[j].v
    decreases |g| - i
  {
    if i < j {
      assert g[i].k != g[j].k;
      WantHit(g, i + 1, j, x, d);
    }
  }

  /** Without a member with key x, x keeps its value. */
  lemma {:induction false} WantMiss(g: seq<Entry>, i: nat, x: int64, d: int64)
    requires i <= |g| && forall j :: i <= j < |g| ==> g[j].k != x
    ensures Want(g, i, x, d) == d
    decreases |g| - i
  {
    if i < |g| {
      WantMiss(g, i + 1, x, d);
    }
  }

  /** The net change in the number of live slots the merge asks for
      (`increment`): one per pending member, minus one per deletion of a
      found member. */
  function Increment(g: seq<Entry>, slotId: seq<int>): (c: int)
    requires |g| == |slotId| == GROUP
    ensures -(GROUP as int) <= c <= GROUP
  {
    PendingFrom(g, slotId, 0) - Deletions(g, slotId, GROUP)
  }

  // ------------------------------------------------------ the two loops' folds

  /** A found member with key x writes its value. */
  lemma {:induction false} AfterFoundHit(g: seq<Entry>, slotId: seq<int>, n: nat, i: nat, x: int64, d: int64)
    requires DistinctKeys(g) && n <= |g| && n <= |slotId| && i < n && g[i].k == x && slotId[i] != -1
    ensures AfterFound(g, slotId, n, x, d) == g[i].v
  {
    if n - 1 != i {
      assert g[n - 1].k != g[i].k;
      AfterFoundHit(g, slotId, n - 1, i, x, d);
    }
  }

  /** Without a found member with key x, the first loop leaves x alone. */
  lemma {:induction false} AfterFoundMiss(g: seq<Entry>, slotId: seq<int>, n: nat, x: int64, d: int64)
    requires n <= |g| && n <= |slotId|
    requires forall j :: 0 <= j < n && slotId[j] != -1 ==> g[j].k != x
    ensures AfterFound(g, slotId, n, x, d) == d
  {
    if n > 0 {
      AfterFoundMiss(g, slotId, n - 1, x, d);
    }
  }

  /** A pending member with key x writes its value. */
  lemma {:induction false} AfterPlacedHit(g: seq<Entry>, slotId: seq<int>, lo: nat, hi: nat, i: nat, x: int64, d: int64)
    requires DistinctKeys(g) && |g| == |slotId| == GROUP && lo <= i < hi <= GROUP
    requires Pending(g, slotId, i) && g[i].k == x
    ensures AfterPlaced(g, slotId, lo, hi, x, d) == g[i].v
    decreases hi - lo
  {
    if lo < i {
      assert g[lo].k != g[i].k;
      AfterPlacedHit(g, slotId, lo + 1, hi, i, x, d);
    }
  }

  /** Without a pending member with key x, the second loop leaves x alone. */
  lemma {:induction false} AfterPlacedMiss(g: seq<Entry>, slotId: seq<int>, lo: nat, hi: nat, x: int64, d: int64)
    requires |g| == |slotId| == GROUP && hi <= GROUP
    requires forall j :: lo <= j < hi && Pending(g, slotId, j) ==> g[j].k != x
    ensures AfterPlaced(g, slotId, lo, hi, x, d) == d
    decreases hi - lo
  {
    if lo < hi {
      AfterPlacedMiss(g, slotId, lo + 1, hi, x, d);
    }
  }

  /** The second loop run up to the split and the split's placing of the
      rest together place every pending member. */
  lemma {:induction false} AfterPlacedJoin(g: seq<Entry>, slotId: seq<int>, lo: nat, mid: nat, x: int64, d: int64)
    requires DistinctKeys(g) && |g| == |slotId| == GROUP && lo <= mid <= GROUP
    ensures AfterPlaced(g, slotId, mid, GROUP, x, AfterPlaced(g, slotId, lo, mid, x, d))
         == AfterPlaced(g, slotId, lo, GROUP, x, d)
    decreases mid - lo
  {
    if lo < mid {
      if Pending(g, slotId, lo) && g[lo].k == x {
        forall j | mid <= j < GROUP ensures g[j].k != x {
          assert g[j].k != g[lo].k;
        }
        AfterPlacedOther(g, slotId, mid, GROUP, x, g[lo].v);
      } else {
        AfterPlacedJoin(g, slotId, lo + 1, mid, x, d);
      }
    }
  }

  /** The two loops together give every key the value Want says, provided
      a member that was not found has a key the leaf lacks. */
  lemma WantOfLoops(g: seq<Entry>, slotId: seq<int>, x: int64, d: int64)
    requires DistinctKeys(g) && |g| == |slotId| == GROUP
    requires forall i :: 0 <= i < GROUP && slotId[i] == -1 && g[i].k == x ==> d == 0
    ensures AfterPlaced(g, slotId, 0, GROUP, x, AfterFound(g, slotId, GROUP, x, d)) == Want(g, 0, x, d)
  {
    if i :| 0 <= i < GROUP && g[i].k == x {
      WantHit(g, 0, i, x, d);
      if slotId[i] != -1 {
        AfterFoundHit(g, slotId, GROUP, i, x, d);
        forall j | 0 <= j < GROUP && Pending(g, slotId, j) ensures g[j].k != x {
          if j != i {
            assert g[j].k != g[i].k;
          }
        }
        AfterPlacedMiss(g, slotId, 0, GROUP, x, g[i].v);
      } else {
        forall j | 0 <= j < GROUP && slotId[j] != -1 ensures g[j].k != x {
          assert j != i && g[j].k != g[i].k;
        }
        AfterFoundMiss(g, slotId, GROUP, x, d);
        if g[i].v != 0 {
          AfterPlacedHit(g, slotId, 0, GROUP, i, x, d);
        } else {
          forall j | 0 <= j < GROUP && Pending(g, slotId, j) ensures g[j].k != x {
            assert j != i && g[j].k != g[i].k;
          }
          AfterPlacedMiss(g, slotId, 0, GROUP, x, d);
        }
      }
    } else {
      WantMiss(g, 0, x, d);
      AfterFoundMiss(g, slotId, GROUP, x, d);
      AfterPlacedMiss(g, slotId, 0, GROUP, x, d);
    }
  }

  // ------------------------------------------------------ the merge on images

  /** The leaf after the first loop. */
  function FirstPass(im: Image, g: seq<Entry>, slotId: seq<int>): (r: Image)
    requires WfImage(im) && |g| == GROUP && SlotRange(slotId)
    ensures WfImage(r) && r.fg == im.fg
  {
    FoundLoop(im, g, slotId, GROUP)
  }

  /** The leaf after both loops, and where the second one stopped. */
  function Merged(im: Image, g: seq<Entry>, gh: seq<bv8>, slotId: seq<int>): (r: Filled)
    requires WfImage(im) && |g| == |gh| == GROUP && SlotRange(slotId)
    ensures WfImage(r.im) && r.stop <= GROUP
  {
    FillFrom(FirstPass(im, g, slotId), g, gh, slotId, 0)
  }

  /** The situation the merge starts from: a well-formed leaf, a group of
      distinct keys with their fingerprints, and each member's lookup. */
  ghost predicate MergeReady(im: Image, g: seq<Entry>, gh: seq<bv8>, slotId: seq<int>, fp: int64 -> bv8)
  {
    ImageOk(im, fp) && DistinctKeys(g) && |g| == |gh| == GROUP && Hashes(g, gh, fp) && Located(im, g, slotId)
  }

  /** After the first loop the leaf is well formed and the pending members
      are still absent from it. */
  lemma FirstPassOk(im: Image, g: seq<Entry>, gh: seq<bv8>, slotId: seq<int>, fp: int64 -> bv8)
    requires MergeReady(im, g, gh, slotId, fp)
    ensures ImageOk(FirstPass(im, g, slotId), fp)
    ensures PendingAbsent(FirstPass(im, g, slotId), g, slotId, 0)
    ensures PopCount(FirstPass(im, g, slotId).bm) + Deletions(g, slotId, GROUP) == PopCount(im.bm)
  {
    var p := FirstPass(im, g, slotId);
    FoundLoopOk(im, g, slotId, GROUP, fp);
    forall j | 0 <= j < GROUP && Pending(g, slotId, j) ensures Absent(p, g[j].k) {
      assert Absent(im, g[j].k);
      forall t | 0 <= t < SLOTS && p.bm[t] ensures p.ents[t].k != g[j].k {
        assert im.bm[t] && p.ents[t].k == im.ents[t].k;
      }
    }
  }

  /** The merge splits the leaf exactly when the live slots plus the
      increment exceed the leaf (`isAlmostFull(increment)`). */
  lemma MergeSplitsIff(im: Image, g: seq<Entry>, gh: seq<bv8>, slotId: seq<int>, fp: int64 -> bv8)
    requires MergeReady(im, g, gh, slotId, fp)
    ensures Merged(im, g, gh, slotId).stop < GROUP <==> PopCount(im.bm) + Increment(g, slotId) > SLOTS
  {
    FirstPassOk(im, g, gh, slotId, fp);
    FillCount(FirstPass(im, g, slotId), g, gh, slotId, 0);
  }

  /** Without a split, the merged leaf is well formed, holds one more live
      slot per unit of increment, and every key reads as Want says. */
  lemma MergedOk(im: Image, g: seq<Entry>, gh: seq<bv8>, slotId: seq<int>, fp: int64 -> bv8)
    requires MergeReady(im, g, gh, slotId, fp)
    ensures ImageOk(Merged(im, g, gh, slotId).im, fp)
    ensures Merged(im, g, gh, slotId).stop == GROUP ==>
      PopCount(Merged(im, g, gh, slotId).im.bm) == PopCount(im.bm) + Increment(g, slotId)
  {
    var p := FirstPass(im, g, slotId);
    FirstPassOk(im, g, gh, slotId, fp);
    FillOk(p, g, gh, slotId, 0, fp);
    FillCount(p, g, gh, slotId, 0);
  }

  /** The "lb" tree deletes the leaf (`num() + increment <= 0`) exactly when
      the merge would run through the whole group and leave no live slot. */
  lemma MergeEmptiesIff(im: Image, g: seq<Entry>, gh: seq<bv8>, slotId: seq<int>, fp: int64 -> bv8)
    requires MergeReady(im, g, gh, slotId, fp)
    ensures PopCount(im.bm) + Increment(g, slotId) <= 0 <==>
      Merged(im, g, gh, slotId).stop == GROUP && PopCount(Merged(im, g, gh, slotId).im.bm) == 0
  {
    MergeSplitsIff(im, g, gh, slotId, fp);
    MergedOk(im, g, gh, slotId, fp);
  }

  /** What a key reads as in the leaf before the merge is 0 for a member
      that was not found. */
  lemma NotFoundReadsZero(im: Image, g: seq<Entry>, gh: seq<bv8>, slotId: seq<int>, fp: int64 -> bv8, x: int64)
    requires MergeReady(im, g, gh, slotId, fp)
    ensures forall i :: 0 <= i < GROUP && slotId[i] == -1 && g[i].k == x ==> Read(im, x) == 0
  {
    if i :| 0 <= i < GROUP && slotId[i] == -1 && g[i].k == x {
      assert Absent(im, g[i].k);
      LookupAbsent(im.bm, im.ents, x);
    }
  }

  /** Every key reads, after both loops up to where the second one stopped,
      as the members up to there say. */
  lemma MergedReadsUpTo(im: Image, g: seq<Entry>, gh: seq<bv8>, slotId: seq<int>, fp: int64 -> bv8, x: int64)
    requires MergeReady(im, g, gh, slotId, fp)
    ensures Read(Merged(im, g, gh, slotId).im, x)
         == AfterPlaced(g, slotId, 0, Merged(im, g, gh, slotId).stop, x, AfterFound(g, slotId, GROUP, x, Read(im, x)))
  {
    var p := FirstPass(im, g, slotId);
    FirstPassOk(im, g, gh, slotId, fp);
    FoundLoopReads(im, g, slotId, GROUP, x, fp);
    FillReads(p, g, gh, slotId, 0, x);
  }

  /** Without a split, every key reads after the merge as Want says. */
  lemma MergedReads(im: Image, g: seq<Entry>, gh: seq<bv8>, slotId: seq<int>, fp: int64 -> bv8, x: int64)
    requires MergeReady(im, g, gh, slotId, fp) && Merged(im, g, gh, slotId).stop == GROUP
    ensures Read(Merged(im, g, gh, slotId).im, x) == Want(g, 0, x, Read(im, x))
  {
    MergedReadsUpTo(im, g, gh, slotId, fp, x);
    NotFoundReadsZero(im, g, gh, slotId, fp, x);
    WantOfLoops(g, slotId, x, Read(im, x));
  }

  // ------------------------------------------------------ the merge with a split

  /** At a split the second loop left a full, well-formed leaf whose
      still pending members are absent. */
  lemma MergedFull(im: Image, g: seq<Entry>, gh: seq<bv8>, slotId: seq<int>, fp: int64 -> bv8)
    requires MergeReady(im, g, gh, slotId, fp) && Merged(im, g, gh, slotId).stop < GROUP
    ensures var r := Merged(im, g, gh, slotId);
      && ImageOk(r.im, fp) && r.im.bm == FULL && Pending(g, slotId, r.stop)
      && PendingAbsent(r.im, g, slotId, r.stop)
  {
    var p := FirstPass(im, g, slotId);
    FirstPassOk(im, g, gh, slotId, fp);
    FillOk(p, g, gh, slotId, 0, fp);
    FillStops(p, g, gh, slotId, 0);
  }

  /** After a split every key below the split key reads in the old leaf as
      Want says, and is absent from the new one; every other key reads in
      the new leaf as Want says, and is absent from the old one. */
  lemma SplitReads(im: Image, g: seq<Entry>, gh: seq<bv8>, slotId: seq<int>, fp: int64 -> bv8,
                   pos: seq<int>, x: int64)
    requires MergeReady(im, g, gh, slotId, fp) && Merged(im, g, gh, slotId).stop < GROUP
    requires IsPerm(pos) && Sorted(Merged(im, g, gh, slotId).im.ents, pos, 0, SLOTS)
    ensures var r := Merged(im, g, gh, slotId);
      var sk := SplitKey(r.im, pos);
      && Read(OldLeaf(r.im, pos, g, gh, slotId, r.stop), x) == (if x < sk then Want(g, 0, x, Read(im, x)) else 0)
      && Read(NewLeaf(r.im, pos, g, gh, slotId, r.stop), x) == (if x >= sk then Want(g, 0, x, Read(im, x)) else 0)
  {
    var r := Merged(im, g, gh, slotId);
    MergedFull(im, g, gh, slotId, fp);
    assert SplitReady(r.im, pos, fp);
    SplitOldReads(r.im, pos, g, gh, slotId, r.stop, fp, x);
    SplitNewReads(r.im, pos, g, gh, slotId, r.stop, fp, x);
    MergedReadsUpTo(im, g, gh, slotId, fp, x);
    AfterPlacedJoin(g, slotId, 0, r.stop, x, AfterFound(g, slotId, GROUP, x, Read(im, x)));
    NotFoundReadsZero(im, g, gh, slotId, fp, x);
    WantOfLoops(g, slotId, x, Read(im, x));
  }

  /** After a split both leaves are well formed, the old one holds keys
      below the split key and the new one the others. */
  lemma SplitShape(im: Image, g: seq<Entry>, gh: seq<bv8>, slotId: seq<int>, fp: int64 -> bv8, pos: seq<int>)
    requires MergeReady(im, g, gh, slotId, fp) && Merged(im, g, gh, slotId).stop < GROUP
    requires IsPerm(pos) && Sorted(Merged(im, g, gh, slotId).im.ents, pos, 0, SLOTS)
    ensures var r := Merged(im, g, gh, slotId);
      var sk := SplitKey(r.im, pos);
      var o, n := OldLeaf(r.im, pos, g, gh, slotId, r.stop), NewLeaf(r.im, pos, g, gh, slotId, r.stop);
      && ImageOk(o, fp) && ImageOk(n, fp)
      && (forall j :: 0 <= j < SLOTS && o.bm[j] ==> o.ents[j].k < sk)
      && (forall j :: 0 <= j < SLOTS && n.bm[j] ==> n.ents[j].k >= sk)
  {
    var r := Merged(im, g, gh, slotId);
    MergedFull(im, g, gh, slotId, fp);
    assert SplitReady(r.im, pos, fp);
    SplitOldOk(r.im, pos, g, gh, slotId, r.stop, fp);
    SplitNewOk(r.im, pos, g, gh, slotId, r.stop, fp);
  }

  /** The entries copied into the two bottom nodes' caches at a split
      (`old_cache`, `new_cache`) read in their leaves as they are. */
  lemma SplitCachesRead(im: Image, g: seq<Entry>, gh: seq<bv8>, slotId: seq<int>, fp: int64 -> bv8,
                        pos: seq<int>, c: nat)
    requires MergeReady(im, g, gh, slotId, fp) && Merged(im, g, gh, slotId).stop < GROUP
    requires IsPerm(pos) && Sorted(Merged(im, g, gh, slotId).im.ents, pos, 0, SLOTS) && c < CACHE
    ensures var r := Merged(im, g, gh, slotId);
      var o, n := r.im.ents[pos[c]], r.im.ents[pos[HALF + c]];
      && Read(OldLeaf(r.im, pos, g, gh, slotId, r.stop), o.k) == o.v
      && Read(NewLeaf(r.im, pos, g, gh, slotId, r.stop), n.k) == n.v
  {
    var r := Merged(im, g, gh, slotId);
    MergedFull(im, g, gh, slotId, fp);
    assert SplitReady(r.im, pos, fp);
    SplitCaches(r.im, pos, g, gh, slotId, r.stop, fp, c);
  }

  // ------------------------------------------------------ the method

  /** The leaf part of `insert_into_leaf`: the first loop, the second loop,
      and either storing the local metadata (no split) or splitting the
      full leaf.  newln is null exactly when the leaf did not split; the
      split also yields the split key and the entries for the two bottom
      nodes' caches.  The sorted positions are returned for the
      specification. */
  method MergeIntoLeaf(ln: LNode, g: seq<Entry>, gh: seq<bv8>, slotId: seq<int>, ghost im0: Image)
    returns (newln: LNode?, splitKey: int64, oldCache: seq<Entry>, newCache: seq<Entry>, ghost pos: seq<int>)
    requires ln.Valid() && |g| == |gh| == GROUP && SlotRange(slotId)
    requires Image(ln.meta.bitmap, ln.meta.fgpt, ln.ent[..]) == im0
    modifies ln, ln.ent
    ensures ln.Valid()
    ensures var r := Merged(im0, g, gh, slotId);
      && (newln == null <==> r.stop == GROUP)
      && (newln == null ==> Image(ln.meta.bitmap, ln.meta.fgpt, ln.ent[..]) == r.im && ln.meta.next == old(ln.meta.next))
      && (newln != null ==>
            && fresh(newln) && fresh(newln.ent) && newln.Valid()
            && ln.meta.next == newln && newln.meta.next == old(ln.meta.next)
            && IsPerm(pos) && Sorted(r.im.ents, pos, 0, SLOTS)
            && Image(ln.meta.bitmap, ln.meta.fgpt, ln.ent[..]) == OldLeaf(r.im, pos, g, gh, slotId, r.stop)
            && Image(newln.meta.bitmap, newln.meta.fgpt, newln.ent[..]) == NewLeaf(r.im, pos, g, gh, slotId, r.stop)
            && splitKey == SplitKey(r.im, pos)
            && oldCache == [r.im.ents[pos[0]], r.im.ents[pos[1]]]
            && newCache == [r.im.ents[pos[HALF]], r.im.ents[pos[HALF + 1]]])
  {
    var meta := ApplyFound(ln, g, slotId);
    ghost var im1 := Image(meta.bitmap, meta.fgpt, ln.ent[..]);
    assert im1 == FirstPass(im0, g, slotId);
    var stop;
    meta, stop := InsertPending(ln, g, gh, slotId, meta);
    assert FillFrom(im1, g, gh, slotId, 0) == Merged(im0, g, gh, slotId);
    if stop == GROUP {
      ln.meta := meta;
      newln, splitKey, oldCache, newCache, pos := null, 0, [], [], [];
    } else {
      newln, splitKey, oldCache, newCache, pos := SplitLeaf(ln, meta, g, gh, slotId, stop);
    }
  }
}
