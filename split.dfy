// The leaf split at the end of the merge (`split_leaf_node` in
// `insert_into_leaf`; the same code in the lock-based variant).  The full
// leaf's slots are sorted by key; the seven largest entries move, with their
// fingerprints, to slots 7..13 of a new leaf, their bits are cleared in the
// old leaf, the members still pending go to the new leaf when their key is
// at least the split key (the key of the eighth smallest entry) and to the
// old leaf otherwise, the old leaf links to the new one and the two bottom
// nodes' caches become the two smallest entries of each half.

module LeafSplit {
  import opened Bits
  import opened LeafNode
  import opened LeafSort
  import opened LeafMerge

  /** LEAF_KEY_NUM / 2: the split point. */
  const HALF: nat := 7

  /** CACHE_KEY_NUM */
  const CACHE: nat := 2

  /** 0, 1, ..., n-1: the positions before sorting. */
  function Iota(n: nat): (r: seq<int>)
    ensures |r| == n && forall i :: 0 <= i < n ==> r[i] == i
  {
    seq(n, i => i)
  }

  /** Every position names a slot. */
  predicate InRange(pos: seq<int>)
  {
    |pos| == SLOTS && forall i :: 0 <= i < SLOTS ==> 0 <= pos[i] < SLOTS
  }

  /** pos lists every slot exactly once. */
  ghost predicate IsPerm(pos: seq<int>)
  {
    InRange(pos)
    && (forall i, j :: 0 <= i < j < SLOTS ==> pos[i] != pos[j])
    && (forall s :: 0 <= s < SLOTS ==> s in pos)
  }

  lemma {:induction false} CountIota(n: nat, v: int)
    ensures multiset(Iota(n))[v] == if 0 <= v < n then 1 else 0
  {
    if n > 0 {
      CountIota(n - 1, v);
      assert Iota(n) == Iota(n - 1) + [n - 1];
    }
  }

  lemma CountTwo(s: seq<int>, i: int, j: int)
    requires 0 <= i < j < |s| && s[i] == s[j]
    ensures multiset(s)[s[i]] >= 2
  {
    assert s == s[..i] + [s[i]] + s[i + 1..j] + [s[j]] + s[j + 1..];
  }

  /** A rearrangement of 0..13 lists every slot once. */
  lemma PermOfIota(pos: seq<int>)
    requires |pos| == SLOTS && multiset(pos) == multiset(Iota(SLOTS))
    ensures IsPerm(pos)
  {
    forall i | 0 <= i < SLOTS ensures 0 <= pos[i] < SLOTS {
      assert pos[i] in multiset(pos);
      CountIota(SLOTS, pos[i]);
    }
    forall i, j | 0 <= i < j < SLOTS ensures pos[i] != pos[j] {
      if pos[i] == pos[j] {
        CountTwo(pos, i, j);
        CountIota(SLOTS, pos[i]);
      }
    }
    forall s | 0 <= s < SLOTS ensures s in pos {
      CountIota(SLOTS, s);
      assert s in multiset(pos);
    }
  }

  // ------------------------------------------------------- the two halves

  /** `freed_slots` after the moving loop has handled positions HALF..n-1. */
  function Freed(pos: seq<int>, n: nat): (f: seq<bool>)
    requires InRange(pos) && n <= SLOTS
    ensures |f| == SLOTS
  {
    if n <= HALF then Zeros(SLOTS) else Freed(pos, n - 1)[pos[n - 1] := true]
  }

  /** A slot is freed exactly when it is one of the positions moved. */
  lemma {:induction false} FreedSpec(pos: seq<int>, n: nat, s: int)
    requires InRange(pos) && n <= SLOTS && 0 <= s < SLOTS
    ensures Freed(pos, n)[s] <==> exists t :: HALF <= t < n && pos[t] == s
  {
    if n > HALF {
      FreedSpec(pos, n - 1, s);
    }
  }

  /** Seven slots are freed. */
  lemma {:induction false} FreedCount(pos: seq<int>, n: nat)
    requires IsPerm(pos) && HALF <= n <= SLOTS
    ensures PopCount(Freed(pos, n)) == n - HALF
  {
    if n > HALF {
      FreedCount(pos, n - 1);
      FreedSpec(pos, n - 1, pos[n - 1]);
      PopCountSet(Freed(pos, n - 1), pos[n - 1]);
    }
  }

  /** The new leaf before the pending members: the entries at positions
      pos[HALF..] in slots HALF.., with their fingerprints, bits HALF..13
      set; its other slots are as allocated. */
  function Upper(im: Image, pos: seq<int>): (r: Image)
    requires WfImage(im) && InRange(pos)
    ensures WfImage(r)
  {
    Image(HighOnes(SLOTS, HALF),
          seq(SLOTS, t requires 0 <= t < SLOTS => if t >= HALF then im.fg[pos[t]] else 0),
          seq(SLOTS, t requires 0 <= t < SLOTS => if t >= HALF then im.ents[pos[t]] else Entry(0, 0)))
  }

  /** The old leaf before the pending members: the moved slots' bits
      cleared (`meta.bitmap &= ~freed_slots`). */
  function Lower(im: Image, pos: seq<int>): (r: Image)
    requires WfImage(im) && InRange(pos)
    ensures WfImage(r) && r.fg == im.fg && r.ents == im.ents
  {
    Image(AndNot(im.bm, Freed(pos, SLOTS)), im.fg, im.ents)
  }

  /** The key at the split point. */
  function SplitKey(im: Image, pos: seq<int>): int64
    requires WfImage(im) && InRange(pos)
  {
    im.ents[pos[HALF]].k
  }

  /** The situation at `split_leaf_node`: a well-formed full leaf and its
      slots sorted by key. */
  ghost predicate SplitReady(im: Image, pos: seq<int>, fp: int64 -> bv8)
  {
    ImageOk(im, fp) && im.bm == FULL && IsPerm(pos) && Sorted(im.ents, pos, 0, SLOTS)
  }

  /** In a full leaf with unique keys the sorted order is strict. */
  lemma SortedStrict(im: Image, pos: seq<int>, fp: int64 -> bv8)
    requires SplitReady(im, pos, fp)
    ensures forall i, j :: 0 <= i < j < SLOTS ==> im.ents[pos[i]].k < im.ents[pos[j]].k
  {
    FullIffAllLive(im.bm);
    forall i, j | 0 <= i < j < SLOTS ensures im.ents[pos[i]].k < im.ents[pos[j]].k {
      assert KeyAt(im.ents, pos[i]) <= KeyAt(im.ents, pos[j]);
      assert im.bm[pos[i]] && im.bm[pos[j]] && pos[i] != pos[j];
    }
  }

  /** Below the split point keys are smaller than the split key, from it
      on they are at least the split key. */
  lemma SideOfPosition(im: Image, pos: seq<int>, fp: int64 -> bv8, t: int)
    requires SplitReady(im, pos, fp) && 0 <= t < SLOTS
    ensures im.ents[pos[t]].k < SplitKey(im, pos) <==> t < HALF
  {
    SortedStrict(im, pos, fp);
    if t > HALF {
      assert im.ents[pos[HALF]].k < im.ents[pos[t]].k;
    }
  }

  /** Each slot sits at one position. */
  lemma PositionOf(pos: seq<int>, s: int) returns (t: int)
    requires IsPerm(pos) && 0 <= s < SLOTS
    ensures 0 <= t < SLOTS && pos[t] == s
    ensures forall u :: 0 <= u < SLOTS && pos[u] == s ==> u == t
  {
    assert s in pos;
    t :| 0 <= t < SLOTS && pos[t] == s;
  }

  /** The old half keeps exactly the slots whose key is below the split
      key, seven of them. */
  lemma LowerOk(im: Image, pos: seq<int>, fp: int64 -> bv8)
    requires SplitReady(im, pos, fp)
    ensures var lo := Lower(im, pos);
      && ImageOk(lo, fp)
      && PopCount(lo.bm) == HALF
      && (forall s :: 0 <= s < SLOTS ==> (lo.bm[s] <==> im.ents[s].k < SplitKey(im, pos)))
  {
    var lo := Lower(im, pos);
    var sk := SplitKey(im, pos);
    FullIffAllLive(im.bm);
    forall s | 0 <= s < SLOTS ensures lo.bm[s] <==> im.ents[s].k < sk {
      var t := PositionOf(pos, s);
      FreedSpec(pos, SLOTS, s);
      SideOfPosition(im, pos, fp, t);
    }
    Shrink(im.bm, im.fg, im.ents, lo.bm, lo.fg, lo.ents, fp);
    FreedCount(pos, SLOTS);
    PopCountComplement(im.bm, Freed(pos, SLOTS));
  }

  /** The new half is well formed, holds seven entries, each with a key at
      least the split key. */
  lemma UpperOk(im: Image, pos: seq<int>, fp: int64 -> bv8)
    requires SplitReady(im, pos, fp)
    ensures var up := Upper(im, pos);
      && ImageOk(up, fp)
      && PopCount(up.bm) == HALF
      && (forall t :: 0 <= t < SLOTS && up.bm[t] ==> up.ents[t].k >= SplitKey(im, pos))
  {
    var up := Upper(im, pos);
    FullIffAllLive(im.bm);
    PopCountHighOnes(SLOTS, HALF);
    forall t | 0 <= t < SLOTS && up.bm[t] ensures up.ents[t].k >= SplitKey(im, pos) {
      SideOfPosition(im, pos, fp, t);
    }
    forall t | 0 <= t < SLOTS && up.bm[t] ensures up.fg[t] == fp(up.ents[t].k) {
      assert im.bm[pos[t]];
    }
    forall i, j | 0 <= i < SLOTS && 0 <= j < SLOTS && up.bm[i] && up.bm[j] && up.ents[i].k == up.ents[j].k
      ensures i == j
    {
      assert im.bm[pos[i]] && im.bm[pos[j]];
    }
  }

  /** The old half reads as the full leaf below the split key and as empty
      from it on. */
  lemma LowerReads(im: Image, pos: seq<int>, fp: int64 -> bv8, x: int64)
    requires SplitReady(im, pos, fp)
    ensures Read(Lower(im, pos), x) == if x < SplitKey(im, pos) then Read(im, x) else 0
  {
    var lo := Lower(im, pos);
    LowerOk(im, pos, fp);
    FullIffAllLive(im.bm);
    if s :| 0 <= s < SLOTS && im.ents[s].k == x {
      LookupLive(im.bm, im.ents, s, x);
      if x < SplitKey(im, pos) {
        LookupLive(lo.bm, lo.ents, s, x);
      } else {
        LookupAbsent(lo.bm, lo.ents, x);
      }
    } else {
      LookupAbsent(im.bm, im.ents, x);
      LookupAbsent(lo.bm, lo.ents, x);
    }
  }

  /** The new half reads as the full leaf from the split key on and as
      empty below it. */
  lemma UpperReads(im: Image, pos: seq<int>, fp: int64 -> bv8, x: int64)
    requires SplitReady(im, pos, fp)
    ensures Read(Upper(im, pos), x) == if x >= SplitKey(im, pos) then Read(im, x) else 0
  {
    var up := Upper(im, pos);
    UpperOk(im, pos, fp);
    FullIffAllLive(im.bm);
    if s :| 0 <= s < SLOTS && im.ents[s].k == x {
      LookupLive(im.bm, im.ents, s, x);
      var t := PositionOf(pos, s);
      SideOfPosition(im, pos, fp, t);
      if x >= SplitKey(im, pos) {
        assert up.bm[t] && up.ents[t] == im.ents[s];
        LookupLive(up.bm, up.ents, t, x);
      } else {
        LookupAbsent(up.bm, up.ents, x);
      }
    } else {
      LookupAbsent(im.bm, im.ents, x);
      forall t | 0 <= t < SLOTS && up.bm[t] ensures up.ents[t].k != x {
        assert up.ents[t] == im.ents[pos[t]];
      }
      LookupAbsent(up.bm, up.ents, x);
    }
  }

  // ----------------------------------------------- the pending members

  /** Member i is pending and on the given side of the split key (up: at
      least the split key). */
  predicate OnSide(g: seq<Entry>, slotId: seq<int>, i: nat, sk: int64, up: bool)
    requires i < |g| && i < |slotId|
  {
    Pending(g, slotId, i) && (g[i].k >= sk) == up
  }

  /** The members among lo..hi-1 that are pending on one side, in order. */
  function Side(g: seq<Entry>, slotId: seq<int>, lo: nat, hi: nat, sk: int64, up: bool): (L: seq<nat>)
    requires |g| == |slotId| == GROUP && lo <= hi <= GROUP
    ensures |L| <= hi - lo
    ensures forall k :: 0 <= k < |L| ==> lo <= L[k] < hi && OnSide(g, slotId, L[k], sk, up)
    decreases hi - lo
  {
    if lo >= hi then []
    else (if OnSide(g, slotId, lo, sk, up) then [lo] else []) + Side(g, slotId, lo + 1, hi, sk, up)
  }

  /** Side grows at the top as the loop over the members advances. */
  lemma {:induction false} SideSnoc(g: seq<Entry>, slotId: seq<int>, lo: nat, hi: nat, sk: int64, up: bool)
    requires |g| == |slotId| == GROUP && lo <= hi < GROUP
    ensures Side(g, slotId, lo, hi + 1, sk, up)
         == Side(g, slotId, lo, hi, sk, up) + (if OnSide(g, slotId, hi, sk, up) then [hi] else [])
    decreases hi - lo
  {
    if lo < hi {
      SideSnoc(g, slotId, lo + 1, hi, sk, up);
    }
  }

  /** The members listed in L placed one after the other, each into the
      lowest free slot with its fingerprint from gh. */
  function PlaceAll(im: Image, g: seq<Entry>, gh: seq<bv8>, L: seq<nat>): (r: Image)
    requires WfImage(im) && |g| == |gh| == GROUP
    requires (forall k :: 0 <= k < |L| ==> L[k] < GROUP) && PopCount(im.bm) + |L| <= SLOTS
    ensures WfImage(r) && PopCount(r.bm) == PopCount(im.bm) + |L|
    decreases |L|
  {
    if L == [] then im
    else
      PopCountAll(im.bm);
      FullIffAllLive(im.bm);
      PlaceCount(im, g[L[0]], gh[L[0]]);
      PlaceAll(Place(im, g[L[0]], gh[L[0]]), g, gh, L[1..])
  }

  /** The value of x once the members listed in L are written, in order,
      over a leaf where x had value d. */
  ghost function AfterList(g: seq<Entry>, L: seq<nat>, x: int64, d: int64): int64
    requires forall k :: 0 <= k < |L| ==> L[k] < |g|
    decreases |L|
  {
    if L == [] then d
    else AfterList(g, L[1..], x, if g[L[0]].k == x then g[L[0]].v else d)
  }

  /** L lists distinct members, each absent from im. */
  ghost predicate Fresh(im: Image, g: seq<Entry>, L: seq<nat>)
    requires WfImage(im)
  {
    (forall k :: 0 <= k < |L| ==> L[k] < |g| && Absent(im, g[L[k]].k))
    && (forall k, k' :: 0 <= k < k' < |L| ==> L[k] != L[k'])
  }

  /** After the first member is placed the others are still fresh. */
  lemma FreshRest(im: Image, g: seq<Entry>, f: bv8, L: seq<nat>)
    requires WfImage(im) && DistinctKeys(g) && Fresh(im, g, L) && L != [] && im.bm != FULL
    ensures Fresh(Place(im, g[L[0]], f), g, L[1..])
  {
    FullIffAllLive(im.bm);
    var s := LowestClear(im.bm);
    var p := Place(im, g[L[0]], f);
    forall k | 1 <= k < |L| ensures Absent(p, g[L[k]].k) {
      assert L[k] != L[0];
      assert g[L[k]].k != g[L[0]].k;
      forall j | 0 <= j < SLOTS && p.bm[j] ensures p.ents[j].k != g[L[k]].k {
        if j != s {
          assert im.bm[j] && p.ents[j] == im.ents[j];
        }
      }
    }
  }

  /** Placing distinct absent members keeps the leaf well formed and every
      live slot. */
  lemma {:induction false} PlaceAllOk(im: Image, g: seq<Entry>, gh: seq<bv8>, L: seq<nat>, fp: int64 -> bv8)
    requires ImageOk(im, fp) && DistinctKeys(g) && Hashes(g, gh, fp) && |g| == GROUP
    requires Fresh(im, g, L) && PopCount(im.bm) + |L| <= SLOTS
    ensures var r := PlaceAll(im, g, gh, L);
      && ImageOk(r, fp)
      && (forall j :: 0 <= j < SLOTS && im.bm[j] ==> r.bm[j] && r.ents[j] == im.ents[j])
    decreases |L|
  {
    if L != [] {
      PopCountAll(im.bm);
      FullIffAllLive(im.bm);
      var p := Place(im, g[L[0]], gh[L[0]]);
      PlaceOk(im, g[L[0]], gh[L[0]], fp);
      FreshRest(im, g, gh[L[0]], L);
      PlaceAllOk(p, g, gh, L[1..], fp);
      assert PlaceAll(im, g, gh, L) == PlaceAll(p, g, gh, L[1..]);
    }
  }

  /** After placing distinct absent members every key reads as AfterList
      says. */
  lemma {:induction false} PlaceAllReads(im: Image, g: seq<Entry>, gh: seq<bv8>, L: seq<nat>, x: int64)
    requires WfImage(im) && UniqueKeys(im.bm, im.ents) && DistinctKeys(g) && |g| == |gh| == GROUP
    requires Fresh(im, g, L) && PopCount(im.bm) + |L| <= SLOTS
    ensures Read(PlaceAll(im, g, gh, L), x) == AfterList(g, L, x, Read(im, x))
    decreases |L|
  {
    if L != [] {
      PopCountAll(im.bm);
      FullIffAllLive(im.bm);
      var p := Place(im, g[L[0]], gh[L[0]]);
      var s := LowestClear(im.bm);
      assert p.bm == im.bm[s := true] && p.ents == im.ents[s := g[L[0]]];
      InsertSlot(im.bm, im.ents, s, g[L[0]]);
      PlaceReads(im, g[L[0]], gh[L[0]], x);
      FreshRest(im, g, gh[L[0]], L);
      PopCountSet(im.bm, s);
      PlaceAllReads(p, g, gh, L[1..], x);
      assert PlaceAll(im, g, gh, L) == PlaceAll(p, g, gh, L[1..]);
    }
  }

  /** Members whose keys all differ from x leave it alone. */
  lemma {:induction false} AfterListOther(g: seq<Entry>, L: seq<nat>, x: int64, d: int64)
    requires forall k :: 0 <= k < |L| ==> L[k] < |g| && g[L[k]].k != x
    ensures AfterList(g, L, x, d) == d
    decreases |L|
  {
    if L != [] {
      AfterListOther(g, L[1..], x, d);
    }
  }

  /** A member on one side with key x: writing that side gives x its value,
      since no later member has key x. */
  lemma SideAfterHit(g: seq<Entry>, slotId: seq<int>, lo: nat, hi: nat, sk: int64, up: bool, x: int64, d: int64)
    requires |g| == |slotId| == GROUP && lo < hi <= GROUP && DistinctKeys(g)
    requires OnSide(g, slotId, lo, sk, up) && g[lo].k == x
    ensures AfterList(g, Side(g, slotId, lo, hi, sk, up), x, d) == g[lo].v
  {
    var L := Side(g, slotId, lo, hi, sk, up);
    var R := Side(g, slotId, lo + 1, hi, sk, up);
    assert L[0] == lo && L[1..] == R;
    forall k | 0 <= k < |R| ensures g[R[k]].k != x {
      assert lo < R[k] < GROUP;
    }
    AfterListOther(g, R, x, g[lo].v);
  }

  /** For a key on one side of the split key, writing that side's pending
      members gives it the value writing all pending members would. */
  lemma {:induction false} SideAfter(g: seq<Entry>, slotId: seq<int>, lo: nat, hi: nat, sk: int64, up: bool, x: int64, d: int64)
    requires |g| == |slotId| == GROUP && lo <= hi <= GROUP && DistinctKeys(g) && (x >= sk) == up
    ensures AfterList(g, Side(g, slotId, lo, hi, sk, up), x, d) == AfterPlaced(g, slotId, lo, hi, x, d)
    decreases hi - lo
  {
    if lo < hi {
      if OnSide(g, slotId, lo, sk, up) && g[lo].k == x {
        SideAfterHit(g, slotId, lo, hi, sk, up, x, d);
      } else {
        SideAfter(g, slotId, lo + 1, hi, sk, up, x, d);
        var L := Side(g, slotId, lo, hi, sk, up);
        var R := Side(g, slotId, lo + 1, hi, sk, up);
        if OnSide(g, slotId, lo, sk, up) {
          assert L[0] == lo && L[1..] == R;
        } else {
          assert L == R;
        }
      }
    }
  }

  // ------------------------------------------------------ the outcome

  /** The old leaf after the split: the lower half with the pending members
      below the split key added. */
  function OldLeaf(im: Image, pos: seq<int>, g: seq<Entry>, gh: seq<bv8>, slotId: seq<int>, index: nat): (r: Image)
    requires WfImage(im) && im.bm == FULL && IsPerm(pos)
    requires |g| == |gh| == |slotId| == GROUP && index <= GROUP
    ensures WfImage(r)
  {
    FreedCount(pos, SLOTS);
    PopCountComplement(im.bm, Freed(pos, SLOTS));
    PlaceAll(Lower(im, pos), g, gh, Side(g, slotId, index, GROUP, SplitKey(im, pos), false))
  }

  /** The new leaf after the split: the upper half with the pending members
      at or above the split key added. */
  function NewLeaf(im: Image, pos: seq<int>, g: seq<Entry>, gh: seq<bv8>, slotId: seq<int>, index: nat): (r: Image)
    requires WfImage(im) && InRange(pos)
    requires |g| == |gh| == |slotId| == GROUP && index <= GROUP
    ensures WfImage(r)
  {
    PopCountHighOnes(SLOTS, HALF);
    PlaceAll(Upper(im, pos), g, gh, Side(g, slotId, index, GROUP, SplitKey(im, pos), true))
  }

  /** Placing members from one side of the split key into a leaf whose
      live keys are all on that side keeps every live key on that side. */
  lemma {:induction false} PlaceAllSide(im: Image, g: seq<Entry>, gh: seq<bv8>, L: seq<nat>, sk: int64, up: bool)
    requires WfImage(im) && |g| == |gh| == GROUP
    requires (forall k :: 0 <= k < |L| ==> L[k] < GROUP && (g[L[k]].k >= sk) == up) && PopCount(im.bm) + |L| <= SLOTS
    requires forall j :: 0 <= j < SLOTS && im.bm[j] ==> (im.ents[j].k >= sk) == up
    ensures forall j :: 0 <= j < SLOTS && PlaceAll(im, g, gh, L).bm[j] ==> (PlaceAll(im, g, gh, L).ents[j].k >= sk) == up
    decreases |L|
  {
    if L != [] {
      PopCountAll(im.bm);
      FullIffAllLive(im.bm);
      var p := Place(im, g[L[0]], gh[L[0]]);
      var s := LowestClear(im.bm);
      assert p.bm == im.bm[s := true] && p.ents == im.ents[s := g[L[0]]];
      PopCountSet(im.bm, s);
      forall j | 0 <= j < SLOTS && p.bm[j] ensures (p.ents[j].k >= sk) == up {
        if j != s {
          assert im.bm[j] && p.ents[j] == im.ents[j];
        }
      }
      PlaceAllSide(p, g, gh, L[1..], sk, up);
      assert PlaceAll(im, g, gh, L) == PlaceAll(p, g, gh, L[1..]);
    }
  }

  /** Side lists its members in increasing order. */
  lemma {:induction false} SideIncreasing(g: seq<Entry>, slotId: seq<int>, lo: nat, hi: nat, sk: int64, up: bool)
    requires |g| == |slotId| == GROUP && lo <= hi <= GROUP
    ensures forall k, k' :: 0 <= k < k' < |Side(g, slotId, lo, hi, sk, up)| ==>
      Side(g, slotId, lo, hi, sk, up)[k] < Side(g, slotId, lo, hi, sk, up)[k']
    decreases hi - lo
  {
    if lo < hi {
      SideIncreasing(g, slotId, lo + 1, hi, sk, up);
    }
  }

  /** The pending members of one side are absent from the lower half. */
  lemma LowerFresh(im: Image, pos: seq<int>, g: seq<Entry>, slotId: seq<int>, index: nat, sk: int64, up: bool)
    requires WfImage(im) && InRange(pos) && |g| == |slotId| == GROUP && index <= GROUP
    requires PendingAbsent(im, g, slotId, index)
    ensures Fresh(Lower(im, pos), g, Side(g, slotId, index, GROUP, sk, up))
  {
    var lo := Lower(im, pos);
    var L := Side(g, slotId, index, GROUP, sk, up);
    forall k | 0 <= k < |L| ensures Absent(lo, g[L[k]].k) {
      assert Absent(im, g[L[k]].k);
      forall j | 0 <= j < SLOTS && lo.bm[j] ensures lo.ents[j].k != g[L[k]].k {
        assert im.bm[j];
      }
    }
    SideIncreasing(g, slotId, index, GROUP, sk, up);
  }

  /** The pending members of one side are absent from the upper half. */
  lemma UpperFresh(im: Image, pos: seq<int>, g: seq<Entry>, slotId: seq<int>, index: nat, sk: int64, up: bool)
    requires WfImage(im) && im.bm == FULL && InRange(pos) && |g| == |slotId| == GROUP && index <= GROUP
    requires PendingAbsent(im, g, slotId, index)
    ensures Fresh(Upper(im, pos), g, Side(g, slotId, index, GROUP, sk, up))
  {
    var hi := Upper(im, pos);
    var L := Side(g, slotId, index, GROUP, sk, up);
    FullIffAllLive(im.bm);
    forall k | 0 <= k < |L| ensures Absent(hi, g[L[k]].k) {
      assert Absent(im, g[L[k]].k);
      forall j | 0 <= j < SLOTS && hi.bm[j] ensures hi.ents[j].k != g[L[k]].k {
        assert im.bm[pos[j]] && hi.ents[j] == im.ents[pos[j]];
      }
    }
    SideIncreasing(g, slotId, index, GROUP, sk, up);
  }

  /** The old leaf after the split is well formed, holds keys below the
      split key only, and holds its seven entries plus the pending members
      below the split key. */
  lemma SplitOldOk(im: Image, pos: seq<int>, g: seq<Entry>, gh: seq<bv8>, slotId: seq<int>, index: nat, fp: int64 -> bv8)
    requires SplitReady(im, pos, fp) && DistinctKeys(g) && Hashes(g, gh, fp) && |g| == |slotId| == GROUP
    requires index <= GROUP && PendingAbsent(im, g, slotId, index)
    ensures ImageOk(OldLeaf(im, pos, g, gh, slotId, index), fp)
    ensures forall j :: 0 <= j < SLOTS && OldLeaf(im, pos, g, gh, slotId, index).bm[j] ==>
      OldLeaf(im, pos, g, gh, slotId, index).ents[j].k < SplitKey(im, pos)
    ensures PopCount(OldLeaf(im, pos, g, gh, slotId, index).bm) == HALF + |Side(g, slotId, index, GROUP, SplitKey(im, pos), false)|
  {
    var sk := SplitKey(im, pos);
    var lo := Lower(im, pos);
    var L := Side(g, slotId, index, GROUP, sk, false);
    LowerOk(im, pos, fp);
    LowerFresh(im, pos, g, slotId, index, sk, false);
    PlaceAllOk(lo, g, gh, L, fp);
    PlaceAllSide(lo, g, gh, L, sk, false);
    assert OldLeaf(im, pos, g, gh, slotId, index) == PlaceAll(lo, g, gh, L);
  }

  /** The new leaf after the split is well formed, holds keys at or above
      the split key only, and holds its seven entries plus the pending
      members at or above the split key. */
  lemma SplitNewOk(im: Image, pos: seq<int>, g: seq<Entry>, gh: seq<bv8>, slotId: seq<int>, index: nat, fp: int64 -> bv8)
    requires SplitReady(im, pos, fp) && DistinctKeys(g) && Hashes(g, gh, fp) && |g| == |slotId| == GROUP
    requires index <= GROUP && PendingAbsent(im, g, slotId, index)
    ensures ImageOk(NewLeaf(im, pos, g, gh, slotId, index), fp)
    ensures forall j :: 0 <= j < SLOTS && NewLeaf(im, pos, g, gh, slotId, index).bm[j] ==>
      NewLeaf(im, pos, g, gh, slotId, index).ents[j].k >= SplitKey(im, pos)
    ensures PopCount(NewLeaf(im, pos, g, gh, slotId, index).bm) == HALF + |Side(g, slotId, index, GROUP, SplitKey(im, pos), true)|
  {
    var sk := SplitKey(im, pos);
    var up := Upper(im, pos);
    var L := Side(g, slotId, index, GROUP, sk, true);
    UpperOk(im, pos, fp);
    UpperFresh(im, pos, g, slotId, index, sk, true);
    PlaceAllOk(up, g, gh, L, fp);
    PlaceAllSide(up, g, gh, L, sk, true);
    assert NewLeaf(im, pos, g, gh, slotId, index) == PlaceAll(up, g, gh, L);
  }

  /** After the split a key below the split key reads in the old leaf as
      merging the pending members into the full leaf would give; any other
      key is absent from it. */
  lemma SplitOldReads(im: Image, pos: seq<int>, g: seq<Entry>, gh: seq<bv8>, slotId: seq<int>, index: nat, fp: int64 -> bv8, x: int64)
    requires SplitReady(im, pos, fp) && DistinctKeys(g) && Hashes(g, gh, fp) && |g| == |slotId| == GROUP
    requires index <= GROUP && PendingAbsent(im, g, slotId, index)
    ensures Read(OldLeaf(im, pos, g, gh, slotId, index), x)
         == if x < SplitKey(im, pos) then AfterPlaced(g, slotId, index, GROUP, x, Read(im, x)) else 0
  {
    var sk := SplitKey(im, pos);
    var lo := Lower(im, pos);
    var L := Side(g, slotId, index, GROUP, sk, false);
    LowerOk(im, pos, fp);
    LowerFresh(im, pos, g, slotId, index, sk, false);
    PlaceAllReads(lo, g, gh, L, x);
    LowerReads(im, pos, fp, x);
    assert OldLeaf(im, pos, g, gh, slotId, index) == PlaceAll(lo, g, gh, L);
    if x < sk {
      SideAfter(g, slotId, index, GROUP, sk, false, x, Read(im, x));
    } else {
      AfterListOther(g, L, x, 0);
    }
  }

  /** After the split a key at or above the split key reads in the new leaf
      as merging the pending members into the full leaf would give; any
      other key is absent from it. */
  lemma SplitNewReads(im: Image, pos: seq<int>, g: seq<Entry>, gh: seq<bv8>, slotId: seq<int>, index: nat, fp: int64 -> bv8, x: int64)
    requires SplitReady(im, pos, fp) && DistinctKeys(g) && Hashes(g, gh, fp) && |g| == |slotId| == GROUP
    requires index <= GROUP && PendingAbsent(im, g, slotId, index)
    ensures Read(NewLeaf(im, pos, g, gh, slotId, index), x)
         == if x >= SplitKey(im, pos) then AfterPlaced(g, slotId, index, GROUP, x, Read(im, x)) else 0
  {
    var sk := SplitKey(im, pos);
    var up := Upper(im, pos);
    var L := Side(g, slotId, index, GROUP, sk, true);
    UpperOk(im, pos, fp);
    UpperFresh(im, pos, g, slotId, index, sk, true);
    PlaceAllReads(up, g, gh, L, x);
    UpperReads(im, pos, fp, x);
    assert NewLeaf(im, pos, g, gh, slotId, index) == PlaceAll(up, g, gh, L);
    if x >= sk {
      SideAfter(g, slotId, index, GROUP, sk, true, x, Read(im, x));
    } else {
      AfterListOther(g, L, x, 0);
    }
  }

  /** A cached entry of the full leaf, taken from the positions the split
      caches, is still there with its value after the split. */
  lemma {:induction false} AfterPlacedLive(im: Image, g: seq<Entry>, slotId: seq<int>, lo: nat, x: int64, d: int64)
    requires WfImage(im) && |g| == |slotId| == GROUP && lo <= GROUP && PendingAbsent(im, g, slotId, lo)
    requires exists t :: 0 <= t < SLOTS && im.bm[t] && im.ents[t].k == x
    ensures AfterPlaced(g, slotId, lo, GROUP, x, d) == d
    decreases GROUP - lo
  {
    if lo < GROUP {
      AfterPlacedLive(im, g, slotId, lo + 1, x, d);
    }
  }

  /** The entries the two bottom nodes cache after the split (the two
      smallest of each half) are held, with their values, by the leaf
      whose bottom node caches them. */
  lemma SplitCaches(im: Image, pos: seq<int>, g: seq<Entry>, gh: seq<bv8>, slotId: seq<int>, index: nat, fp: int64 -> bv8, c: nat)
    requires SplitReady(im, pos, fp) && DistinctKeys(g) && Hashes(g, gh, fp) && |g| == |slotId| == GROUP
    requires index <= GROUP && PendingAbsent(im, g, slotId, index) && c < CACHE
    ensures var o, n := im.ents[pos[c]], im.ents[pos[HALF + c]];
      && Read(OldLeaf(im, pos, g, gh, slotId, index), o.k) == o.v
      && Read(NewLeaf(im, pos, g, gh, slotId, index), n.k) == n.v
  {
    var o, n := im.ents[pos[c]], im.ents[pos[HALF + c]];
    FullIffAllLive(im.bm);
    SideOfPosition(im, pos, fp, c);
    SideOfPosition(im, pos, fp, HALF + c);
    SplitOldReads(im, pos, g, gh, slotId, index, fp, o.k);
    SplitNewReads(im, pos, g, gh, slotId, index, fp, n.k);
    LookupLive(im.bm, im.ents, pos[c], o.k);
    LookupLive(im.bm, im.ents, pos[HALF + c], n.k);
    assert im.bm[pos[c]] && im.bm[pos[HALF + c]];
    AfterPlacedLive(im, g, slotId, index, o.k, o.v);
    AfterPlacedLive(im, g, slotId, index, n.k, n.v);
  }

  // ------------------------------------------------------ the method

  /** Side unfolded at its lowest member. */
  lemma SideHead(g: seq<Entry>, slotId: seq<int>, j: nat, sk: int64, up: bool)
    requires |g| == |slotId| == GROUP && j < GROUP
    ensures var L, R := Side(g, slotId, j, GROUP, sk, up), Side(g, slotId, j + 1, GROUP, sk, up);
      if OnSide(g, slotId, j, sk, up) then L != [] && L[0] == j && L[1..] == R else L == R
  {
  }

  /** PlaceAll unfolded at its first member, which fits. */
  lemma PlaceHead(im: Image, g: seq<Entry>, gh: seq<bv8>, L: seq<nat>)
    requires WfImage(im) && |g| == |gh| == GROUP && L != []
    requires (forall k :: 0 <= k < |L| ==> L[k] < GROUP) && PopCount(im.bm) + |L| <= SLOTS
    ensures im.bm != FULL && exists i :: 0 <= i < SLOTS && !im.bm[i]
    ensures var p := Place(im, g[L[0]], gh[L[0]]);
      && PopCount(p.bm) + |L[1..]| <= SLOTS
      && PlaceAll(im, g, gh, L) == PlaceAll(p, g, gh, L[1..])
  {
    PopCountAll(im.bm);
    FullIffAllLive(im.bm);
    PlaceCount(im, g[L[0]], gh[L[0]]);
  }

  /** The moving loop: the entries at sorted positions HALF.. go, with
      their fingerprints from the local metadata, to the same slots of a
      fresh leaf, which then gets bits HALF..13 and the old leaf's
      successor; freed collects the positions moved. */
  method MoveUpper(ln: LNode, meta: Meta, pos: array<int>) returns (newln: LNode, freed: seq<bool>)
    requires ln.Valid() && WfMeta(meta) && InRange(pos[..])
    ensures fresh(newln) && fresh(newln.ent) && newln.Valid()
    ensures newln.meta.next == ln.meta.next
    ensures Image(newln.meta.bitmap, newln.meta.fgpt, newln.ent[..]) == Upper(Image(meta.bitmap, meta.fgpt, ln.ent[..]), pos[..])
    ensures freed == Freed(pos[..], SLOTS)
  {
    ghost var im := Image(meta.bitmap, meta.fgpt, ln.ent[..]);
    ghost var ps := pos[..];
    newln := new LNode();
    freed := Zeros(SLOTS);
    for i := HALF to SLOTS
      invariant newln.Valid() && newln.meta.next == null
      invariant freed == Freed(ps, i)
      invariant newln.ent[..] == seq(SLOTS, t requires 0 <= t < SLOTS => if HALF <= t < i then im.ents[ps[t]] else Entry(0, 0))
      invariant newln.meta.fgpt == seq(SLOTS, t requires 0 <= t < SLOTS => if HALF <= t < i then im.fg[ps[t]] else 0)
    {
      newln.ent[i] := ln.ent[pos[i]];
      newln.meta := newln.meta.(fgpt := newln.meta.fgpt[i := meta.fgpt[pos[i]]]);
      freed := freed[pos[i] := true];
    }
    newln.meta := newln.meta.(bitmap := HighOnes(SLOTS, HALF), next := ln.meta.next);
    assert newln.ent[..] == Upper(im, pos[..]).ents;
    assert newln.meta.fgpt == Upper(im, pos[..]).fg;
  }

  /** The loop over the members still pending: those at or above the split
      key go into the lowest free slot of the new leaf, the others are
      listed for later (`remaining_index`).  The new leaf's metadata is
      edited in a local copy and stored once at the end; nothing can reach
      the new leaf before the old one links to it. */
  method PlaceUpper(newln: LNode, g: seq<Entry>, gh: seq<bv8>, slotId: seq<int>, index: nat, sk: int64)
    returns (remaining: seq<nat>)
    requires newln.Valid() && |g| == |gh| == |slotId| == GROUP && index <= GROUP
    requires PopCount(newln.meta.bitmap) + |Side(g, slotId, index, GROUP, sk, true)| <= SLOTS
    modifies newln, newln.ent
    ensures newln.Valid() && newln.meta.next == old(newln.meta.next)
    ensures Image(newln.meta.bitmap, newln.meta.fgpt, newln.ent[..])
         == PlaceAll(Image(old(newln.meta.bitmap), old(newln.meta.fgpt), old(newln.ent[..])), g, gh, Side(g, slotId, index, GROUP, sk, true))
    ensures remaining == Side(g, slotId, index, GROUP, sk, false)
  {
    var m := newln.meta;
    ghost var im0 := Image(m.bitmap, m.fgpt, newln.ent[..]);
    ghost var T0 := Side(g, slotId, index, GROUP, sk, true);
    remaining := [];
    for j := index to GROUP
      invariant WfMeta(m) && m.next == old(newln.meta.next)
      invariant PopCount(m.bitmap) + |Side(g, slotId, j, GROUP, sk, true)| <= SLOTS
      invariant PlaceAll(Image(m.bitmap, m.fgpt, newln.ent[..]), g, gh, Side(g, slotId, j, GROUP, sk, true))
             == PlaceAll(im0, g, gh, T0)
      invariant remaining == Side(g, slotId, index, j, sk, false)
    {
      ghost var im := Image(m.bitmap, m.fgpt, newln.ent[..]);
      SideHead(g, slotId, j, sk, true);
      SideSnoc(g, slotId, index, j, sk, false);
      if slotId[j] == -1 && g[j].v != 0 {
        if g[j].k >= sk {
          PlaceHead(im, g, gh, Side(g, slotId, j, GROUP, sk, true));
          m := PutLowest(newln.ent, m, g[j], gh[j]);
        } else {
          remaining := remaining + [j];
        }
      }
    }
    newln.meta := m;
  }

  /** The old leaf's side of the split: its local metadata (the moved bits
      cleared, linked to the new leaf) is stored (`setMeta`), the members
      deferred by the loop above go into its lowest free slots, and the
      metadata is stored again. */
  method PlaceRemaining(ln: LNode, meta0: Meta, g: seq<Entry>, gh: seq<bv8>, remaining: seq<nat>)
    requires ln.Valid() && WfMeta(meta0) && |g| == |gh| == GROUP
    requires (forall k :: 0 <= k < |remaining| ==> remaining[k] < GROUP) && PopCount(meta0.bitmap) + |remaining| <= SLOTS
    modifies ln, ln.ent
    ensures ln.Valid() && ln.meta.next == meta0.next
    ensures Image(ln.meta.bitmap, ln.meta.fgpt, ln.ent[..]) == PlaceAll(Image(meta0.bitmap, meta0.fgpt, old(ln.ent[..])), g, gh, remaining)
  {
    ln.meta := meta0;
    var meta := PlaceList(ln.ent, meta0, g, gh, remaining);
    ln.meta := meta;
  }

  /** The loop over the deferred members, on the slot array and a local
      copy of the metadata: each goes into the lowest free slot. */
  method PlaceList(ent: array<Entry>, meta0: Meta, g: seq<Entry>, gh: seq<bv8>, remaining: seq<nat>) returns (meta: Meta)
    requires ent.Length == SLOTS && WfMeta(meta0) && |g| == |gh| == GROUP
    requires (forall k :: 0 <= k < |remaining| ==> remaining[k] < GROUP) && PopCount(meta0.bitmap) + |remaining| <= SLOTS
    modifies ent
    ensures WfMeta(meta) && meta.next == meta0.next
    ensures Image(meta.bitmap, meta.fgpt, ent[..]) == PlaceAll(Image(meta0.bitmap, meta0.fgpt, old(ent[..])), g, gh, remaining)
  {
    ghost var im0 := Image(meta0.bitmap, meta0.fgpt, ent[..]);
    meta := meta0;
    ghost var rest := remaining;
    for k := 0 to |remaining|
      invariant WfMeta(meta) && meta.next == meta0.next && rest == remaining[k..]
      invariant PopCount(meta.bitmap) + |rest| <= SLOTS
      invariant PlaceAll(Image(meta.bitmap, meta.fgpt, ent[..]), g, gh, rest) == PlaceAll(im0, g, gh, remaining)
    {
      ghost var im := Image(meta.bitmap, meta.fgpt, ent[..]);
      assert rest[0] == remaining[k] && rest[1..] == remaining[k + 1..];
      PlaceHead(im, g, gh, rest);
      meta := PutLowest(ent, meta, g[remaining[k]], gh[remaining[k]]);
      rest := rest[1..];
    }
  }

  /** The slot positions sorted by key (`sorted_pos` and `qsortBleaf`). */
  method SortSlots(ln: LNode) returns (sortedPos: array<int>)
    requires ln.Valid()
    ensures fresh(sortedPos) && IsPerm(sortedPos[..]) && Sorted(ln.ent[..], sortedPos[..], 0, SLOTS)
  {
    sortedPos := new int[SLOTS](i => i);
    assert sortedPos[..] == Iota(SLOTS);
    QsortBleaf(ln, 0, SLOTS - 1, sortedPos);
    PermOfIota(sortedPos[..]);
  }

  /** The cache loop: the two smallest entries of each half. */
  method CachedEntries(ln: LNode, sortedPos: array<int>) returns (oldCache: seq<Entry>, newCache: seq<Entry>)
    requires ln.Valid() && InRange(sortedPos[..])
    ensures oldCache == [ln.ent[sortedPos[0]], ln.ent[sortedPos[1]]]
    ensures newCache == [ln.ent[sortedPos[HALF]], ln.ent[sortedPos[HALF + 1]]]
  {
    oldCache, newCache := [], [];
    for i := 0 to CACHE
      invariant |oldCache| == |newCache| == i
      invariant forall c :: 0 <= c < i ==> oldCache[c] == ln.ent[sortedPos[c]] && newCache[c] == ln.ent[sortedPos[HALF + c]]
    {
      oldCache := oldCache + [ln.ent[sortedPos[i]]];
      newCache := newCache + [ln.ent[sortedPos[i + HALF]]];
    }
  }

  /** The part of `split_leaf_node` that builds the new leaf: the moving
      loop, the new leaf's header and the pending members at or above the
      split key; it also returns the old leaf's local metadata with the
      moved bits cleared and the link to the new leaf, and the members
      deferred to the old leaf.  The old leaf is only read. */
  method BuildNew(ln: LNode, meta0: Meta, sortedPos: array<int>, g: seq<Entry>, gh: seq<bv8>, slotId: seq<int>, index: nat)
    returns (newln: LNode, meta: Meta, remaining: seq<nat>)
    requires ln.Valid() && WfMeta(meta0) && meta0.bitmap == FULL && IsPerm(sortedPos[..])
    requires |g| == |gh| == |slotId| == GROUP && index <= GROUP
    ensures fresh(newln) && fresh(newln.ent) && newln.Valid() && newln.meta.next == ln.meta.next
    ensures var im0 := Image(meta0.bitmap, meta0.fgpt, ln.ent[..]);
      var sk := SplitKey(im0, sortedPos[..]);
      && Image(newln.meta.bitmap, newln.meta.fgpt, newln.ent[..]) == NewLeaf(im0, sortedPos[..], g, gh, slotId, index)
      && WfMeta(meta) && meta.next == newln && PopCount(meta.bitmap) == HALF
      && Image(meta.bitmap, meta.fgpt, ln.ent[..]) == Lower(im0, sortedPos[..])
      && remaining == Side(g, slotId, index, GROUP, sk, false)
  {
    ghost var im0 := Image(meta0.bitmap, meta0.fgpt, ln.ent[..]);
    ghost var pos := sortedPos[..];
    var splitKey := ln.ent[sortedPos[HALF]].k;

    var freed;
    newln, freed := MoveUpper(ln, meta0, sortedPos);
    assert Image(newln.meta.bitmap, newln.meta.fgpt, newln.ent[..]) == Upper(im0, pos);
    PopCountHighOnes(SLOTS, HALF);
    remaining := PlaceUpper(newln, g, gh, slotId, index, splitKey);
    meta := meta0.(bitmap := AndNot(meta0.bitmap, freed), next := newln);
    FullIffAllLive(meta0.bitmap);
    FreedCount(pos, SLOTS);
    PopCountComplement(meta0.bitmap, Freed(pos, SLOTS));
  }

  /** `split_leaf_node`: the full leaf (local metadata meta0, entries in
      place) splits as OldLeaf and NewLeaf say around the split key; the old
      leaf links to the new one, which takes over its successor; the two
      smallest entries of each half are returned for the bottom nodes'
      caches.  The old leaf's metadata is stored twice (`setMeta`), before
      and after the deferred members are placed.  The sorted positions are
      returned for the specification. */
  method SplitLeaf(ln: LNode, meta0: Meta, g: seq<Entry>, gh: seq<bv8>, slotId: seq<int>, index: nat)
    returns (newln: LNode, splitKey: int64, oldCache: seq<Entry>, newCache: seq<Entry>, ghost pos: seq<int>)
    requires ln.Valid() && WfMeta(meta0) && meta0.bitmap == FULL
    requires |g| == |gh| == |slotId| == GROUP && index <= GROUP
    modifies ln, ln.ent
    ensures fresh(newln) && fresh(newln.ent) && ln.Valid() && newln.Valid()
    ensures ln.meta.next == newln && newln.meta.next == old(ln.meta.next)
    ensures var im0 := Image(meta0.bitmap, meta0.fgpt, old(ln.ent[..]));
      && IsPerm(pos) && Sorted(im0.ents, pos, 0, SLOTS)
      && Image(ln.meta.bitmap, ln.meta.fgpt, ln.ent[..]) == OldLeaf(im0, pos, g, gh, slotId, index)
      && Image(newln.meta.bitmap, newln.meta.fgpt, newln.ent[..]) == NewLeaf(im0, pos, g, gh, slotId, index)
      && splitKey == SplitKey(im0, pos)
      && oldCache == [im0.ents[pos[0]], im0.ents[pos[1]]]
      && newCache == [im0.ents[pos[HALF]], im0.ents[pos[HALF + 1]]]
  {
    ghost var im0 := Image(meta0.bitmap, meta0.fgpt, ln.ent[..]);
    var sortedPos := SortSlots(ln);
    pos := sortedPos[..];
    oldCache, newCache := CachedEntries(ln, sortedPos);
    splitKey := ln.ent[sortedPos[HALF]].k;
    var meta, remaining;
    newln, meta, remaining := BuildNew(ln, meta0, sortedPos, g, gh, slotId, index);
    ghost var newIm := Image(newln.meta.bitmap, newln.meta.fgpt, newln.ent[..]);
    PlaceRemaining(ln, meta, g, gh, remaining);
    assert Image(newln.meta.bitmap, newln.meta.fgpt, newln.ent[..]) == newIm;
  }
}
