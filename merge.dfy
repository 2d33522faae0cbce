// Merging a full bottom-node cache into its leaf (`insert_into_leaf` in the
// fast-fair variant, the matching part of `insert_lnode` in the lock-based
// one; the two are the same code).  The incoming entry and the two cached
// ones form a group of three with distinct keys.  Each group member was
// looked up in the leaf beforehand (its slot, or -1).  The first loop
// deletes (value 0) or updates the members that were found, the second
// writes the absent non-zero members into the lowest free slots, and when
// the leaf fills up with such a member still pending the leaf splits.
// The metadata word is edited in a local copy and written back at the end
// (`setMeta`); the entry array is written in place.
//
// Each loop is a method over the leaf object whose effect is stated as a
// function on an image of the leaf (bitmap, fingerprints, entries); the
// lemmas say what those functions do to the key-value contents.

module LeafMerge {
  import opened Bits
  import opened LeafNode

  /** CACHE_KEY_NUM + 1: the incoming entry and the two cached ones. */
  const GROUP: nat := 3

  /** The members of a group have distinct keys. */
  ghost predicate DistinctKeys(g: seq<Entry>)
  {
    forall i, j :: 0 <= i < j < |g| ==> g[i].k != g[j].k
  }

  /** The contents of a leaf: bitmap, fingerprints and entries. */
  datatype Image = Image(bm: seq<bool>, fg: seq<bv8>, ents: seq<Entry>)

  predicate WfImage(im: Image)
  {
    |im.bm| == |im.fg| == |im.ents| == SLOTS
  }

  /** A well-formed leaf image for fingerprint function fp. */
  ghost predicate ImageOk(im: Image, fp: int64 -> bv8)
  {
    LeafOk(im.bm, im.fg, im.ents, fp)
  }

  /** gh holds the fingerprint of each member (`key_hash_group`). */
  ghost predicate Hashes(g: seq<Entry>, gh: seq<bv8>, fp: int64 -> bv8)
  {
    |gh| == |g| && forall i :: 0 <= i < |g| ==> gh[i] == fp(g[i].k)
  }

  /** The value of x in a leaf image. */
  function Read(im: Image, x: int64): int64
    requires WfImage(im)
  {
    Lookup(im.bm, im.ents, x)
  }

  /** No live slot holds key. */
  ghost predicate Absent(im: Image, key: int64)
    requires WfImage(im)
  {
    forall j :: 0 <= j < SLOTS && im.bm[j] ==> im.ents[j].k != key
  }

  /** Every slot id is -1 or a slot. */
  predicate SlotRange(slotId: seq<int>)
  {
    |slotId| == GROUP && forall i :: 0 <= i < GROUP ==> -1 <= slotId[i] < SLOTS
  }

  /** slotId holds what `search_from_lnode` returned for each member. */
  ghost predicate SlotsOf(im: Image, g: seq<Entry>, slotId: seq<int>)
    requires WfImage(im)
  {
    |g| == |slotId| == GROUP
    && forall i :: 0 <= i < GROUP ==> slotId[i] == FindFrom(im.bm, im.ents, g[i].k, 0)
  }

  /** What the slot ids say about the leaf: a found member's slot is live
      and holds its key, a member not found is absent. */
  ghost predicate Located(im: Image, g: seq<Entry>, slotId: seq<int>)
    requires WfImage(im)
  {
    |g| == GROUP && SlotRange(slotId)
    && (forall i :: 0 <= i < GROUP && slotId[i] != -1 ==> im.bm[slotId[i]] && im.ents[slotId[i]].k == g[i].k)
    && (forall i :: 0 <= i < GROUP && slotId[i] == -1 ==> Absent(im, g[i].k))
  }

  /** The lookups of the members locate them. */
  lemma SlotsOfLocated(im: Image, g: seq<Entry>, slotId: seq<int>)
    requires WfImage(im) && SlotsOf(im, g, slotId)
    ensures Located(im, g, slotId)
  {
    forall i | 0 <= i < GROUP {
      FindFromSpec(im.bm, im.ents, g[i].k, 0);
    }
  }

  // ---------------------------------------------------------- first loop

  /** The first loop on one member with slot s: a deletion clears the bit,
      an update writes the value into the slot. */
  function FoundStep(im: Image, e: Entry, s: int): (r: Image)
    requires WfImage(im) && -1 <= s < SLOTS
    ensures WfImage(r) && r.fg == im.fg
  {
    if s == -1 then im
    else if e.v == 0 then Image(im.bm[s := false], im.fg, im.ents)
    else Image(im.bm, im.fg, im.ents[s := im.ents[s].(v := e.v)])
  }

  /** The first loop on the first n members. */
  function FoundLoop(im: Image, g: seq<Entry>, slotId: seq<int>, n: nat): (r: Image)
    requires WfImage(im) && |g| == GROUP && SlotRange(slotId) && n <= GROUP
    ensures WfImage(r) && r.fg == im.fg
  {
    if n == 0 then im else FoundStep(FoundLoop(im, g, slotId, n - 1), g[n - 1], slotId[n - 1])
  }

  /** The value of x once the found members among the first n are written
      over a leaf where x had value d (value 0 deletes). */
  ghost function AfterFound(g: seq<Entry>, slotId: seq<int>, n: nat, x: int64, d: int64): int64
    requires n <= |g| && n <= |slotId|
  {
    if n == 0 then d
    else if slotId[n - 1] != -1 && g[n - 1].k == x then g[n - 1].v
    else AfterFound(g, slotId, n - 1, x, d)
  }

  /** The number of found members among the first n that delete. */
  function Deletions(g: seq<Entry>, slotId: seq<int>, n: nat): (c: nat)
    requires n <= |g| && n <= |slotId|
    ensures c <= n
  {
    if n == 0 then 0
    else Deletions(g, slotId, n - 1) + (if slotId[n - 1] != -1 && g[n - 1].v == 0 then 1 else 0)
  }

  /** One step of the first loop on a member whose slot, if any, is live
      and holds its key: the leaf stays well formed, keys stay where they
      are, only that slot's bit may go, and it goes exactly on a deletion. */
  lemma FoundStepOk(p: Image, e: Entry, s: int, fp: int64 -> bv8)
    requires ImageOk(p, fp) && -1 <= s < SLOTS && (s != -1 ==> p.bm[s] && p.ents[s].k == e.k)
    ensures var r := FoundStep(p, e, s);
      && ImageOk(r, fp)
      && (forall j :: 0 <= j < SLOTS ==> r.ents[j].k == p.ents[j].k && (r.bm[j] ==> p.bm[j]))
      && (forall j :: 0 <= j < SLOTS && j != s ==> r.bm[j] == p.bm[j])
      && PopCount(r.bm) + (if s != -1 && e.v == 0 then 1 else 0) == PopCount(p.bm)
  {
    var r := FoundStep(p, e, s);
    if s != -1 && e.v == 0 {
      assert r.bm == p.bm[s := false] && r.ents == p.ents;
      PopCountClear(p.bm, s);
    } else if s != -1 {
      assert r.bm == p.bm && r.ents == p.ents[s := p.ents[s].(v := e.v)];
    }
    assert forall j :: 0 <= j < SLOTS ==> r.ents[j].k == p.ents[j].k && (r.bm[j] ==> p.bm[j]);
    Shrink(p.bm, p.fg, p.ents, r.bm, r.fg, r.ents, fp);
  }

  /** After n steps of the first loop on im, with result r: the leaf is
      well formed, no key has moved, bits were only cleared, the slots of
      the later found members are still live and one bit went per
      deletion. */
  ghost predicate FoundSoFar(im: Image, r: Image, g: seq<Entry>, slotId: seq<int>, n: nat, fp: int64 -> bv8)
    requires WfImage(im) && WfImage(r) && |g| == GROUP && SlotRange(slotId) && n <= GROUP
  {
    && ImageOk(r, fp)
    && (forall j :: 0 <= j < SLOTS ==> r.ents[j].k == im.ents[j].k && (r.bm[j] ==> im.bm[j]))
    && (forall i :: n <= i < GROUP && slotId[i] != -1 ==> r.bm[slotId[i]])
    && PopCount(r.bm) + Deletions(g, slotId, n) == PopCount(im.bm)
  }

  /** Step n of the first loop keeps FoundSoFar. */
  lemma FoundSoFarStep(im: Image, p: Image, g: seq<Entry>, slotId: seq<int>, n: nat, fp: int64 -> bv8)
    requires WfImage(im) && WfImage(p) && DistinctKeys(g) && Located(im, g, slotId) && 0 < n <= GROUP
    requires FoundSoFar(im, p, g, slotId, n - 1, fp)
    ensures FoundSoFar(im, FoundStep(p, g[n - 1], slotId[n - 1]), g, slotId, n, fp)
  {
    var s := slotId[n - 1];
    var r := FoundStep(p, g[n - 1], s);
    assert s != -1 ==> p.bm[s] && p.ents[s].k == g[n - 1].k;
    FoundStepOk(p, g[n - 1], s, fp);
    forall i | n <= i < GROUP && slotId[i] != -1 ensures r.bm[slotId[i]] {
      assert im.ents[slotId[i]].k == g[i].k != g[n - 1].k;
      assert p.bm[slotId[i]] && slotId[i] != s;
    }
    assert Deletions(g, slotId, n) == Deletions(g, slotId, n - 1) + (if s != -1 && g[n - 1].v == 0 then 1 else 0);
  }

  /** The first loop keeps the leaf well formed and FoundSoFar says what
      else it does. */
  lemma {:induction false} FoundLoopOk(im: Image, g: seq<Entry>, slotId: seq<int>, n: nat, fp: int64 -> bv8)
    requires ImageOk(im, fp) && DistinctKeys(g) && Located(im, g, slotId) && n <= GROUP
    ensures FoundSoFar(im, FoundLoop(im, g, slotId, n), g, slotId, n, fp)
  {
    if n > 0 {
      FoundLoopOk(im, g, slotId, n - 1, fp);
      FoundSoFarStep(im, FoundLoop(im, g, slotId, n - 1), g, slotId, n, fp);
    } else {
      assert FoundLoop(im, g, slotId, 0) == im;
    }
  }

  /** Before step n of the first loop, member n's slot, if any, is still
      live and holds its key. */
  lemma FoundLoopAt(im: Image, g: seq<Entry>, slotId: seq<int>, n: nat, fp: int64 -> bv8)
    requires ImageOk(im, fp) && DistinctKeys(g) && Located(im, g, slotId) && n < GROUP
    ensures var p := FoundLoop(im, g, slotId, n);
      && ImageOk(p, fp)
      && (slotId[n] != -1 ==> p.bm[slotId[n]] && p.ents[slotId[n]].k == g[n].k)
  {
    FoundLoopOk(im, g, slotId, n, fp);
  }

  /** One step of the first loop writes the member's value over its key and
      leaves every other key's value alone. */
  lemma FoundStepReads(p: Image, e: Entry, s: int, x: int64, fp: int64 -> bv8)
    requires ImageOk(p, fp) && -1 <= s < SLOTS && (s != -1 ==> p.bm[s] && p.ents[s].k == e.k)
    ensures Read(FoundStep(p, e, s), x) == if s != -1 && e.k == x then e.v else Read(p, x)
  {
    if s != -1 {
      if e.v == 0 {
        DeleteSlotAt(p.bm, p.ents, s, x);
      } else {
        UpdateSlotAt(p.bm, p.ents, s, e.v, x);
      }
    }
  }

  /** Step n of the first loop, read at any key. */
  lemma FoundLoopStepReads(im: Image, g: seq<Entry>, slotId: seq<int>, n: nat, x: int64, fp: int64 -> bv8)
    requires ImageOk(im, fp) && DistinctKeys(g) && Located(im, g, slotId) && n < GROUP
    ensures Read(FoundLoop(im, g, slotId, n + 1), x)
         == if slotId[n] != -1 && g[n].k == x then g[n].v else Read(FoundLoop(im, g, slotId, n), x)
  {
    FoundLoopAt(im, g, slotId, n, fp);
    FoundStepReads(FoundLoop(im, g, slotId, n), g[n], slotId[n], x, fp);
  }

  /** After the first loop on n members every key reads as AfterFound says. */
  lemma FoundLoopReads(im: Image, g: seq<Entry>, slotId: seq<int>, n: nat, x: int64, fp: int64 -> bv8)
    requires ImageOk(im, fp) && DistinctKeys(g) && Located(im, g, slotId) && n <= GROUP
    ensures Read(FoundLoop(im, g, slotId, n), x) == AfterFound(g, slotId, n, x, Read(im, x))
  {
    var i := 0;
    while i < n
      invariant i <= n
      invariant Read(FoundLoop(im, g, slotId, i), x) == AfterFound(g, slotId, i, x, Read(im, x))
    {
      FoundLoopStepReads(im, g, slotId, i, x, fp);
      i := i + 1;
    }
  }

  /** The first loop of the merge: members found in the leaf are deleted
      (their bit cleared in the local metadata) or get their new value in
      place. */
  method ApplyFound(ln: LNode, g: seq<Entry>, slotId: seq<int>) returns (meta: Meta)
    requires ln.Valid() && |g| == GROUP && SlotRange(slotId)
    modifies ln.ent
    ensures WfMeta(meta) && meta.next == ln.meta.next
    ensures Image(meta.bitmap, meta.fgpt, ln.ent[..])
         == FoundLoop(Image(ln.meta.bitmap, ln.meta.fgpt, old(ln.ent[..])), g, slotId, GROUP)
  {
    meta := ln.meta;
    ghost var im0 := Image(meta.bitmap, meta.fgpt, ln.ent[..]);
    for index := 0 to GROUP
      invariant WfMeta(meta) && meta.next == ln.meta.next
      invariant Image(meta.bitmap, meta.fgpt, ln.ent[..]) == FoundLoop(im0, g, slotId, index)
    {
      if slotId[index] != -1 {
        var s := slotId[index];
        if g[index].v == 0 {
          meta := meta.(bitmap := meta.bitmap[s := false]);
        } else {
          ln.ent[s] := ln.ent[s].(v := g[index].v);
        }
      }
    }
  }

  // --------------------------------------------------------- second loop

  /** Member i was not found and does not delete: it is to be inserted. */
  predicate Pending(g: seq<Entry>, slotId: seq<int>, i: nat)
    requires i < |g| && i < |slotId|
  {
    slotId[i] == -1 && g[i].v != 0
  }

  /** The number of pending members among i..GROUP-1. */
  function PendingFrom(g: seq<Entry>, slotId: seq<int>, i: nat): (c: nat)
    requires |g| == |slotId| == GROUP && i <= GROUP
    ensures c <= GROUP - i
    decreases GROUP - i
  {
    if i == GROUP then 0 else (if Pending(g, slotId, i) then 1 else 0) + PendingFrom(g, slotId, i + 1)
  }

  /** Entry e written into the lowest dead slot, with fingerprint f. */
  function Place(im: Image, e: Entry, f: bv8): (r: Image)
    requires WfImage(im) && im.bm != FULL
    ensures WfImage(r)
  {
    FullIffAllLive(im.bm);
    var s := LowestClear(im.bm);
    Image(im.bm[s := true], im.fg[s := f], im.ents[s := e])
  }

  /** Writing an entry into the lowest free slot of a leaf's entry array,
      with its bit and fingerprint set in the local metadata m. */
  method PutLowest(ent: array<Entry>, m: Meta, e: Entry, f: bv8) returns (m': Meta)
    requires ent.Length == SLOTS && WfMeta(m) && m.bitmap != FULL
    modifies ent
    ensures WfMeta(m') && m'.next == m.next
    ensures Image(m'.bitmap, m'.fgpt, ent[..]) == Place(Image(m.bitmap, m.fgpt, old(ent[..])), e, f)
  {
    FullIffAllLive(m.bitmap);
    var slot := LowestClear(m.bitmap);
    ent[slot] := e;
    m' := Occupy(m, slot, f);
  }

  /** Placing takes one more bit. */
  lemma PlaceCount(im: Image, e: Entry, f: bv8)
    requires WfImage(im) && im.bm != FULL
    ensures PopCount(Place(im, e, f).bm) == PopCount(im.bm) + 1
  {
    FullIffAllLive(im.bm);
    PopCountSet(im.bm, LowestClear(im.bm));
  }

  /** Placing an absent entry with its fingerprint keeps the leaf well
      formed, keeps every live slot, fills one dead slot with the entry and
      takes one more bit. */
  lemma PlaceOk(im: Image, e: Entry, f: bv8, fp: int64 -> bv8)
    requires ImageOk(im, fp) && im.bm != FULL && Absent(im, e.k) && f == fp(e.k)
    ensures var r := Place(im, e, f);
      && ImageOk(r, fp)
      && (forall j :: 0 <= j < SLOTS && im.bm[j] ==> r.bm[j] && r.ents[j] == im.ents[j] && r.fg[j] == im.fg[j])
      && (forall j :: 0 <= j < SLOTS && r.bm[j] && !im.bm[j] ==> r.ents[j] == e)
      && PopCount(r.bm) == PopCount(im.bm) + 1
  {
    FullIffAllLive(im.bm);
    var s := LowestClear(im.bm);
    var r := Place(im, e, f);
    assert r.bm == im.bm[s := true] && r.ents == im.ents[s := e] && r.fg == im.fg[s := f];
    Grow(im.bm, im.fg, im.ents, s, e, fp);
    PopCountSet(im.bm, s);
    forall j | 0 <= j < SLOTS && im.bm[j] ensures r.bm[j] && r.ents[j] == im.ents[j] && r.fg[j] == im.fg[j] {
      assert j != s;
    }
  }

  /** Placing an absent entry: every key reads as before except the entry's. */
  lemma PlaceReads(im: Image, e: Entry, f: bv8, x: int64)
    requires WfImage(im) && UniqueKeys(im.bm, im.ents) && im.bm != FULL && Absent(im, e.k)
    ensures Read(Place(im, e, f), x) == if x == e.k then e.v else Read(im, x)
  {
    FullIffAllLive(im.bm);
    var s := LowestClear(im.bm);
    InsertSlotAt(im.bm, im.ents, s, e, x);
  }

  /** The outcome of the second loop: the leaf image, and the member at
      which the leaf was found full (GROUP when every member fit). */
  datatype Filled = Filled(im: Image, stop: nat)

  /** The second loop from member i on; gh holds the members' fingerprints. */
  function FillFrom(im: Image, g: seq<Entry>, gh: seq<bv8>, slotId: seq<int>, i: nat): (r: Filled)
    requires WfImage(im) && |g| == |gh| == |slotId| == GROUP && i <= GROUP
    ensures WfImage(r.im) && i <= r.stop <= GROUP
    ensures r.stop < GROUP ==> r.im.bm == FULL
    decreases GROUP - i
  {
    if i == GROUP then Filled(im, GROUP)
    else if !Pending(g, slotId, i) then FillFrom(im, g, gh, slotId, i + 1)
    else if im.bm == FULL then Filled(im, i)
    else FillFrom(Place(im, g[i], gh[i]), g, gh, slotId, i + 1)
  }

  /** The value of x once the pending members among lo..hi-1 are written
      over a leaf where x had value d. */
  ghost function AfterPlaced(g: seq<Entry>, slotId: seq<int>, lo: nat, hi: nat, x: int64, d: int64): int64
    requires |g| == |slotId| == GROUP && hi <= GROUP
    decreases hi - lo
  {
    if lo >= hi then d
    else if Pending(g, slotId, lo) && g[lo].k == x then g[lo].v
    else AfterPlaced(g, slotId, lo + 1, hi, x, d)
  }

  /** No member among lo..hi-1 has key x: x keeps its value. */
  lemma {:induction false} AfterPlacedOther(g: seq<Entry>, slotId: seq<int>, lo: nat, hi: nat, x: int64, d: int64)
    requires |g| == |slotId| == GROUP && hi <= GROUP
    requires forall j :: lo <= j < hi ==> g[j].k != x
    ensures AfterPlaced(g, slotId, lo, hi, x, d) == d
    decreases hi - lo
  {
    if lo < hi {
      AfterPlacedOther(g, slotId, lo + 1, hi, x, d);
    }
  }

  /** The members from i on that are pending are absent from the image. */
  ghost predicate PendingAbsent(im: Image, g: seq<Entry>, slotId: seq<int>, i: nat)
    requires WfImage(im) && |g| == |slotId| == GROUP
  {
    forall j :: i <= j < GROUP && Pending(g, slotId, j) ==> Absent(im, g[j].k)
  }

  /** Placing pending member i leaves the later pending members absent. */
  lemma PlaceKeepsPending(im: Image, g: seq<Entry>, f: bv8, slotId: seq<int>, i: nat)
    requires WfImage(im) && DistinctKeys(g) && |g| == |slotId| == GROUP && i < GROUP
    requires im.bm != FULL && PendingAbsent(im, g, slotId, i)
    ensures PendingAbsent(Place(im, g[i], f), g, slotId, i + 1)
  {
    var p := Place(im, g[i], f);
    FullIffAllLive(im.bm);
    var s := LowestClear(im.bm);
    assert p.bm == im.bm[s := true] && p.ents == im.ents[s := g[i]];
    forall j | i + 1 <= j < GROUP && Pending(g, slotId, j) ensures Absent(p, g[j].k) {
      assert Absent(im, g[j].k) && g[j].k != g[i].k;
      forall t | 0 <= t < SLOTS && p.bm[t] ensures p.ents[t].k != g[j].k {
        if t != s {
          assert im.bm[t] && p.ents[t] == im.ents[t];
        }
      }
    }
  }

  /** The second loop keeps the leaf well formed. */
  lemma {:induction false} FillOk(im: Image, g: seq<Entry>, gh: seq<bv8>, slotId: seq<int>, i: nat, fp: int64 -> bv8)
    requires ImageOk(im, fp) && DistinctKeys(g) && Hashes(g, gh, fp) && |g| == |slotId| == GROUP && i <= GROUP
    requires PendingAbsent(im, g, slotId, i)
    ensures ImageOk(FillFrom(im, g, gh, slotId, i).im, fp)
    decreases GROUP - i
  {
    if i < GROUP {
      if !Pending(g, slotId, i) {
        FillOk(im, g, gh, slotId, i + 1, fp);
      } else if im.bm != FULL {
        PlaceOk(im, g[i], gh[i], fp);
        PlaceKeepsPending(im, g, gh[i], slotId, i);
        FillOk(Place(im, g[i], gh[i]), g, gh, slotId, i + 1, fp);
      }
    }
  }

  /** Every slot live in im is live in r and holds the same entry. */
  ghost predicate KeepsLive(im: Image, r: Image)
    requires WfImage(im) && WfImage(r)
  {
    forall j :: 0 <= j < SLOTS && im.bm[j] ==> r.bm[j] && r.ents[j] == im.ents[j]
  }

  /** The second loop keeps every live slot of the leaf. */
  lemma {:induction false} FillKeeps(im: Image, g: seq<Entry>, gh: seq<bv8>, slotId: seq<int>, i: nat, fp: int64 -> bv8)
    requires ImageOk(im, fp) && DistinctKeys(g) && Hashes(g, gh, fp) && |g| == |slotId| == GROUP && i <= GROUP
    requires PendingAbsent(im, g, slotId, i)
    ensures KeepsLive(im, FillFrom(im, g, gh, slotId, i).im)
    decreases GROUP - i
  {
    if i < GROUP {
      if !Pending(g, slotId, i) {
        FillKeeps(im, g, gh, slotId, i + 1, fp);
      } else if im.bm != FULL {
        FillPlaceKeeps(im, g, gh, slotId, i, fp);
      }
    }
  }

  /** The placing case of FillKeeps. */
  lemma {:induction false} FillPlaceKeeps(im: Image, g: seq<Entry>, gh: seq<bv8>, slotId: seq<int>, i: nat, fp: int64 -> bv8)
    requires ImageOk(im, fp) && DistinctKeys(g) && Hashes(g, gh, fp) && |g| == |slotId| == GROUP && i < GROUP
    requires PendingAbsent(im, g, slotId, i) && Pending(g, slotId, i) && im.bm != FULL
    ensures KeepsLive(im, FillFrom(im, g, gh, slotId, i).im)
    decreases GROUP - i, 0
  {
    var p := Place(im, g[i], gh[i]);
    PlaceOk(im, g[i], gh[i], fp);
    PlaceKeepsPending(im, g, gh[i], slotId, i);
    FillKeeps(p, g, gh, slotId, i + 1, fp);
    var r := FillFrom(p, g, gh, slotId, i + 1).im;
    assert FillFrom(im, g, gh, slotId, i).im == r;
    forall j | 0 <= j < SLOTS && im.bm[j] ensures r.bm[j] && r.ents[j] == im.ents[j] {
      assert p.bm[j] && p.ents[j] == im.ents[j];
    }
  }

  /** The second loop stops early only on a full leaf with a member
      pending, and the members still pending then are absent. */
  lemma {:induction false} FillStops(im: Image, g: seq<Entry>, gh: seq<bv8>, slotId: seq<int>, i: nat)
    requires WfImage(im) && DistinctKeys(g) && |g| == |gh| == |slotId| == GROUP && i <= GROUP
    requires PendingAbsent(im, g, slotId, i)
    ensures var r := FillFrom(im, g, gh, slotId, i);
      && (r.stop < GROUP ==> r.im.bm == FULL && Pending(g, slotId, r.stop))
      && PendingAbsent(r.im, g, slotId, r.stop)
    decreases GROUP - i
  {
    if i < GROUP {
      if !Pending(g, slotId, i) {
        FillStops(im, g, gh, slotId, i + 1);
      } else if im.bm != FULL {
        var p := Place(im, g[i], gh[i]);
        PlaceKeepsPending(im, g, gh[i], slotId, i);
        FillStops(p, g, gh, slotId, i + 1);
        assert FillFrom(im, g, gh, slotId, i) == FillFrom(p, g, gh, slotId, i + 1);
      }
    }
  }

  /** The second loop stops early exactly when the pending members
      outnumber the free slots; otherwise one bit is taken per pending
      member. */
  lemma {:induction false} FillCount(im: Image, g: seq<Entry>, gh: seq<bv8>, slotId: seq<int>, i: nat)
    requires WfImage(im) && |g| == |gh| == |slotId| == GROUP && i <= GROUP
    ensures var r := FillFrom(im, g, gh, slotId, i);
      && (r.stop < GROUP <==> PopCount(im.bm) + PendingFrom(g, slotId, i) > SLOTS)
      && (r.stop == GROUP ==> PopCount(r.im.bm) == PopCount(im.bm) + PendingFrom(g, slotId, i))
    decreases GROUP - i
  {
    PopCountAll(im.bm);
    FullIffAllLive(im.bm);
    if i < GROUP {
      if !Pending(g, slotId, i) {
        FillCount(im, g, gh, slotId, i + 1);
      } else if im.bm != FULL {
        var p := Place(im, g[i], gh[i]);
        PlaceCount(im, g[i], gh[i]);
        FillCount(p, g, gh, slotId, i + 1);
        assert FillFrom(im, g, gh, slotId, i) == FillFrom(p, g, gh, slotId, i + 1);
      } else {
        assert PendingFrom(g, slotId, i) >= 1;
      }
    }
  }

  /** After the second loop every key reads as AfterPlaced says for the
      members up to the stop. */
  lemma {:induction false} FillReads(im: Image, g: seq<Entry>, gh: seq<bv8>, slotId: seq<int>, i: nat, x: int64)
    requires WfImage(im) && UniqueKeys(im.bm, im.ents) && DistinctKeys(g) && |g| == |gh| == |slotId| == GROUP
    requires i <= GROUP && PendingAbsent(im, g, slotId, i)
    ensures var r := FillFrom(im, g, gh, slotId, i);
      Read(r.im, x) == AfterPlaced(g, slotId, i, r.stop, x, Read(im, x))
    decreases GROUP - i
  {
    if i < GROUP && Pending(g, slotId, i) && im.bm != FULL {
      var p := Place(im, g[i], gh[i]);
      PlaceUnique(im, g[i], gh[i]);
      PlaceKeepsPending(im, g, gh[i], slotId, i);
      FillReads(p, g, gh, slotId, i + 1, x);
      FillReadsStep(im, g, gh, slotId, i, x);
    } else if i < GROUP && !Pending(g, slotId, i) {
      FillReads(im, g, gh, slotId, i + 1, x);
    }
  }

  /** Placing an absent entry keeps the live keys distinct. */
  lemma PlaceUnique(im: Image, e: Entry, f: bv8)
    requires WfImage(im) && UniqueKeys(im.bm, im.ents) && im.bm != FULL && Absent(im, e.k)
    ensures UniqueKeys(Place(im, e, f).bm, Place(im, e, f).ents)
  {
    FullIffAllLive(im.bm);
    var s := LowestClear(im.bm);
    InsertSlot(im.bm, im.ents, s, e);
  }

  /** One placed member: the reading after the rest of the loop carries
      over to the reading from member i. */
  lemma FillReadsStep(im: Image, g: seq<Entry>, gh: seq<bv8>, slotId: seq<int>, i: nat, x: int64)
    requires WfImage(im) && UniqueKeys(im.bm, im.ents) && DistinctKeys(g) && |g| == |gh| == |slotId| == GROUP
    requires i < GROUP && Pending(g, slotId, i) && im.bm != FULL && Absent(im, g[i].k)
    requires var r := FillFrom(Place(im, g[i], gh[i]), g, gh, slotId, i + 1);
      Read(r.im, x) == AfterPlaced(g, slotId, i + 1, r.stop, x, Read(Place(im, g[i], gh[i]), x))
    ensures var r := FillFrom(im, g, gh, slotId, i);
      Read(r.im, x) == AfterPlaced(g, slotId, i, r.stop, x, Read(im, x))
  {
    var p := Place(im, g[i], gh[i]);
    PlaceReads(im, g[i], gh[i], x);
    var r := FillFrom(p, g, gh, slotId, i + 1);
    assert FillFrom(im, g, gh, slotId, i) == r;
    if x == g[i].k {
      forall j | i + 1 <= j < r.stop ensures g[j].k != x {
        assert g[i].k != g[j].k;
      }
      AfterPlacedOther(g, slotId, i + 1, r.stop, x, g[i].v);
    }
  }

  /** The second loop of the merge: each pending member goes into the lowest
      free slot of the local metadata, with its fingerprint from gh; on a
      full leaf the loop stops at that member (`goto split_leaf_node`).  stop
      is GROUP when every member fit. */
  method InsertPending(ln: LNode, g: seq<Entry>, gh: seq<bv8>, slotId: seq<int>, meta0: Meta)
    returns (meta: Meta, stop: nat)
    requires ln.Valid() && WfMeta(meta0) && |g| == |gh| == |slotId| == GROUP
    modifies ln.ent
    ensures WfMeta(meta) && meta.next == meta0.next
    ensures var r := FillFrom(Image(meta0.bitmap, meta0.fgpt, old(ln.ent[..])), g, gh, slotId, 0);
      Image(meta.bitmap, meta.fgpt, ln.ent[..]) == r.im && stop == r.stop
  {
    meta := meta0;
    ghost var im0 := Image(meta0.bitmap, meta0.fgpt, ln.ent[..]);
    var index := 0;
    while index < GROUP
      invariant index <= GROUP && WfMeta(meta) && meta.next == meta0.next
      invariant FillFrom(Image(meta.bitmap, meta.fgpt, ln.ent[..]), g, gh, slotId, index) == FillFrom(im0, g, gh, slotId, 0)
    {
      if slotId[index] == -1 && g[index].v != 0 {
        if meta.bitmap != FULL {
          meta := PutLowest(ln.ent, meta, g[index], gh[index]);
        } else {
          return meta, index;
        }
      }
      index := index + 1;
    }
    stop := GROUP;
  }
}
