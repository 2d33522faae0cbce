// The bottom node (`bnode`): a two-entry write buffer in front of one leaf.
// It carries a version lock word (odd while a writer holds it), one epoch
// bit per cached slot and `counter`, the number of cached entries not yet
// merged into the leaf.  Slots at or above the counter keep their last
// content, which a search still looks at.
//
// What a bottom node means is stated once, by View: a key's value is that
// of the first live cached entry for it, else the leaf's.

module BottomNode {
  import opened Bits
  import opened LeafNode
  import opened LeafSort
  import opened LeafMerge
  import opened LeafSplit
  import opened LeafInsert

  // ------------------------------------------------------ the version lock

  /** The version field is 7 bits wide. */
  const VERSIONS: nat := 128

  /** `IS_LOCKED`: a writer holds the node while its version is odd. */
  predicate IsLocked(v: nat)
  {
    v % 2 != 0
  }

  /** One increment of the 7-bit version field. */
  function Bump(v: nat): (w: nat)
    ensures w < VERSIONS
    ensures v < VERSIONS ==> (IsLocked(w) <==> !IsLocked(v))
  {
    (v + 1) % VERSIONS
  }

  /** Taking and releasing the lock from an unlocked version locks the
      node, unlocks it again and leaves a different version, so a reader
      that saw the old version notices the write. */
  lemma LockCycle(v: nat)
    requires v < VERSIONS && !IsLocked(v)
    ensures IsLocked(Bump(v)) && !IsLocked(Bump(Bump(v)))
    ensures Bump(Bump(v)) != v && Bump(Bump(v)) == (v + 2) % VERSIONS
  {
  }

  // ------------------------------------------------------ the buffer's meaning

  /** The first slot in [i, n) of the cache holding key, or n (`cpos` after
      the scan in `insert`). */
  function CacheScan(c: seq<Entry>, n: nat, key: int64, i: nat): (p: nat)
    requires i <= n <= |c|
    ensures i <= p <= n
    ensures p < n ==> c[p].k == key
    ensures forall j :: i <= j < p ==> c[j].k != key
    decreases n - i
  {
    if i == n then n
    else if c[i].k == key then i
    else CacheScan(c, n, key, i + 1)
  }

  /** The value of x in a bottom node with cache c, counter n and leaf im:
      the first live cached entry for x decides (value 0 being a deletion),
      else the leaf. */
  function View(c: seq<Entry>, n: nat, im: Image, x: int64): int64
    requires n <= |c| && WfImage(im)
  {
    Want(c[..n], 0, x, Read(im, x))
  }

  /** A slot at or above the counter either repeats the key of a live slot
      or reads in the leaf as it is. */
  ghost predicate StaleOk(c: seq<Entry>, n: nat, im: Image)
    requires n <= |c| && WfImage(im)
  {
    forall i :: n <= i < |c| ==> (exists j :: 0 <= j < n && c[j].k == c[i].k) || Read(im, c[i].k) == c[i].v
  }

  /** The invariant of a bottom node's buffer over a well-formed leaf. */
  ghost predicate BufferOk(c: seq<Entry>, n: nat, im: Image, fp: int64 -> bv8)
  {
    |c| == CACHE && n <= CACHE && ImageOk(im, fp) && DistinctKeys(c[..n]) && StaleOk(c, n, im)
  }

  /** Want over a sequence is decided by its first member with key x. */
  lemma {:induction false} WantFirst(g: seq<Entry>, i: nat, p: nat, x: int64, d: int64)
    requires i <= p <= |g|
    requires forall j :: i <= j < p ==> g[j].k != x
    ensures Want(g, i, x, d) == if p < |g| && g[p].k == x then g[p].v else Want(g, p, x, d)
    decreases p - i
  {
    if i < p {
      WantFirst(g, i + 1, p, x, d);
    }
  }

  /** The search of `btree::search` looks at every cached slot, live or
      not, before the leaf; on a buffer satisfying the invariant it finds
      the value View gives. */
  lemma SearchSeesView(c: seq<Entry>, n: nat, im: Image, x: int64, fp: int64 -> bv8)
    requires BufferOk(c, n, im, fp)
    ensures Want(c, 0, x, Read(im, x)) == View(c, n, im, x)
  {
    var p := CacheScan(c, |c|, x, 0);
    WantFirst(c, 0, p, x, Read(im, x));
    if p < n {
      WantFirst(c[..n], 0, p, x, Read(im, x));
    } else {
      WantMiss(c[..n], 0, x, Read(im, x));
      if p < |c| {
        assert !(exists j :: 0 <= j < n && c[j].k == c[p].k);
      } else {
        WantMiss(c, p, x, Read(im, x));
      }
    }
  }

  // ------------------------------------------------------ the cache path

  /** The cache after `insert` writes (key, val) at slot p. */
  function CacheWrite(c: seq<Entry>, n: nat, p: nat, key: int64, val: int64): (r: (seq<Entry>, nat))
    requires p <= n && p < |c|
  {
    (c[p := Entry(key, val)], if p == n then n + 1 else n)
  }

  /** Writing at the slot the scan found keeps the invariant and sets the
      counter to at most CACHE. */
  lemma CacheWriteOk(c: seq<Entry>, n: nat, im: Image, key: int64, val: int64, fp: int64 -> bv8)
    requires BufferOk(c, n, im, fp) && CacheScan(c, n, key, 0) < CACHE
    ensures var w := CacheWrite(c, n, CacheScan(c, n, key, 0), key, val);
      BufferOk(w.0, w.1, im, fp) && w.1 == (if CacheScan(c, n, key, 0) == n then n + 1 else n)
  {
    var p := CacheScan(c, n, key, 0);
    var w := CacheWrite(c, n, p, key, val);
    var c', n' := w.0, w.1;
    forall i, j | 0 <= i < j < n' ensures c'[..n'][i].k != c'[..n'][j].k {
      assert c'[..n'][i] == c'[i] && c'[..n'][j] == c'[j];
      if j < n {
        assert c[..n][i].k != c[..n][j].k;
      }
    }
    forall i | n' <= i < |c'|
      ensures (exists j :: 0 <= j < n' && c'[j].k == c'[i].k) || Read(im, c'[i].k) == c'[i].v
    {
      assert c'[i] == c[i];
      if exists j :: 0 <= j < n && c[j].k == c[i].k {
        var j :| 0 <= j < n && c[j].k == c[i].k;
        assert c'[j].k == c[j].k;
      }
    }
  }

  /** Writing at the slot the scan found gives key the value val and
      leaves every other key as it was. */
  lemma CacheWriteView(c: seq<Entry>, n: nat, im: Image, key: int64, val: int64, x: int64, fp: int64 -> bv8)
    requires BufferOk(c, n, im, fp) && CacheScan(c, n, key, 0) < CACHE
    ensures var w := CacheWrite(c, n, CacheScan(c, n, key, 0), key, val);
      View(w.0, w.1, im, x) == if x == key then val else View(c, n, im, x)
  {
    var p := CacheScan(c, n, key, 0);
    var w := CacheWrite(c, n, p, key, val);
    var c', n' := w.0, w.1;
    CacheWriteOk(c, n, im, key, val, fp);
    if x == key {
      assert c'[..n'][p].k == key;
      WantHit(c'[..n'], 0, p, x, Read(im, x));
    } else {
      var q := CacheScan(c, n, x, 0);
      WantFirst(c[..n], 0, q, x, Read(im, x));
      WantFirst(c'[..n'], 0, q, x, Read(im, x));
      if q == n {
        WantMiss(c[..n], n, x, Read(im, x));
        WantMiss(c'[..n'], n, x, Read(im, x));
      }
    }
  }

  // ------------------------------------------------------ the leaf path

  /** The key has a live slot in the leaf. */
  ghost predicate Found(im: Image, key: int64)
    requires WfImage(im)
  {
    FindFrom(im.bm, im.ents, key, 0) != -1
  }

  /** What `insert_into_leaf` merges: the incoming entry, then both
      cached slots (`key_group`), with their fingerprints and the slot
      `search_from_lnode` found for each. */
  ghost predicate GroupOf(c: seq<Entry>, im: Image, key: int64, val: int64,
                          g: seq<Entry>, gh: seq<bv8>, slotId: seq<int>, fp: int64 -> bv8)
    requires WfImage(im)
  {
    g == [Entry(key, val)] + c && Hashes(g, gh, fp) && SlotsOf(im, g, slotId)
  }

  /** A full buffer not holding key, merged with it: the group is ready for
      the leaf merge. */
  lemma GroupReady(c: seq<Entry>, im: Image, key: int64, val: int64, g: seq<Entry>, gh: seq<bv8>, slotId: seq<int>, fp: int64 -> bv8)
    requires BufferOk(c, CACHE, im, fp) && CacheScan(c, CACHE, key, 0) == CACHE
    requires GroupOf(c, im, key, val, g, gh, slotId, fp)
    ensures MergeReady(im, g, gh, slotId, fp)
  {
    assert c[..CACHE] == c;
    forall i, j | 0 <= i < j < |g| ensures g[i].k != g[j].k {
      if i > 0 {
        assert c[..CACHE][i - 1] == g[i] && c[..CACHE][j - 1] == g[j];
      }
    }
    SlotsOfLocated(im, g, slotId);
  }

  /** The group's meaning: key gets val, the cached keys keep the values
      the buffer gave them. */
  lemma GroupWant(c: seq<Entry>, im: Image, key: int64, val: int64, g: seq<Entry>, x: int64, fp: int64 -> bv8)
    requires BufferOk(c, CACHE, im, fp) && CacheScan(c, CACHE, key, 0) == CACHE && g == [Entry(key, val)] + c
    ensures Want(g, 0, x, Read(im, x)) == if x == key then val else View(c, CACHE, im, x)
  {
    assert c[..CACHE] == c;
    if x != key {
      assert Want(g, 0, x, Read(im, x)) == Want(g, 1, x, Read(im, x));
      assert g[1..] == c;
      WantShift(g, 1, x, Read(im, x));
    }
  }

  /** Want from i on is Want over the suffix from i. */
  lemma {:induction false} WantShift(g: seq<Entry>, i: nat, x: int64, d: int64)
    requires i <= |g|
    ensures Want(g, i, x, d) == Want(g[i..], 0, x, d)
    decreases |g| - i
  {
    if i < |g| {
      WantShift(g, i + 1, x, d);
      assert g[i..][1..] == g[i + 1..];
      WantShift(g[i..], 1, x, d);
    }
  }

  /** Without a split the merged leaf under an empty counter holds every
      key as the buffer and the group say, and the buffer stays coherent:
      both cached entries now read in the leaf as they are. */
  lemma MergeKeepsBuffer(c: seq<Entry>, im: Image, key: int64, val: int64, g: seq<Entry>, gh: seq<bv8>, slotId: seq<int>, fp: int64 -> bv8)
    requires BufferOk(c, CACHE, im, fp) && CacheScan(c, CACHE, key, 0) == CACHE
    requires GroupOf(c, im, key, val, g, gh, slotId, fp) && Merged(im, g, gh, slotId).stop == GROUP
    ensures BufferOk(c, 0, Merged(im, g, gh, slotId).im, fp)
  {
    GroupReady(c, im, key, val, g, gh, slotId, fp);
    var m := Merged(im, g, gh, slotId).im;
    MergedOk(im, g, gh, slotId, fp);
    forall i | 0 <= i < |c| ensures Read(m, c[i].k) == c[i].v {
      MergedReads(im, g, gh, slotId, fp, c[i].k);
      WantHit(g, 0, i + 1, c[i].k, Read(im, c[i].k));
    }
  }

  /** Without a split: key reads val, every other key as before. */
  lemma MergeView(c: seq<Entry>, im: Image, key: int64, val: int64, g: seq<Entry>, gh: seq<bv8>, slotId: seq<int>, x: int64, fp: int64 -> bv8)
    requires BufferOk(c, CACHE, im, fp) && CacheScan(c, CACHE, key, 0) == CACHE
    requires GroupOf(c, im, key, val, g, gh, slotId, fp) && Merged(im, g, gh, slotId).stop == GROUP
    ensures View(c, 0, Merged(im, g, gh, slotId).im, x) == if x == key then val else View(c, CACHE, im, x)
  {
    GroupReady(c, im, key, val, g, gh, slotId, fp);
    MergedReads(im, g, gh, slotId, fp, x);
    GroupWant(c, im, key, val, g, x, fp);
  }

  /** After a split both bottom nodes, their counters 0 and their caches
      holding `old_cache` and `new_cache`, are coherent. */
  lemma SplitKeepsBuffers(c: seq<Entry>, im: Image, key: int64, val: int64, g: seq<Entry>, gh: seq<bv8>, slotId: seq<int>,
                          pos: seq<int>, fp: int64 -> bv8)
    requires BufferOk(c, CACHE, im, fp) && CacheScan(c, CACHE, key, 0) == CACHE
    requires GroupOf(c, im, key, val, g, gh, slotId, fp) && Merged(im, g, gh, slotId).stop < GROUP
    requires IsPerm(pos) && Sorted(Merged(im, g, gh, slotId).im.ents, pos, 0, SLOTS)
    ensures var r := Merged(im, g, gh, slotId);
      && BufferOk([r.im.ents[pos[0]], r.im.ents[pos[1]]], 0, OldLeaf(r.im, pos, g, gh, slotId, r.stop), fp)
      && BufferOk([r.im.ents[pos[HALF]], r.im.ents[pos[HALF + 1]]], 0, NewLeaf(r.im, pos, g, gh, slotId, r.stop), fp)
  {
    GroupReady(c, im, key, val, g, gh, slotId, fp);
    var r := Merged(im, g, gh, slotId);
    SplitShape(im, g, gh, slotId, fp, pos);
    SplitCachesRead(im, g, gh, slotId, fp, pos, 0);
    SplitCachesRead(im, g, gh, slotId, fp, pos, 1);
    EmptyBufferOk([r.im.ents[pos[0]], r.im.ents[pos[1]]], OldLeaf(r.im, pos, g, gh, slotId, r.stop), fp);
    EmptyBufferOk([r.im.ents[pos[HALF]], r.im.ents[pos[HALF + 1]]], NewLeaf(r.im, pos, g, gh, slotId, r.stop), fp);
  }

  /** Two slots that read in a well-formed leaf as they are make a
      coherent buffer with counter 0. */
  lemma EmptyBufferOk(c: seq<Entry>, im: Image, fp: int64 -> bv8)
    requires |c| == CACHE && ImageOk(im, fp)
    requires Read(im, c[0].k) == c[0].v && Read(im, c[1].k) == c[1].v
    ensures BufferOk(c, 0, im, fp)
  {
    assert c[..0] == [];
    assert DistinctKeys(c[..0]);
    assert StaleOk(c, 0, im) by {
      forall i | 0 <= i < |c| ensures Read(im, c[i].k) == c[i].v {
        assert i == 0 || i == 1;
      }
    }
  }

  /** After a split: a key below the split key reads in the old node, any
      other key in the new node, as the merge says; each node reads 0 for
      the keys of the other. */
  lemma SplitView(c: seq<Entry>, im: Image, key: int64, val: int64, g: seq<Entry>, gh: seq<bv8>, slotId: seq<int>,
                  pos: seq<int>, x: int64, fp: int64 -> bv8)
    requires BufferOk(c, CACHE, im, fp) && CacheScan(c, CACHE, key, 0) == CACHE
    requires GroupOf(c, im, key, val, g, gh, slotId, fp) && Merged(im, g, gh, slotId).stop < GROUP
    requires IsPerm(pos) && Sorted(Merged(im, g, gh, slotId).im.ents, pos, 0, SLOTS)
    ensures var r := Merged(im, g, gh, slotId);
      var sk, want := SplitKey(r.im, pos), if x == key then val else View(c, CACHE, im, x);
      && View([r.im.ents[pos[0]], r.im.ents[pos[1]]], 0, OldLeaf(r.im, pos, g, gh, slotId, r.stop), x) == (if x < sk then want else 0)
      && View([r.im.ents[pos[HALF]], r.im.ents[pos[HALF + 1]]], 0, NewLeaf(r.im, pos, g, gh, slotId, r.stop), x) == (if x < sk then 0 else want)
  {
    GroupReady(c, im, key, val, g, gh, slotId, fp);
    SplitReads(im, g, gh, slotId, fp, pos, x);
    GroupWant(c, im, key, val, g, x, fp);
  }

  // ------------------------------------------------------ epoch recycling

  /** The live slots below n whose epoch bit differs from e, in slot
      order: what one pass of `recycle_bottom` logs for a node. */
  function Stale(c: seq<Entry>, ep: seq<bool>, n: nat, e: bool): (r: seq<Entry>)
    requires n <= |c| && n <= |ep|
    ensures |r| <= n
  {
    if n == 0 then [] else Stale(c, ep, n - 1, e) + (if ep[n - 1] != e then [c[n - 1]] else [])
  }

  /** The epoch bits after the pass: every live slot tagged e. */
  function Retag(ep: seq<bool>, n: nat, e: bool): (r: seq<bool>)
    requires n <= |ep|
    ensures |r| == |ep|
  {
    seq(n, _ => e) + ep[n..]
  }

  /** An entry is logged exactly when some live slot with a differing
      epoch bit holds it. */
  lemma {:induction false} StaleMembers(c: seq<Entry>, ep: seq<bool>, n: nat, e: bool, x: Entry)
    requires n <= |c| && n <= |ep|
    ensures x in Stale(c, ep, n, e) <==> exists j :: 0 <= j < n && ep[j] != e && c[j] == x
  {
    if n > 0 {
      StaleMembers(c, ep, n - 1, e, x);
      if x in Stale(c, ep, n - 1, e) {
        var j :| 0 <= j < n - 1 && ep[j] != e && c[j] == x;
      }
    }
  }

  /** Logging is once per epoch: a second pass over the retagged bits with
      the same epoch logs nothing. */
  lemma {:induction false} RetagLogsNothing(c: seq<Entry>, ep: seq<bool>, n: nat, m: nat, e: bool)
    requires m <= n <= |c| && n <= |ep|
    ensures Stale(c, Retag(ep, n, e), m, e) == []
  {
    if m > 0 {
      RetagLogsNothing(c, ep, n, m - 1, e);
    }
  }

  /** The loop of `recycle_bottom` over one node's live slots. */
  method RecycleSlots(c: seq<Entry>, ep0: seq<bool>, n: nat, e: bool) returns (logged: seq<Entry>, ep: seq<bool>)
    requires n <= |c| && n <= |ep0|
    ensures logged == Stale(c, ep0, n, e) && ep == Retag(ep0, n, e)
  {
    ep, logged := ep0, [];
    for i := 0 to n
      invariant |ep| == |ep0| && (forall j :: 0 <= j < |ep| ==> ep[j] == if j < i then e else ep0[j])
      invariant logged == Stale(c, ep0, i, e)
    {
      if ep[i] != e {
        logged := logged + [c[i]];
        ep := ep[i := e];
      }
    }
    assert ep == Retag(ep0, n, e);
  }

  // ------------------------------------------------------ range scan of one node

  /** The live cached entries below n with key at least min, in slot order. */
  function CacheRange(c: seq<Entry>, n: nat, min: int64): (r: seq<Entry>)
    requires n <= |c|
    ensures |r| <= n
  {
    if n == 0 then [] else CacheRange(c, n - 1, min) + (if c[n - 1].k >= min then [c[n - 1]] else [])
  }

  /** The live leaf slots below n with key at least min and not among
      keys, in slot order. */
  function LeafRange(im: Image, min: int64, keys: seq<int64>, n: nat): (r: seq<Entry>)
    requires WfImage(im) && n <= SLOTS
    ensures |r| <= n
  {
    if n == 0 then []
    else
      var e := im.ents[n - 1];
      LeafRange(im, min, keys, n - 1) + (if im.bm[n - 1] && e.k >= min && e.k !in keys then [e] else [])
  }

  /** The keys of a run of entries (`key_in_bnode` for the cached run). */
  function KeysOf(es: seq<Entry>): (ks: seq<int64>)
    ensures |ks| == |es| && forall i :: 0 <= i < |es| ==> ks[i] == es[i].k
  {
    if es == [] then [] else KeysOf(es[..|es| - 1]) + [es[|es| - 1].k]
  }

  /** The values of a run of entries: what lands in `buf`. */
  function ValuesOf(es: seq<Entry>): (vs: seq<int64>)
    ensures |vs| == |es| && forall i :: 0 <= i < |es| ==> vs[i] == es[i].v
  {
    if es == [] then [] else ValuesOf(es[..|es| - 1]) + [es[|es| - 1].v]
  }

  /** What `get_range_key_from_lnode` emits for a node: its cached entries
      from min on, then the leaf's live entries from min on whose key the
      cache did not emit. */
  function RangeOf(c: seq<Entry>, n: nat, im: Image, min: int64): seq<Entry>
    requires n <= |c| && WfImage(im)
  {
    var cr := CacheRange(c, n, min);
    cr + LeafRange(im, min, KeysOf(cr), SLOTS)
  }

  /** Some live cached entry or live leaf slot below n has a key under min
      (`if_find_a_small_key`). */
  ghost predicate HasSmall(c: seq<Entry>, n: nat, im: Image, min: int64, m: nat)
    requires n <= |c| && WfImage(im) && m <= SLOTS
  {
    (exists i :: 0 <= i < n && c[i].k < min) || (exists i :: 0 <= i < m && im.bm[i] && im.ents[i].k < min)
  }

  lemma {:induction false} CacheRangeMembers(c: seq<Entry>, n: nat, min: int64, e: Entry)
    requires n <= |c|
    ensures e in CacheRange(c, n, min) <==> exists i :: 0 <= i < n && c[i] == e && e.k >= min
  {
    if n > 0 {
      CacheRangeMembers(c, n - 1, min, e);
      if e in CacheRange(c, n - 1, min) {
        var i :| 0 <= i < n - 1 && c[i] == e && e.k >= min;
      }
    }
  }

  lemma {:induction false} LeafRangeMembers(im: Image, min: int64, keys: seq<int64>, n: nat, e: Entry)
    requires WfImage(im) && n <= SLOTS
    ensures e in LeafRange(im, min, keys, n) <==>
      exists i :: 0 <= i < n && im.bm[i] && im.ents[i] == e && e.k >= min && e.k !in keys
  {
    if n > 0 {
      LeafRangeMembers(im, min, keys, n - 1, e);
      if e in LeafRange(im, min, keys, n - 1) {
        var i :| 0 <= i < n - 1 && im.bm[i] && im.ents[i] == e && e.k >= min && e.k !in keys;
      }
    }
  }

  lemma KeysOfMembers(es: seq<Entry>, x: int64)
    ensures x in KeysOf(es) <==> exists e :: e in es && e.k == x
  {
    if x in KeysOf(es) {
      var i :| 0 <= i < |es| && KeysOf(es)[i] == x;
      assert es[i] in es;
    }
  }

  /** Every entry the scan emits has key at least min and carries the
      value the node holds for its key: a cached entry shadows the leaf. */
  lemma RangeSound(c: seq<Entry>, n: nat, im: Image, min: int64, e: Entry, fp: int64 -> bv8)
    requires BufferOk(c, n, im, fp) && e in RangeOf(c, n, im, min)
    ensures e.k >= min && e.v == View(c, n, im, e.k)
  {
    var cr := CacheRange(c, n, min);
    CacheRangeMembers(c, n, min, e);
    LeafRangeMembers(im, min, KeysOf(cr), SLOTS, e);
    if e in cr {
      var i :| 0 <= i < n && c[i] == e && e.k >= min;
      CachedSound(c, n, im, i, fp);
    } else {
      var i :| 0 <= i < SLOTS && im.bm[i] && im.ents[i] == e && e.k >= min && e.k !in KeysOf(cr);
      forall j | 0 <= j < n ensures c[j].k != e.k {
        if c[j].k == e.k {
          CacheRangeMembers(c, n, min, c[j]);
          KeysOfMembers(cr, e.k);
        }
      }
      LeafSound(c, n, im, i, fp);
    }
  }

  /** A live cached entry gives the value the node holds for its key. */
  lemma CachedSound(c: seq<Entry>, n: nat, im: Image, i: nat, fp: int64 -> bv8)
    requires BufferOk(c, n, im, fp) && i < n
    ensures c[i].v == View(c, n, im, c[i].k)
  {
    assert c[..n][i] == c[i];
    WantHit(c[..n], 0, i, c[i].k, Read(im, c[i].k));
  }

  /** A live leaf slot whose key no live cached entry has gives the value
      the node holds for that key. */
  lemma LeafSound(c: seq<Entry>, n: nat, im: Image, i: nat, fp: int64 -> bv8)
    requires BufferOk(c, n, im, fp) && i < SLOTS && im.bm[i]
    requires forall j :: 0 <= j < n ==> c[j].k != im.ents[i].k
    ensures im.ents[i].v == View(c, n, im, im.ents[i].k)
  {
    var x := im.ents[i].k;
    assert forall j :: 0 <= j < n ==> c[..n][j] == c[j];
    WantMiss(c[..n], 0, x, Read(im, x));
    LookupLive(im.bm, im.ents, i, x);
  }

  /** Every key from min on that the node holds, live in the cache or in
      the leaf, is emitted. */
  lemma RangeComplete(c: seq<Entry>, n: nat, im: Image, min: int64, x: int64)
    requires n <= |c| && WfImage(im) && x >= min
    requires (exists i :: 0 <= i < n && c[i].k == x) || Found(im, x)
    ensures x in KeysOf(RangeOf(c, n, im, min))
  {
    var cr := CacheRange(c, n, min);
    KeysOfMembers(RangeOf(c, n, im, min), x);
    if exists i :: 0 <= i < n && c[i].k == x {
      var i :| 0 <= i < n && c[i].k == x;
      CacheRangeMembers(c, n, min, c[i]);
      assert c[i] in RangeOf(c, n, im, min);
    } else {
      var s := FindFrom(im.bm, im.ents, x, 0);
      FindFromSpec(im.bm, im.ents, x, 0);
      KeysOfMembers(cr, x);
      if x !in KeysOf(cr) {
        LeafRangeMembers(im, min, KeysOf(cr), SLOTS, im.ents[s]);
        assert im.ents[s] in RangeOf(c, n, im, min);
      } else {
        var e :| e in cr && e.k == x;
        assert e in RangeOf(c, n, im, min);
      }
    }
  }

  lemma DistinctSnoc(a: seq<Entry>, x: Entry)
    requires DistinctKeys(a) && forall i :: 0 <= i < |a| ==> a[i].k != x.k
    ensures DistinctKeys(a + [x])
  {
    var b := a + [x];
    forall i, j | 0 <= i < j < |b| ensures b[i].k != b[j].k {
      if j < |a| {
        assert b[i] == a[i] && b[j] == a[j];
      }
    }
  }

  lemma {:induction false} CacheRangeDistinct(c: seq<Entry>, n: nat, min: int64)
    requires n <= |c| && DistinctKeys(c[..n])
    ensures DistinctKeys(CacheRange(c, n, min))
  {
    if n > 0 {
      assert forall i, j :: 0 <= i < j < n - 1 ==> c[..n - 1][i] == c[..n][i] && c[..n - 1][j] == c[..n][j];
      CacheRangeDistinct(c, n - 1, min);
      var a := CacheRange(c, n - 1, min);
      if c[n - 1].k >= min {
        forall i | 0 <= i < |a| ensures a[i].k != c[n - 1].k {
          CacheRangeMembers(c, n - 1, min, a[i]);
          var j :| 0 <= j < n - 1 && c[j] == a[i];
          assert c[..n][j] == c[j] && c[..n][n - 1] == c[n - 1];
        }
        DistinctSnoc(a, c[n - 1]);
      }
    }
  }

  lemma {:induction false} LeafRangeDistinct(im: Image, min: int64, keys: seq<int64>, n: nat)
    requires WfImage(im) && n <= SLOTS && UniqueKeys(im.bm, im.ents)
    ensures DistinctKeys(LeafRange(im, min, keys, n))
  {
    if n > 0 {
      LeafRangeDistinct(im, min, keys, n - 1);
      var a := LeafRange(im, min, keys, n - 1);
      var e := im.ents[n - 1];
      if im.bm[n - 1] && e.k >= min && e.k !in keys {
        forall i | 0 <= i < |a| ensures a[i].k != e.k {
          LeafRangeMembers(im, min, keys, n - 1, a[i]);
        }
        DistinctSnoc(a, e);
      }
    }
  }

  /** No key is emitted twice. */
  lemma RangeDistinct(c: seq<Entry>, n: nat, im: Image, min: int64, fp: int64 -> bv8)
    requires BufferOk(c, n, im, fp)
    ensures DistinctKeys(RangeOf(c, n, im, min))
  {
    var cr := CacheRange(c, n, min);
    var lr := LeafRange(im, min, KeysOf(cr), SLOTS);
    CacheRangeDistinct(c, n, min);
    LeafRangeDistinct(im, min, KeysOf(cr), SLOTS);
    var r := cr + lr;
    forall i, j | 0 <= i < j < |r| ensures r[i].k != r[j].k {
      if j < |cr| {
        assert r[i] == cr[i] && r[j] == cr[j];
      } else if i >= |cr| {
        assert r[i] == lr[i - |cr|] && r[j] == lr[j - |cr|];
      } else {
        LeafRangeMembers(im, min, KeysOf(cr), SLOTS, r[j]);
        assert KeysOf(cr)[i] == r[i].k;
      }
    }
  }

  /** The two loops of `get_range_key_from_lnode` over a node's cache c
      with counter n and its leaf im: cached values from min on, noting
      their keys, then the live leaf values from min on whose key was not
      noted; `small` records any key below min. */
  method CollectRange(c: seq<Entry>, n: nat, im: Image, minKey: int64) returns (vals: seq<int64>, small: bool)
    requires n <= |c| && WfImage(im)
    ensures vals == ValuesOf(RangeOf(c, n, im, minKey))
    ensures small <==> HasSmall(c, n, im, minKey, SLOTS)
  {
    var keys, small0;
    ghost var cr;
    vals, keys, small0, cr := CollectCache(c, n, minKey);
    vals, small := CollectLeaf(im, minKey, keys, vals, small0, cr);
  }

  /** The cache loop: values and keys of CacheRange. */
  method CollectCache(c: seq<Entry>, n: nat, minKey: int64)
    returns (vals: seq<int64>, keys: seq<int64>, small: bool, ghost out: seq<Entry>)
    requires n <= |c|
    ensures out == CacheRange(c, n, minKey) && keys == KeysOf(out) && vals == ValuesOf(out)
    ensures small <==> exists j :: 0 <= j < n && c[j].k < minKey
  {
    vals, keys, small, out := [], [], false, [];
    for i := 0 to n
      invariant out == CacheRange(c, i, minKey) && keys == KeysOf(out) && vals == ValuesOf(out)
      invariant small <==> exists j :: 0 <= j < i && c[j].k < minKey
    {
      if c[i].k >= minKey {
        vals, keys, out := vals + [c[i].v], keys + [c[i].k], out + [c[i]];
        assert out[..|out| - 1] == CacheRange(c, i, minKey);
      } else {
        small := true;
      }
    }
  }

  /** The leaf loop: after the cached run cr, the values of LeafRange. */
  method CollectLeaf(im: Image, minKey: int64, keys: seq<int64>, vals0: seq<int64>, small0: bool, ghost cr: seq<Entry>)
    returns (vals: seq<int64>, small: bool)
    requires WfImage(im) && vals0 == ValuesOf(cr)
    ensures vals == ValuesOf(cr + LeafRange(im, minKey, keys, SLOTS))
    ensures small <==> small0 || exists j :: 0 <= j < SLOTS && im.bm[j] && im.ents[j].k < minKey
  {
    ghost var out := cr;
    vals, small := vals0, small0;
    for i := 0 to SLOTS
      invariant out == cr + LeafRange(im, minKey, keys, i) && vals == ValuesOf(out)
      invariant small <==> small0 || exists j :: 0 <= j < i && im.bm[j] && im.ents[j].k < minKey
    {
      var e := im.ents[i];
      if im.bm[i] {
        if e.k >= minKey {
          if e.k !in keys {
            vals, out := vals + [e.v], out + [e];
            assert out[..|out| - 1] == cr + LeafRange(im, minKey, keys, i);
          }
        } else {
          small := true;
        }
      }
    }
  }

  // ------------------------------------------------------ the node

  /** How a caller takes the lock: as the writer (`op_type` 0) or as a
      reader that only records the version. */
  datatype Access = Writer | Reader

  class BNode {
    var leaf: LNode
    var version: nat
    var epoch: seq<bool>
    var counter: nat
    const cache: array<Entry>

    /** The node's shape, apart from its version word. */
    ghost predicate Shaped()
      reads this`leaf, this`epoch, this`counter, leaf
    {
      leaf.Valid() && cache.Length == CACHE && cache != leaf.ent && |epoch| == CACHE && counter <= CACHE
    }

    ghost predicate Valid()
      reads this, leaf
    {
      Shaped() && version < VERSIONS
    }

    /** The leaf's contents. */
    ghost function LeafImage(): (im: Image)
      reads this`leaf, leaf, leaf.ent
      requires leaf.Valid()
      ensures WfImage(im)
    {
      Image(leaf.meta.bitmap, leaf.meta.fgpt, leaf.ent[..])
    }

    /** The node's invariant: a well-formed leaf and a coherent buffer. */
    ghost predicate Coherent()
      reads this, leaf, leaf.ent, cache
    {
      Valid() && BufferOk(cache[..], counter, LeafImage(), HashCode1B)
    }

    /** The value key has in this node (0: absent). */
    ghost function Get(x: int64): int64
      reads this`leaf, this`epoch, this`counter, leaf, leaf.ent, cache
      requires Shaped()
    {
      View(cache[..], counter, LeafImage(), x)
    }

    /** `alloc_bnode` with its leaf pointer set: zeroed memory, so version,
        epoch bits and counter are 0 and both slots hold (0, 0). */
    constructor (ln: LNode)
      requires ln.Valid()
      ensures Valid() && fresh(cache) && leaf == ln
      ensures version == 0 && epoch == [false, false] && counter == 0
      ensures cache[..] == [Entry(0, 0), Entry(0, 0)]
    {
      leaf := ln;
      version := 0;
      epoch := [false, false];
      counter := 0;
      cache := new Entry[CACHE](_ => Entry(0, 0));
    }

    /** The scan of `insert` over the live slots. */
    method FindCachePos(key: int64) returns (cpos: nat)
      requires Valid()
      ensures cpos == CacheScan(cache[..], counter, key, 0)
    {
      cpos := 0;
      while cpos < counter && cache[cpos].k != key
        invariant cpos <= counter
        invariant CacheScan(cache[..], counter, key, cpos) == CacheScan(cache[..], counter, key, 0)
        decreases counter - cpos
      {
        cpos := cpos + 1;
      }
    }

    /** The cache path of `insert`: write (key, val) at cpos, count a new
        slot, and set the slot's epoch bit to the global epoch. */
    method WriteCache(cpos: nat, key: int64, val: int64, epochNum: bool)
      requires Valid() && cpos <= counter && cpos < CACHE
      modifies this, cache
      ensures Valid() && leaf == old(leaf) && version == old(version)
      ensures (cache[..], counter) == CacheWrite(old(cache[..]), old(counter), cpos, key, val)
      ensures epoch == old(epoch)[cpos := epochNum]
    {
      cache[cpos] := Entry(key, val);
      if cpos == counter {
        counter := counter + 1;
      }
      epoch := epoch[cpos := epochNum];
    }

    /** `btree::search` on this node, with no writer running (so the
        version check always passes): every cached slot first, then the
        leaf by fingerprint. */
    method Search(key: int64) returns (v: int64)
      requires Coherent()
      ensures v == Get(key)
    {
      var i := 0;
      while i < CACHE
        invariant i <= CACHE
        invariant forall j :: 0 <= j < i ==> cache[j].k != key
      {
        if cache[i].k == key {
          v := cache[i].v;
          WantFirst(cache[..], 0, i, key, Read(LeafImage(), key));
          SearchSeesView(cache[..], counter, LeafImage(), key, HashCode1B);
          return;
        }
        i := i + 1;
      }
      var s := SearchFromLNode(HashCode1B(key), leaf, key);
      CandidateIsLookupSlot(leaf.meta.bitmap, leaf.meta.fgpt, leaf.ent[..], HashCode1B, key);
      v := if s == -1 then 0 else leaf.ent[s].v;
      WantMiss(cache[..], 0, key, Read(LeafImage(), key));
      SearchSeesView(cache[..], counter, LeafImage(), key, HashCode1B);
    }

    /** `btree::insert` on the node `get_the_target_bnode` returned locked:
        a key live in the cache is overwritten in place (`update`) or left
        alone; otherwise a free slot takes it and the entry goes to the
        log; a full buffer sends it, with both cached entries, to the leaf.
        Each path ends by releasing the lock. */
    method Insert(key: int64, val: int64, update: bool, epochNum: bool) returns (logged: seq<Entry>, newbn: BNode?, splitKey: int64)
      requires Coherent() && IsLocked(version)
      modifies this, cache, leaf, leaf.ent
      ensures Coherent() && leaf == old(leaf) && version == Bump(old(version)) && !IsLocked(version)
      ensures var p := old(CacheScan(cache[..], counter, key, 0));
        if p < CACHE && !old(Skips(key, update)) then
          newbn == null && logged == [Entry(key, val)] && epoch == old(epoch)[p := epochNum]
        else
          logged == [] && epoch == old(epoch)
      ensures newbn == null ==> forall x :: Get(x) == if x == key && !old(Skips(key, update)) then val else old(Get(x))
      ensures newbn != null ==>
        && fresh(newbn) && fresh(newbn.leaf) && newbn.Coherent() && newbn.counter == 0 && newbn.version == 0
        && leaf.meta.next == newbn.leaf && newbn.leaf.meta.next == old(leaf.meta.next)
        && (forall x :: Get(x) == if x < splitKey then (if x == key then val else old(Get(x))) else 0)
        && (forall x :: newbn.Get(x) == if x < splitKey then 0 else (if x == key then val else old(Get(x))))
    {
      var cpos := FindCachePos(key);
      if cpos < counter && !update {
        Release();
        return [], null, 0;
      }
      if cpos < CACHE {
        CachePath(cpos, key, val, epochNum);
        logged, newbn, splitKey := [Entry(key, val)], null, 0;
      } else {
        newbn, splitKey := InsertIntoLeaf(key, val, update);
        logged := [];
      }
    }

    /** The cache path of `insert`, lock released. */
    method CachePath(cpos: nat, key: int64, val: int64, epochNum: bool)
      requires Coherent() && IsLocked(version) && cpos == CacheScan(cache[..], counter, key, 0) && cpos < CACHE
      modifies this, cache
      ensures Coherent() && leaf == old(leaf) && version == Bump(old(version)) && epoch == old(epoch)[cpos := epochNum]
      ensures forall x :: Get(x) == if x == key then val else old(Get(x))
    {
      InsertIntoCache(cpos, key, val, epochNum);
      Release();
    }

    /** The cache path of `insert` at the slot the scan found: key now
        reads val, every other key as before, and the buffer stays
        coherent. */
    method InsertIntoCache(cpos: nat, key: int64, val: int64, epochNum: bool)
      requires Coherent() && cpos == CacheScan(cache[..], counter, key, 0) && cpos < CACHE
      modifies this, cache
      ensures Coherent() && leaf == old(leaf) && version == old(version) && epoch == old(epoch)[cpos := epochNum]
      ensures forall x :: Get(x) == if x == key then val else old(Get(x))
    {
      ghost var c0, n0, im0 := cache[..], counter, LeafImage();
      WriteCache(cpos, key, val, epochNum);
      CacheWriteOk(c0, n0, im0, key, val, HashCode1B);
      forall x ensures Get(x) == if x == key then val else View(c0, n0, im0, x) {
        CacheWriteView(c0, n0, im0, key, val, x, HashCode1B);
      }
    }

    /** `reset_lock_bnode(bn, 0)` on this node: the version moves on if the
        node is locked; nothing it holds changes. */
    method Release()
      requires Valid()
      modifies this`version
      ensures Valid()
      ensures version == if IsLocked(old(version)) then Bump(old(version)) else old(version)
      ensures old(Coherent()) ==> Coherent()
    {
      if IsLocked(version) {
        version := Bump(version);
      }
    }

    /** The key is handled without effect (`update` false and the key live
        in the cache, or in the leaf once the cache is full). */
    ghost predicate Skips(key: int64, update: bool)
      reads this, leaf, leaf.ent, cache
      requires Valid()
    {
      var p := CacheScan(cache[..], counter, key, 0);
      !update && (p < counter || (p == CACHE && Found(LeafImage(), key)))
    }

    /** The group of `insert_into_leaf` (`key_group`, `key_hash_group`,
        `slot_id`): the incoming entry with its fingerprint and slot, then
        each cached slot with its own. */
    method Gather(key: int64, val: int64, h0: bv8, s0: int) returns (g: seq<Entry>, gh: seq<bv8>, slotId: seq<int>)
      requires Valid() && ImageOk(LeafImage(), HashCode1B)
      requires h0 == HashCode1B(key) && s0 == FindFrom(leaf.meta.bitmap, leaf.ent[..], key, 0)
      ensures GroupOf(cache[..], LeafImage(), key, val, g, gh, slotId, HashCode1B)
    {
      g, gh, slotId := GatherFrom(leaf, cache[..], key, val, h0, s0);
    }

    /** The leaf path of `insert` (`insert_into_leaf`), reached with a
        full buffer not holding key.  With `update` false and key in the
        leaf it releases the lock and stops; otherwise the counter drops to
        0 and the group merges into the leaf.  A split yields a new bottom
        node over the new leaf and the split key, for the parent. */
    method InsertIntoLeaf(key: int64, val: int64, update: bool) returns (newbn: BNode?, splitKey: int64)
      requires Coherent() && IsLocked(version) && counter == CACHE && CacheScan(cache[..], counter, key, 0) == CACHE
      modifies this, cache, leaf, leaf.ent
      ensures Coherent() && leaf == old(leaf) && epoch == old(epoch) && version == Bump(old(version))
      ensures old(Skips(key, update)) ==>
        && newbn == null && counter == old(counter)
        && cache[..] == old(cache[..]) && LeafImage() == old(LeafImage()) && leaf.meta.next == old(leaf.meta.next)
      ensures !old(Skips(key, update)) ==> counter == 0
      ensures newbn == null ==> forall x :: Get(x) == if x == key && !old(Skips(key, update)) then val else old(Get(x))
      ensures newbn != null ==>
        && fresh(newbn) && fresh(newbn.leaf) && newbn.Coherent() && newbn.counter == 0 && newbn.version == 0
        && leaf.meta.next == newbn.leaf && newbn.leaf.meta.next == old(leaf.meta.next)
        && (forall x :: Get(x) == if x < splitKey then (if x == key then val else old(Get(x))) else 0)
        && (forall x :: newbn.Get(x) == if x < splitKey then 0 else (if x == key then val else old(Get(x))))
    {
      var h0, s0 := Locate(leaf, key);
      if !update && s0 != -1 {
        Release();
        newbn, splitKey := null, 0;
        return;
      }
      var g, gh, slotId := Gather(key, val, h0, s0);
      ghost var c0, im0 := cache[..], LeafImage();
      counter := 0;
      newbn, splitKey := MergeGroup(key, val, g, gh, slotId, c0, im0);
    }

    /** The merge of `insert_into_leaf` once the counter is 0: the leaf
        takes the group; on a split the cache takes `old_cache` and a new
        bottom node over the new leaf takes `new_cache`. */
    method MergeGroup(key: int64, val: int64, g: seq<Entry>, gh: seq<bv8>, slotId: seq<int>,
                      ghost c0: seq<Entry>, ghost im0: Image) returns (newbn: BNode?, splitKey: int64)
      requires Valid() && IsLocked(version) && counter == 0 && cache[..] == c0 && LeafImage() == im0
      requires BufferOk(c0, CACHE, im0, HashCode1B) && CacheScan(c0, CACHE, key, 0) == CACHE
      requires GroupOf(c0, im0, key, val, g, gh, slotId, HashCode1B)
      modifies this`version, cache, leaf, leaf.ent
      ensures Coherent() && version == Bump(old(version))
      ensures newbn == null ==> leaf.meta.next == old(leaf.meta.next) && forall x :: Get(x) == if x == key then val else View(c0, CACHE, im0, x)
      ensures newbn != null ==>
        && fresh(newbn) && fresh(newbn.leaf) && newbn.Coherent() && newbn.counter == 0 && newbn.version == 0
        && leaf.meta.next == newbn.leaf && newbn.leaf.meta.next == old(leaf.meta.next)
        && (forall x :: Get(x) == if x < splitKey then (if x == key then val else View(c0, CACHE, im0, x)) else 0)
        && (forall x :: newbn.Get(x) == if x < splitKey then 0 else (if x == key then val else View(c0, CACHE, im0, x)))
    {
      var newln, oldCache, newCache;
      ghost var pos;
      newln, splitKey, oldCache, newCache, pos := MergeIntoLeaf(leaf, g, gh, slotId, im0);
      if newln == null {
        newbn := null;
        Release();
        MergedGets(key, val, g, gh, slotId, c0, im0);
      } else {
        newbn := SplitNode(newln, oldCache, newCache, key, val, g, gh, slotId, pos, c0, im0);
      }
    }

    /** The split side of `insert_into_leaf`: a new bottom node over the
        new leaf, `old_cache` into this node's cache and `new_cache` into
        the new node's. */
    method SplitNode(newln: LNode, oldCache: seq<Entry>, newCache: seq<Entry>,
                     key: int64, val: int64, g: seq<Entry>, gh: seq<bv8>, slotId: seq<int>, ghost pos: seq<int>,
                     ghost c0: seq<Entry>, ghost im0: Image) returns (newbn: BNode)
      requires BufferOk(c0, CACHE, im0, HashCode1B) && CacheScan(c0, CACHE, key, 0) == CACHE
      requires GroupOf(c0, im0, key, val, g, gh, slotId, HashCode1B) && Merged(im0, g, gh, slotId).stop < GROUP
      requires IsPerm(pos) && Sorted(Merged(im0, g, gh, slotId).im.ents, pos, 0, SLOTS)
      requires Valid() && IsLocked(version) && newln.Valid() && counter == 0 && newln != leaf && newln.ent != cache
      requires var r := Merged(im0, g, gh, slotId);
        && LeafImage() == OldLeaf(r.im, pos, g, gh, slotId, r.stop)
        && Image(newln.meta.bitmap, newln.meta.fgpt, newln.ent[..]) == NewLeaf(r.im, pos, g, gh, slotId, r.stop)
        && oldCache == [r.im.ents[pos[0]], r.im.ents[pos[1]]]
        && newCache == [r.im.ents[pos[HALF]], r.im.ents[pos[HALF + 1]]]
      modifies this`version, cache
      ensures fresh(newbn) && newbn.leaf == newln && newbn.Coherent() && newbn.counter == 0 && newbn.version == 0
      ensures Coherent() && version == Bump(old(version))
      ensures var sk := SplitKey(Merged(im0, g, gh, slotId).im, pos);
        forall x :: Get(x) == if x < sk then (if x == key then val else View(c0, CACHE, im0, x)) else 0
      ensures var sk := SplitKey(Merged(im0, g, gh, slotId).im, pos);
        forall x :: newbn.Get(x) == if x < sk then 0 else (if x == key then val else View(c0, CACHE, im0, x))
    {
      newbn := new BNode(newln);
      SetCaches(newbn, oldCache, newCache);
      Release();
      SplitGets(newbn, key, val, g, gh, slotId, pos, c0, im0);
    }

    /** The node once the group merged without a split, its counter 0: it
        is coherent, key reads val and every other key as before. */
    lemma MergedGets(key: int64, val: int64, g: seq<Entry>, gh: seq<bv8>, slotId: seq<int>, c0: seq<Entry>, im0: Image)
      requires BufferOk(c0, CACHE, im0, HashCode1B) && CacheScan(c0, CACHE, key, 0) == CACHE
      requires GroupOf(c0, im0, key, val, g, gh, slotId, HashCode1B) && Merged(im0, g, gh, slotId).stop == GROUP
      requires Valid() && counter == 0 && cache[..] == c0 && LeafImage() == Merged(im0, g, gh, slotId).im
      ensures Coherent()
      ensures forall x :: Get(x) == if x == key then val else View(c0, CACHE, im0, x)
    {
      MergeKeepsBuffer(c0, im0, key, val, g, gh, slotId, HashCode1B);
      forall x ensures Get(x) == if x == key then val else View(c0, CACHE, im0, x) {
        MergeView(c0, im0, key, val, g, gh, slotId, x, HashCode1B);
      }
    }

    /** This node and newbn once the group merged with a split, both
        counters 0 and the caches holding `old_cache` and `new_cache`: both
        are coherent, and each holds the keys on its side of the split key
        as the merge says and reads 0 for the others. */
    lemma SplitGets(newbn: BNode, key: int64, val: int64, g: seq<Entry>, gh: seq<bv8>, slotId: seq<int>, pos: seq<int>,
                    c0: seq<Entry>, im0: Image)
      requires BufferOk(c0, CACHE, im0, HashCode1B) && CacheScan(c0, CACHE, key, 0) == CACHE
      requires GroupOf(c0, im0, key, val, g, gh, slotId, HashCode1B) && Merged(im0, g, gh, slotId).stop < GROUP
      requires IsPerm(pos) && Sorted(Merged(im0, g, gh, slotId).im.ents, pos, 0, SLOTS)
      requires Valid() && newbn.Valid() && counter == 0 && newbn.counter == 0
      requires var r := Merged(im0, g, gh, slotId);
        && LeafImage() == OldLeaf(r.im, pos, g, gh, slotId, r.stop)
        && newbn.LeafImage() == NewLeaf(r.im, pos, g, gh, slotId, r.stop)
        && cache[..] == [r.im.ents[pos[0]], r.im.ents[pos[1]]]
        && newbn.cache[..] == [r.im.ents[pos[HALF]], r.im.ents[pos[HALF + 1]]]
      ensures Coherent() && newbn.Coherent()
      ensures var sk := SplitKey(Merged(im0, g, gh, slotId).im, pos);
        forall x :: Get(x) == if x < sk then (if x == key then val else View(c0, CACHE, im0, x)) else 0
      ensures var sk := SplitKey(Merged(im0, g, gh, slotId).im, pos);
        forall x :: newbn.Get(x) == if x < sk then 0 else (if x == key then val else View(c0, CACHE, im0, x))
    {
      SplitKeepsBuffers(c0, im0, key, val, g, gh, slotId, pos, HashCode1B);
      var sk := SplitKey(Merged(im0, g, gh, slotId).im, pos);
      forall x ensures Get(x) == (if x < sk then (if x == key then val else View(c0, CACHE, im0, x)) else 0)
                    && newbn.Get(x) == (if x < sk then 0 else (if x == key then val else View(c0, CACHE, im0, x))) {
        SplitView(c0, im0, key, val, g, gh, slotId, pos, x, HashCode1B);
      }
    }

    /** One node's turn in `recycle_bottom` under the new epoch e: with the
        lock held, each live slot whose epoch bit differs from e goes to the
        log and is retagged e.  The entries themselves do not change. */
    method Recycle(e: bool) returns (logged: seq<Entry>)
      requires Valid() && !IsLocked(version)
      modifies this
      ensures Valid() && leaf == old(leaf) && counter == old(counter) && version == Bump(Bump(old(version)))
      ensures logged == old(Stale(cache[..], epoch, counter, e))
      ensures epoch == Retag(old(epoch), counter, e)
      ensures forall x :: Get(x) == old(Get(x))
    {
      var _, _ := GetLock(this, Writer);
      var ep;
      logged, ep := RecycleSlots(cache[..], epoch, counter, e);
      epoch := ep;
      Release();
    }

    /** `get_range_key_from_lnode` on this node with no writer running (so
        the version check passes): `buf` receives the values of RangeOf,
        each the value the node holds for its key. */
    method RangeFrom(minKey: int64) returns (vals: seq<int64>, small: bool)
      requires Valid()
      ensures vals == ValuesOf(RangeOf(cache[..], counter, LeafImage(), minKey))
      ensures small <==> HasSmall(cache[..], counter, LeafImage(), minKey, SLOTS)
    {
      vals, small := CollectRange(cache[..], counter, Image(leaf.meta.bitmap, leaf.meta.fgpt, leaf.ent[..]), minKey);
    }

    /** The last step of a split: `bn->cache[i] = old_cache[i]` and
        `newbn->cache[i] = new_cache[i]` for both slots. */
    method SetCaches(newbn: BNode, oldCache: seq<Entry>, newCache: seq<Entry>)
      requires Valid() && newbn.Valid() && newbn.cache != cache && |oldCache| == |newCache| == CACHE
      modifies cache, newbn.cache
      ensures cache[..] == oldCache && newbn.cache[..] == newCache
    {
      for i := 0 to CACHE
        invariant cache[..i] == oldCache[..i] && newbn.cache[..i] == newCache[..i]
      {
        cache[i] := oldCache[i];
        newbn.cache[i] := newCache[i];
      }
    }
  }

  /** What `recycle_bottom` logs over the bottom nodes in chain order. */
  ghost function AllStale(nodes: seq<BNode>, e: bool): seq<Entry>
    reads set b | b in nodes, set b | b in nodes :: b.leaf, set b | b in nodes :: b.cache
    requires forall b :: b in nodes ==> b.Valid()
  {
    if nodes == [] then []
    else
      var b := nodes[|nodes| - 1];
      assert b in nodes && b.Valid();
      AllStale(nodes[..|nodes| - 1], e) + Stale(b.cache[..], b.epoch, b.counter, e)
  }

  /** `recycle_bottom` as one sequential pass: the global epoch flips, then
      every bottom node, in the order the level-0 inner nodes list them,
      logs its live entries of the previous epoch and retags them. */
  method RecycleBottom(nodes: seq<BNode>, epochNum: bool) returns (e: bool, logged: seq<Entry>)
    requires forall i, j :: 0 <= i < j < |nodes| ==> nodes[i] != nodes[j]
    requires forall b :: b in nodes ==> b.Valid() && !IsLocked(b.version)
    modifies set b | b in nodes
    ensures e == !epochNum
    ensures logged == old(AllStale(nodes, e))
    ensures forall j :: 0 <= j < |nodes| ==>
      && nodes[j].Valid() && nodes[j].counter == old(nodes[j].counter) && nodes[j].leaf == old(nodes[j].leaf)
      && nodes[j].version == Bump(Bump(old(nodes[j].version)))
      && nodes[j].epoch == Retag(old(nodes[j].epoch), nodes[j].counter, e)
  {
    e := !epochNum;
    logged := [];
    for i := 0 to |nodes|
      invariant forall j :: 0 <= j < |nodes| ==> nodes[j].Valid()
      invariant forall j :: i <= j < |nodes| ==>
        && nodes[j].counter == old(nodes[j].counter) && nodes[j].leaf == old(nodes[j].leaf)
        && nodes[j].version == old(nodes[j].version) && nodes[j].epoch == old(nodes[j].epoch)
      invariant forall j :: 0 <= j < i ==>
        && nodes[j].counter == old(nodes[j].counter) && nodes[j].leaf == old(nodes[j].leaf)
        && nodes[j].version == Bump(Bump(old(nodes[j].version)))
        && nodes[j].epoch == Retag(old(nodes[j].epoch), nodes[j].counter, e)
      invariant logged == old(AllStale(nodes[..i], e))
    {
      var l := nodes[i].Recycle(e);
      assert nodes[..i + 1][..i] == nodes[..i];
      logged := logged + l;
    }
    assert nodes[..|nodes|] == nodes;
  }

  /** slotId holds the slot of each member's key in the leaf. */
  ghost predicate SlotsIn(bm: seq<bool>, ents: seq<Entry>, g: seq<Entry>, slotId: seq<int>)
    requires |bm| == |ents| == SLOTS
  {
    |slotId| == |g| && forall j :: 0 <= j < |g| ==> slotId[j] == FindFrom(bm, ents, g[j].k, 0)
  }

  lemma SlotsSnoc(bm: seq<bool>, ents: seq<Entry>, g: seq<Entry>, slotId: seq<int>, e: Entry, sl: int)
    requires |bm| == |ents| == SLOTS && SlotsIn(bm, ents, g, slotId) && sl == FindFrom(bm, ents, e.k, 0)
    ensures SlotsIn(bm, ents, g + [e], slotId + [sl])
  {
  }

  lemma HashesSnoc(g: seq<Entry>, gh: seq<bv8>, fp: int64 -> bv8, e: Entry, h: bv8)
    requires Hashes(g, gh, fp) && h == fp(e.k)
    ensures Hashes(g + [e], gh + [h], fp)
  {
  }

  /** After i rounds of the gathering loop: the new entry and the first i
      cached entries, with their fingerprints and slots. */
  ghost predicate Gathered(bm: seq<bool>, ents: seq<Entry>, key: int64, val: int64, c: seq<Entry>, i: nat,
                           g: seq<Entry>, gh: seq<bv8>, slotId: seq<int>)
    requires |bm| == |ents| == SLOTS && i <= |c|
  {
    g == [Entry(key, val)] + c[..i] && Hashes(g, gh, HashCode1B) && SlotsIn(bm, ents, g, slotId)
  }

  /** One round of the gathering loop: the next cached entry joins the
      group with its fingerprint and its slot. */
  method GatherOne(ln: LNode, key: int64, val: int64, c: seq<Entry>, i: nat, g: seq<Entry>, gh: seq<bv8>, slotId: seq<int>)
    returns (g': seq<Entry>, gh': seq<bv8>, slotId': seq<int>)
    requires ln.Valid() && LeafOk(ln.meta.bitmap, ln.meta.fgpt, ln.ent[..], HashCode1B) && i < |c|
    requires Gathered(ln.meta.bitmap, ln.ent[..], key, val, c, i, g, gh, slotId)
    ensures Gathered(ln.meta.bitmap, ln.ent[..], key, val, c, i + 1, g', gh', slotId')
  {
    var e := c[i];
    var h, sl := Locate(ln, e.k);
    HashesSnoc(g, gh, HashCode1B, e, h);
    SlotsSnoc(ln.meta.bitmap, ln.ent[..], g, slotId, e, sl);
    assert c[..i + 1] == c[..i] + [e];
    g', gh', slotId' := g + [e], gh + [h], slotId + [sl];
  }

  /** The loop of the group gathering: each cached entry with its
      fingerprint and the slot of its key in the leaf. */
  method GatherFrom(ln: LNode, c: seq<Entry>, key: int64, val: int64, h0: bv8, s0: int)
    returns (g: seq<Entry>, gh: seq<bv8>, slotId: seq<int>)
    requires ln.Valid() && LeafOk(ln.meta.bitmap, ln.meta.fgpt, ln.ent[..], HashCode1B) && |c| == CACHE
    requires h0 == HashCode1B(key) && s0 == FindFrom(ln.meta.bitmap, ln.ent[..], key, 0)
    ensures g == [Entry(key, val)] + c && Hashes(g, gh, HashCode1B) && SlotsIn(ln.meta.bitmap, ln.ent[..], g, slotId)
  {
    ghost var bm, ents := ln.meta.bitmap, ln.ent[..];
    g, gh, slotId := [Entry(key, val)], [h0], [s0];
    for i := 0 to CACHE
      invariant Gathered(bm, ents, key, val, c, i, g, gh, slotId)
    {
      g, gh, slotId := GatherOne(ln, key, val, c, i, g, gh, slotId);
    }
    assert c[..CACHE] == c;
  }

  /** The fingerprint of key and its slot in the leaf, as
      `search_from_lnode(hashcode1B(key), ln, key)` finds it. */
  method Locate(ln: LNode, key: int64) returns (h: bv8, s: int)
    requires ln.Valid() && LeafOk(ln.meta.bitmap, ln.meta.fgpt, ln.ent[..], HashCode1B)
    ensures h == HashCode1B(key) && s == FindFrom(ln.meta.bitmap, ln.ent[..], key, 0)
  {
    h := HashCode1B(key);
    s := SearchFromLNode(h, ln, key);
    CandidateIsLookupSlot(ln.meta.bitmap, ln.meta.fgpt, ln.ent[..], HashCode1B, key);
  }

  /** `get_lock_bnode`: fails on a null or locked node; a writer bumps the
      version (the compare-and-swap succeeds without a competitor), a
      reader gets the version. */
  method GetLock(bn: BNode?, op: Access) returns (ok: bool, ver: nat)
    requires bn != null ==> bn.version < VERSIONS
    modifies bn
    ensures bn != null ==> bn.leaf == old(bn.leaf) && bn.epoch == old(bn.epoch) && bn.counter == old(bn.counter)
    ensures ok <==> bn != null && !IsLocked(old(bn.version))
    ensures bn != null ==> bn.version == if ok && op == Writer then Bump(old(bn.version)) else old(bn.version)
    ensures ok && op == Reader ==> ver == bn.version
  {
    ver := 0;
    if bn == null {
      return false, ver;
    }
    if IsLocked(bn.version) {
      return false, ver;
    }
    if op == Writer {
      bn.version := Bump(bn.version);
      ok := true;
    } else {
      ver := bn.version;
      ok := true;
    }
  }

  /** `reset_lock_bnode`: a writer releases a locked node by bumping the
      version; on a null or unlocked node, and for a reader, nothing
      happens. */
  method ResetLock(bn: BNode?, op: Access) returns (ok: bool)
    requires bn != null ==> bn.version < VERSIONS
    modifies bn
    ensures ok
    ensures bn != null ==> bn.leaf == old(bn.leaf) && bn.epoch == old(bn.epoch) && bn.counter == old(bn.counter)
    ensures bn != null ==>
      bn.version == if op == Writer && IsLocked(old(bn.version)) then Bump(old(bn.version)) else old(bn.version)
  {
    if op == Writer && bn != null && IsLocked(bn.version) {
      bn.version := Bump(bn.version);
    }
    ok := true;
  }
}
