// The fingerprinted persistent leaf shared by both CCL-BTree variants: 14
// entry slots, a 14-bit occupancy bitmap, one fingerprint byte per slot and a
// link to the next leaf.  The metadata word (bitmap, next, fingerprints) is a
// value that the merge code copies, edits and writes back as a whole.

module LeafNode {
  import opened Bits

  /** LEAF_KEY_NUM */
  const SLOTS: nat := 14
  /** The bitmap of a leaf whose 14 slots are all live (0x3fff). */
  const FULL: seq<bool> := [true, true, true, true, true, true, true, true, true, true, true, true, true, true]

  /** A leaf entry, and a cached entry in a bottom node.  Value 0 is the
      delete tombstone and the "not found" answer. */
  datatype Entry = Entry(k: int64, v: int64)

  /** The metadata of a leaf (`lnodeMeta`, timestamp left out). */
  datatype Meta = Meta(bitmap: seq<bool>, next: LNode?, fgpt: seq<bv8>)

  /** A 14-bit bitmap and one fingerprint per slot. */
  predicate WfMeta(m: Meta)
  {
    |m.bitmap| == SLOTS && |m.fgpt| == SLOTS
  }

  /** A 14-bit bitmap equals 0x3fff exactly when every slot is live. */
  lemma FullIffAllLive(bm: seq<bool>)
    requires |bm| == SLOTS
    ensures bm == FULL <==> forall j :: 0 <= j < SLOTS ==> bm[j]
  {
  }

  // ------------------------------------------------------------ hashing

  /** The reference fold: the exclusive-or of the eight bytes of w. */
  function ByteXor(w: bv64): bv64
  {
    (w ^ (w >> 8) ^ (w >> 16) ^ (w >> 24) ^ (w >> 32) ^ (w >> 40) ^ (w >> 48) ^ (w >> 56)) & 0xff
  }

  /** The fold of `hashcode1B` with logical shifts. */
  function LogicalFold(w: bv64): bv64
  {
    var a := w ^ (w >> 32);
    var b := a ^ (a >> 16);
    (b ^ (b >> 8)) & 0xff
  }

  /** `x ^= x >> k` on a signed 64-bit x: the right shift is arithmetic,
      so the top k bits are copies of the sign bit. */
  function FoldStep32(w: bv64): (x: bv64)
    ensures x & 0xFFFF_FFFF == (w ^ (w >> 32)) & 0xFFFF_FFFF
  {
    w ^ ((w >> 32) | (if w & 0x8000_0000_0000_0000 != 0 then 0xFFFF_FFFF_0000_0000 else 0))
  }

  function FoldStep16(w: bv64): (x: bv64)
    ensures x & 0xFFFF == (w ^ (w >> 16)) & 0xFFFF
  {
    w ^ ((w >> 16) | (if w & 0x8000_0000_0000_0000 != 0 then 0xFFFF_0000_0000_0000 else 0))
  }

  function FoldStep8(w: bv64): (x: bv64)
    ensures x & 0xFF == (w ^ (w >> 8)) & 0xFF
  {
    w ^ ((w >> 8) | (if w & 0x8000_0000_0000_0000 != 0 then 0xFF00_0000_0000_0000 else 0))
  }

  /** After a first step that got the low 32 bits right, the second step
      gets the low 16 bits of the logical fold. */
  lemma Low32(x: bv64, w: bv64)
    requires x & 0xFFFF_FFFF == (w ^ (w >> 32)) & 0xFFFF_FFFF
    ensures var a := w ^ (w >> 32); FoldStep16(x) & 0xFFFF == (a ^ (a >> 16)) & 0xFFFF
  {
  }

  /** After two steps that got the low 16 bits right, the third step gets
      the low byte of the logical fold. */
  lemma Low16(x: bv64, w: bv64)
    requires var a := w ^ (w >> 32); x & 0xFFFF == (a ^ (a >> 16)) & 0xFFFF
    ensures FoldStep8(x) & 0xff == LogicalFold(w)
  {
  }

  /** The three folding steps of `hashcode1B` on the 64-bit pattern of a
      signed key.  The sign bits the arithmetic shifts bring in never reach
      the low byte, so the result is the fold with logical shifts. */
  function FoldKey(w: bv64): (h: bv64)
    ensures h == LogicalFold(w)
  {
    var x1 := FoldStep32(w);
    Low32(x1, w);
    var x2 := FoldStep16(x1);
    Low16(x2, w);
    FoldStep8(x2) & 0xff
  }

  /** Folding by 32, 16 and 8 bits leaves the exclusive-or of all eight
      bytes in the low byte. */
  lemma LogicalIsBytes(w: bv64)
    ensures LogicalFold(w) == ByteXor(w)
  {
  }

  /** `hashcode1B`: the fingerprint of a key, the exclusive-or of its eight
      bytes. */
  function HashCode1B(x: int64): (h: bv8)
    ensures h as bv64 == ByteXor(TwosComplement(x))
  {
    LogicalIsBytes(TwosComplement(x));
    FoldKey(TwosComplement(x)) as bv8
  }

  // ------------------------------------------------------ the leaf object

  class LNode {
    var meta: Meta
    const ent: array<Entry>

    ghost predicate Valid()
      reads this
    {
      WfMeta(meta) && ent.Length == SLOTS
    }

    /** A fresh leaf (`alloc_lnode`): no live slot, no successor; its memory
      is taken as zeroed. */
    constructor ()
      ensures Valid() && fresh(ent)
      ensures meta.bitmap == Zeros(SLOTS) && meta.next == null
      ensures meta.fgpt == seq(SLOTS, _ => 0) && ent[..] == seq(SLOTS, _ => Entry(0, 0))
    {
      meta := Meta(Zeros(SLOTS), null, seq(SLOTS, _ => 0));
      ent := new Entry[SLOTS](_ => Entry(0, 0));
    }

    /** `num()`: how many slots are live. */
    function Num(): (n: nat)
      reads this
      requires Valid()
      ensures n <= SLOTS
      ensures n == |Ones(meta.bitmap)|
    {
      PopCount(meta.bitmap)
    }

    /** `isFull()`: every slot is live. */
    function IsFull(): (b: bool)
      reads this
      requires Valid()
      ensures b <==> forall i :: 0 <= i < SLOTS ==> meta.bitmap[i]
    {
      FullIffAllLive(meta.bitmap);
      meta.bitmap == FULL
    }

    /** `isAlmostFull(a)`: a more live entries would not fit. */
    function IsAlmostFull(a: int): (b: bool)
      reads this
      requires Valid()
      ensures b <==> |Ones(meta.bitmap)| + a > SLOTS
    {
      Num() + a > SLOTS
    }
  }

  // ---------------------------------------------------- abstract contents
  // A leaf's contents are stated on the plain sequences of its bitmap,
  // fingerprints and entries.

  /** The lowest live slot at or above i holding key, or -1. */
  function FindFrom(bm: seq<bool>, ents: seq<Entry>, key: int64, i: nat): (r: int)
    requires |bm| == |ents| == SLOTS && i <= SLOTS
    ensures r == -1 || i <= r < SLOTS
    decreases SLOTS - i
  {
    if i == SLOTS then -1
    else if bm[i] && ents[i].k == key then i
    else FindFrom(bm, ents, key, i + 1)
  }

  /** FindFrom finds a live slot holding key, and the lowest one, or
      reports that there is none. */
  lemma {:induction false} FindFromSpec(bm: seq<bool>, ents: seq<Entry>, key: int64, i: nat)
    requires |bm| == |ents| == SLOTS && i <= SLOTS
    ensures var r := FindFrom(bm, ents, key, i);
      && (r == -1 || (i <= r < SLOTS && bm[r] && ents[r].k == key))
      && (r == -1 ==> forall j :: i <= j < SLOTS && bm[j] ==> ents[j].k != key)
      && (r != -1 ==> forall j :: i <= j < r && bm[j] ==> ents[j].k != key)
    decreases SLOTS - i
  {
    if i < SLOTS && !(bm[i] && ents[i].k == key) {
      FindFromSpec(bm, ents, key, i + 1);
    }
  }

  /** The value a leaf holds for key: that of its live slot, or 0. */
  function Lookup(bm: seq<bool>, ents: seq<Entry>, key: int64): int64
    requires |bm| == |ents| == SLOTS
  {
    var s := FindFrom(bm, ents, key, 0);
    if s == -1 then 0 else ents[s].v
  }

  /** No two live slots hold the same key. */
  ghost predicate UniqueKeys(bm: seq<bool>, ents: seq<Entry>)
    requires |bm| == |ents| == SLOTS
  {
    forall i, j :: 0 <= i < SLOTS && 0 <= j < SLOTS && bm[i] && bm[j] && ents[i].k == ents[j].k ==> i == j
  }

  /** Each live fingerprint is fp of its slot's key.  The leaves use
      fp = HashCode1B; the facts about a leaf hold for any fingerprint
      function, and are stated that way. */
  ghost predicate FgptOk(bm: seq<bool>, fg: seq<bv8>, ents: seq<Entry>, fp: int64 -> bv8)
    requires |bm| == |fg| == |ents| == SLOTS
  {
    forall i :: 0 <= i < SLOTS && bm[i] ==> fg[i] == fp(ents[i].k)
  }

  /** A well-formed leaf.  (A live value may be 0: the first leaf starts
      with a live (0, 0).) */
  ghost predicate LeafOk(bm: seq<bool>, fg: seq<bv8>, ents: seq<Entry>, fp: int64 -> bv8)
  {
    |bm| == |fg| == |ents| == SLOTS && FgptOk(bm, fg, ents, fp) && UniqueKeys(bm, ents)
  }

  /** A leaf whose live slots are live slots of a well-formed leaf, with
      the same keys and fingerprints, is well formed. */
  lemma Shrink(bm: seq<bool>, fg: seq<bv8>, ents: seq<Entry>, bm': seq<bool>, fg': seq<bv8>, ents': seq<Entry>,
               fp: int64 -> bv8)
    requires LeafOk(bm, fg, ents, fp) && |bm'| == |fg'| == |ents'| == SLOTS
    requires forall j :: 0 <= j < SLOTS && bm'[j] ==> bm[j] && fg'[j] == fg[j] && ents'[j].k == ents[j].k
    ensures LeafOk(bm', fg', ents', fp)
  {
  }

  /** Writing an entry whose key the leaf lacks into a dead slot, with its
      fingerprint, keeps the leaf well formed. */
  lemma Grow(bm: seq<bool>, fg: seq<bv8>, ents: seq<Entry>, s: int, e: Entry, fp: int64 -> bv8)
    requires LeafOk(bm, fg, ents, fp) && 0 <= s < SLOTS && !bm[s]
    requires forall j :: 0 <= j < SLOTS && bm[j] ==> ents[j].k != e.k
    ensures LeafOk(bm[s := true], fg[s := fp(e.k)], ents[s := e], fp)
  {
    var bm', fg', ents' := bm[s := true], fg[s := fp(e.k)], ents[s := e];
    assert forall j :: 0 <= j < SLOTS && bm'[j] && j != s ==> bm[j] && fg'[j] == fg[j] && ents'[j] == ents[j];
  }

  /** In a leaf with unique keys, Lookup reads the live slot of the key. */
  lemma LookupLive(bm: seq<bool>, ents: seq<Entry>, i: int, x: int64)
    requires |bm| == |ents| == SLOTS && UniqueKeys(bm, ents) && 0 <= i < SLOTS && bm[i] && ents[i].k == x
    ensures Lookup(bm, ents, x) == ents[i].v
  {
    FindFromSpec(bm, ents, x, 0);
  }

  /** A key with no live slot reads as 0. */
  lemma LookupAbsent(bm: seq<bool>, ents: seq<Entry>, key: int64)
    requires |bm| == |ents| == SLOTS
    requires forall i :: 0 <= i < SLOTS && bm[i] ==> ents[i].k != key
    ensures Lookup(bm, ents, key) == 0
  {
    FindFromSpec(bm, ents, key, 0);
  }

  /** Clearing the bit of live slot s deletes its key and nothing else. */
  lemma DeleteSlot(bm: seq<bool>, ents: seq<Entry>, s: int)
    requires |bm| == |ents| == SLOTS && UniqueKeys(bm, ents) && 0 <= s < SLOTS && bm[s]
    ensures UniqueKeys(bm[s := false], ents)
    ensures forall x :: Lookup(bm[s := false], ents, x) == if x == ents[s].k then 0 else Lookup(bm, ents, x)
  {
    forall x ensures Lookup(bm[s := false], ents, x) == if x == ents[s].k then 0 else Lookup(bm, ents, x) {
      DeleteSlotAt(bm, ents, s, x);
    }
  }

  lemma DeleteSlotAt(bm: seq<bool>, ents: seq<Entry>, s: int, x: int64)
    requires |bm| == |ents| == SLOTS && UniqueKeys(bm, ents) && 0 <= s < SLOTS && bm[s]
    ensures Lookup(bm[s := false], ents, x) == if x == ents[s].k then 0 else Lookup(bm, ents, x)
  {
    var bm' := bm[s := false];
    assert UniqueKeys(bm', ents);
    if j :| 0 <= j < SLOTS && bm'[j] && ents[j].k == x {
      LookupLive(bm', ents, j, x);
      LookupLive(bm, ents, j, x);
    } else {
      LookupAbsent(bm', ents, x);
      if x != ents[s].k {
        LookupAbsent(bm, ents, x);
      }
    }
  }

  /** Writing value v into live slot s changes the value of its key only. */
  lemma UpdateSlot(bm: seq<bool>, ents: seq<Entry>, s: int, v: int64)
    requires |bm| == |ents| == SLOTS && UniqueKeys(bm, ents) && 0 <= s < SLOTS && bm[s]
    ensures UniqueKeys(bm, ents[s := ents[s].(v := v)])
    ensures forall x :: Lookup(bm, ents[s := ents[s].(v := v)], x) == if x == ents[s].k then v else Lookup(bm, ents, x)
  {
    forall x ensures Lookup(bm, ents[s := ents[s].(v := v)], x) == if x == ents[s].k then v else Lookup(bm, ents, x) {
      UpdateSlotAt(bm, ents, s, v, x);
    }
  }

  lemma UpdateSlotAt(bm: seq<bool>, ents: seq<Entry>, s: int, v: int64, x: int64)
    requires |bm| == |ents| == SLOTS && UniqueKeys(bm, ents) && 0 <= s < SLOTS && bm[s]
    ensures Lookup(bm, ents[s := ents[s].(v := v)], x) == if x == ents[s].k then v else Lookup(bm, ents, x)
  {
    var ents' := ents[s := ents[s].(v := v)];
    assert forall i :: 0 <= i < SLOTS ==> ents'[i].k == ents[i].k;
    if j :| 0 <= j < SLOTS && bm[j] && ents'[j].k == x {
      LookupLive(bm, ents', j, x);
      LookupLive(bm, ents, j, x);
    } else {
      LookupAbsent(bm, ents', x);
      LookupAbsent(bm, ents, x);
    }
  }

  /** Writing an entry whose key the leaf lacks into a dead slot adds that
      key and nothing else. */
  lemma InsertSlot(bm: seq<bool>, ents: seq<Entry>, s: int, e: Entry)
    requires |bm| == |ents| == SLOTS && UniqueKeys(bm, ents) && 0 <= s < SLOTS && !bm[s]
    requires forall j :: 0 <= j < SLOTS && bm[j] ==> ents[j].k != e.k
    ensures UniqueKeys(bm[s := true], ents[s := e])
    ensures forall x :: Lookup(bm[s := true], ents[s := e], x) == if x == e.k then e.v else Lookup(bm, ents, x)
  {
    forall x ensures Lookup(bm[s := true], ents[s := e], x) == if x == e.k then e.v else Lookup(bm, ents, x) {
      InsertSlotAt(bm, ents, s, e, x);
    }
  }

  lemma InsertSlotAt(bm: seq<bool>, ents: seq<Entry>, s: int, e: Entry, x: int64)
    requires |bm| == |ents| == SLOTS && UniqueKeys(bm, ents) && 0 <= s < SLOTS && !bm[s]
    requires forall j :: 0 <= j < SLOTS && bm[j] ==> ents[j].k != e.k
    ensures Lookup(bm[s := true], ents[s := e], x) == if x == e.k then e.v else Lookup(bm, ents, x)
  {
    var bm', ents' := bm[s := true], ents[s := e];
    assert UniqueKeys(bm', ents');
    if j :| 0 <= j < SLOTS && bm'[j] && ents'[j].k == x {
      LookupLive(bm', ents', j, x);
      if j != s {
        assert bm[j] && ents'[j] == ents[j] && x != e.k;
        LookupLive(bm, ents, j, x);
      } else {
        assert x == e.k && ents'[j] == e;
      }
    } else {
      assert bm'[s] && ents'[s].k == e.k;
      LookupAbsent(bm', ents', x);
      assert forall i :: 0 <= i < SLOTS && bm[i] ==> i != s && bm'[i] && ents'[i] == ents[i];
      LookupAbsent(bm, ents, x);
    }
  }

  /** The meta word after an entry with fingerprint f is written into dead
      slot s: the bit is set and the fingerprint recorded. */
  function Occupy(m: Meta, s: int, f: bv8): (m': Meta)
    requires WfMeta(m) && 0 <= s < SLOTS
    ensures WfMeta(m') && m'.next == m.next
  {
    Meta(m.bitmap[s := true], m.next, m.fgpt[s := f])
  }

  // ------------------------------------------------------ fingerprint scan

  /** What `_mm_movemask_epi8(_mm_cmpeq_epi8(...))` yields on the fingerprint
      bytes: bit i set exactly when fingerprint i equals h.  (The two padding
      lanes are cleared by the bitmap and are left out.) */
  function MatchMask(fg: seq<bv8>, h: bv8): (m: seq<bool>)
    ensures |m| == |fg| && forall i :: 0 <= i < |fg| ==> (m[i] <==> fg[i] == h)
  {
    seq(|fg|, i requires 0 <= i < |fg| => fg[i] == h)
  }

  /** The candidate loop of `search_from_lnode`: visiting the set bits of
      mask from the lowest up, the first slot whose key is key, or -1. */
  method FirstMatch(mask: seq<bool>, ents: seq<Entry>, key: int64) returns (r: int)
    requires |mask| == |ents| == SLOTS
    ensures -1 <= r < SLOTS
    ensures r == -1 <==> forall j :: 0 <= j < SLOTS && mask[j] ==> ents[j].k != key
    ensures r != -1 ==> mask[r] && ents[r].k == key
    ensures r != -1 ==> forall j :: 0 <= j < r && mask[j] ==> ents[j].k != key
  {
    var m := mask;
    // lo bounds the bits cleared so far
    ghost var lo: nat := 0;
    while exists i :: 0 <= i < SLOTS && m[i]
      invariant |m| == SLOTS && lo <= SLOTS
      invariant forall i :: 0 <= i < SLOTS && m[i] ==> mask[i] && lo <= i
      invariant forall i :: 0 <= i < SLOTS && mask[i] && !m[i] ==> ents[i].k != key && i < lo
      decreases SLOTS - lo
    {
      var jj := LowestSet(m);
      if ents[jj].k == key {
        return jj;
      }
      m := m[jj := false];
      lo := jj + 1;
    }
    return -1;
  }

  /** The lowest live slot at or above i whose fingerprint is h and whose
      key is key, or -1: what the fingerprint scan of a leaf answers. */
  function FirstCandidate(bm: seq<bool>, fg: seq<bv8>, ents: seq<Entry>, h: bv8, key: int64, i: nat): (r: int)
    requires |bm| == |fg| == |ents| == SLOTS && i <= SLOTS
    ensures r == -1 || (i <= r < SLOTS && bm[r] && fg[r] == h && ents[r].k == key)
    ensures r == -1 <==> forall j :: i <= j < SLOTS && bm[j] && fg[j] == h ==> ents[j].k != key
    ensures r != -1 ==> forall j :: i <= j < r && bm[j] && fg[j] == h ==> ents[j].k != key
    decreases SLOTS - i
  {
    if i == SLOTS then -1
    else if bm[i] && fg[i] == h && ents[i].k == key then i
    else FirstCandidate(bm, fg, ents, h, key, i + 1)
  }

  /** `search_from_lnode(key_hash, ln, key)`: the lowest live slot whose
      fingerprint is key_hash and whose key is key, or -1 when there is none. */
  method SearchFromLNode(keyHash: bv8, ln: LNode, key: int64) returns (r: int)
    requires ln.Valid()
    ensures r == FirstCandidate(ln.meta.bitmap, ln.meta.fgpt, ln.ent[..], keyHash, key, 0)
  {
    var m := ln.meta;
    var cmp := MatchMask(m.fgpt, keyHash);
    var mask := And(cmp, m.bitmap);
    r := FirstMatch(mask, ln.ent[..], key);
  }

  /** With fingerprints that match their keys, the scan for the key's own
      hash finds exactly the live slot of the key, the one Lookup reads. */
  lemma CandidateIsLookupSlot(bm: seq<bool>, fg: seq<bv8>, ents: seq<Entry>, fp: int64 -> bv8, key: int64)
    requires LeafOk(bm, fg, ents, fp)
    ensures FirstCandidate(bm, fg, ents, fp(key), key, 0) == FindFrom(bm, ents, key, 0)
  {
    var f := FindFrom(bm, ents, key, 0);
    FindFromSpec(bm, ents, key, 0);
    if f != -1 {
      assert fg[f] == fp(key);
    }
  }
}
