// The leaves of the FPTree baseline (fptree.cpp): NODE_MAX unsorted slots
// of key and value, a one-byte fingerprint per slot and a 64-bit bitmap of
// the live slots.  The first half of the module states a leaf's contents as
// values (`Image`) and what lookups, insertions, removals and splits do to
// them; the class `FLeaf` below then works on arrays, as fptree.cpp does,
// and is proved to compute those values.  NODE_MAX and NODE_PIVOT come from
// fptree.h, which is not part of this model: they are the leaf's `max` and
// `pivot`, and a leaf image has `max` slots.

module FpLeaf {
  import opened FpNode
  import opened FpVersion

  datatype Option<T> = None | Some(value: T)

  /** One entry of `slot_kv`. */
  datatype KV = KV(key: uint64, val: uint64)

  /** A leaf's contents: `slot_kv`, `fingerprints`, `bitmap` and `nkeys`. */
  datatype Image = Image(kv: seq<KV>, fp: seq<uint8>, bm: seq<bool>, n: nat)

  /** At most 64 slots, one fingerprint per slot and a 64-bit bitmap. */
  ghost predicate Shaped(im: Image)
  {
    |im.kv| <= WORD && |im.fp| == |im.kv| && |im.bm| == WORD
  }

  // ---------------------------------------------------------- counting

  /** The number of bits set among the first m of B. */
  function Count(B: seq<bool>, m: nat): (r: nat)
    requires m <= |B|
    ensures r <= m
  {
    if m == 0 then 0 else Count(B, m - 1) + (if B[m - 1] then 1 else 0)
  }

  /** Setting or clearing one bit changes the count by at most that bit. */
  lemma {:induction false} CountUpdate(B: seq<bool>, m: nat, j: nat, b: bool)
    requires m <= |B| && j < |B|
    ensures Count(B[j := b], m) == Count(B, m) - (if j < m && B[j] then 1 else 0) + (if j < m && b then 1 else 0)
  {
    if m > 0 {
      CountUpdate(B, m - 1, j, b);
    }
  }

  /** Bits that agree below m count the same. */
  lemma {:induction false} CountSame(A: seq<bool>, B: seq<bool>, m: nat)
    requires m <= |A| && m <= |B| && forall j :: 0 <= j < m ==> A[j] == B[j]
    ensures Count(A, m) == Count(B, m)
  {
    if m > 0 {
      CountSame(A, B, m - 1);
    }
  }

  /** The count is m exactly when all m bits are set. */
  lemma {:induction false} CountFull(B: seq<bool>, m: nat)
    requires m <= |B|
    ensures Count(B, m) == m <==> forall j :: 0 <= j < m ==> B[j]
  {
    if m > 0 {
      CountFull(B, m - 1);
    }
  }

  /** The count is 0 exactly when no bit is set. */
  lemma {:induction false} CountNone(B: seq<bool>, m: nat)
    requires m <= |B|
    ensures Count(B, m) == 0 <==> forall j :: 0 <= j < m ==> !B[j]
  {
    if m > 0 {
      CountNone(B, m - 1);
    }
  }

  /** `~bitmap` sets the bits that were clear. */
  lemma {:induction false} CountComplement(B: seq<bool>, m: nat)
    requires m <= |B|
    ensures Count(Complement(B), m) == m - Count(B, m)
  {
    if m > 0 {
      CountComplement(B, m - 1);
    }
  }

  // ------------------------------------------------------------ search

  /** Slot j is live, carries the fingerprint of key and holds key: the
      test of `leaf_find_lv`. */
  predicate Match(im: Image, key: uint64, j: nat)
  {
    j < |im.kv| && j < |im.fp| && j < |im.bm| && CheckBitmap(im.bm, j) && CheckHashFp(im.fp[j], key) && im.kv[j].key == key
  }

  /** The first matching slot from i on, or the slot count when there is
      none. */
  function Find(im: Image, key: uint64, i: nat): (r: nat)
    requires i <= |im.kv|
    ensures i <= r <= |im.kv| && (r < |im.kv| ==> Match(im, key, r))
    ensures forall j :: i <= j < r ==> !Match(im, key, j)
    decreases |im.kv| - i
  {
    if i == |im.kv| || Match(im, key, i) then i else Find(im, key, i + 1)
  }

  /** The first clear bit among bits i to m - 1, or m when they are all set. */
  function FirstZero(B: seq<bool>, m: nat, i: nat): (r: nat)
    requires i <= m <= |B|
    ensures i <= r <= m && (r < m ==> !B[r]) && forall j :: i <= j < r ==> B[j]
    decreases m - i
  {
    if i == m || !B[i] then i else FirstZero(B, m, i + 1)
  }

  /** Fewer live slots than slots leaves a clear bit below m. */
  lemma FirstZeroFree(B: seq<bool>, m: nat)
    requires m <= |B| && Count(B, m) < m
    ensures FirstZero(B, m, 0) < m
  {
    CountFull(B, m);
  }

  /** What `validate_leaf` and the operations rely on: `nkeys` counts the
      live slots, a live slot carries its key's fingerprint and no key is
      live twice. */
  ghost predicate Consistent(im: Image)
  {
    Shaped(im) && Count(im.bm, |im.kv|) == im.n &&
    (forall j :: 0 <= j < |im.kv| && im.bm[j] ==> im.fp[j] == HashFp(im.kv[j].key)) &&
    (forall i, j :: 0 <= i < j < |im.kv| && im.bm[i] && im.bm[j] ==> im.kv[i].key != im.kv[j].key)
  }

  /** The value a lookup finds for key. */
  function Get(im: Image, key: uint64): Option<uint64>
  {
    var i := Find(im, key, 0);
    if i < |im.kv| then Some(im.kv[i].val) else None
  }

  /** In a consistent leaf the fingerprint filter loses nothing: a key is
      found exactly when a live slot holds it, and then it is found in that
      slot. */
  lemma GetIs(im: Image, key: uint64, j: nat)
    requires Consistent(im) && j < |im.kv| && im.bm[j] && im.kv[j].key == key
    ensures Find(im, key, 0) == j && Get(im, key) == Some(im.kv[j].val)
  {
    HashFpSound(key, key);
    assert Match(im, key, j);
  }

  /** A key no live slot holds is not found. */
  lemma GetNone(im: Image, key: uint64)
    requires Consistent(im) && forall j :: 0 <= j < |im.kv| && im.bm[j] ==> im.kv[j].key != key
    ensures Find(im, key, 0) == |im.kv| && Get(im, key) == None
  {
  }

  // ------------------------------------------------------------ insert

  /** `leaf_insert_key`: a full leaf is left as it is; a key that is found
      has its value replaced when `update` is set; any other key goes to the
      first clear slot with its fingerprint, its bit set and `nkeys` one
      higher. */
  function InsertKey(im: Image, key: uint64, val: uint64, update: bool): Image
    requires Consistent(im)
  {
    var m := |im.kv|;
    if im.n == m then im
    else
      var i := Find(im, key, 0);
      if i < m then
        (if update then im.(kv := im.kv[i := im.kv[i].(val := val)]) else im)
      else
        FirstZeroFree(im.bm, m);
        var s := FirstZero(im.bm, m, 0);
        Image(im.kv[s := KV(key, val)], im.fp[s := HashFp(key)], SetBitmap(im.bm, s), im.n + 1)
  }

  /** Insertion keeps a leaf consistent. */
  lemma InsertConsistent(im: Image, key: uint64, val: uint64, update: bool)
    requires Consistent(im)
    ensures Consistent(InsertKey(im, key, val, update))
  {
    var m := |im.kv|;
    if im.n < m && Find(im, key, 0) == m {
      var s := FirstZero(im.bm, m, 0);
      FirstZeroFree(im.bm, m);
      CountUpdate(im.bm, m, s, true);
      assert SetBitmap(im.bm, s) == im.bm[s := true];
      forall j | 0 <= j < m && im.bm[j]
        ensures im.kv[j].key != key
      {
        HashFpSound(im.kv[j].key, key);
        assert !Match(im, key, j);
      }
    }
  }

  /** After an insertion into a leaf that is not full, the key is found
      with the new value, unless it was there already and `update` is off;
      every other key is found with the value it had. */
  lemma InsertGet(im: Image, key: uint64, val: uint64, update: bool, k: uint64)
    requires Consistent(im) && im.n < |im.kv|
    ensures Get(InsertKey(im, key, val, update), k) ==
      if k != key then Get(im, k)
      else if Get(im, key).Some? && !update then Get(im, key)
      else Some(val)
  {
    var m := |im.kv|;
    var r := InsertKey(im, key, val, update);
    InsertConsistent(im, key, val, update);
    var i := Find(im, key, 0);
    if i < m {
      GetIs(im, key, i);
      GetIs(r, key, i);
      if k != key {
        KeepsOthers(im, r, k);
      }
    } else {
      var s := FirstZero(im.bm, m, 0);
      FirstZeroFree(im.bm, m);
      GetIs(r, key, s);
      if k != key {
        KeepsOthers(im, r, k);
      }
    }
  }

  /** Two consistent leaves whose live slots holding keys other than the
      one written agree slot by slot give every such key the same value. */
  lemma KeepsOthers(im: Image, r: Image, k: uint64)
    requires Consistent(im) && Consistent(r) && |r.kv| == |im.kv|
    requires forall j :: 0 <= j < |im.kv| && ((im.bm[j] && im.kv[j].key == k) || (r.bm[j] && r.kv[j].key == k)) ==>
      im.bm[j] == r.bm[j] && im.kv[j] == r.kv[j]
    ensures Get(r, k) == Get(im, k)
  {
    if exists j :: 0 <= j < |im.kv| && im.bm[j] && im.kv[j].key == k {
      var j :| 0 <= j < |im.kv| && im.bm[j] && im.kv[j].key == k;
      GetIs(im, k, j);
      GetIs(r, k, j);
    } else {
      GetNone(im, k);
      GetNone(r, k);
    }
  }

  // ------------------------------------------------------------ remove

  /** `leaf_remove_key`: the bit of the slot the key is found in is
      cleared, that of slot 0 when it is not found, and `nkeys` is one
      lower. */
  function RemoveKey(im: Image, key: uint64): Image
    requires Shaped(im) && im.n > 0
  {
    var i := Find(im, key, 0);
    var slot := if i < |im.kv| then i else 0;
    im.(bm := ResetBitmap(im.bm, slot), n := im.n - 1)
  }

  /** Removing a key that is there (`fptree_del` removes only a key it has
      found) keeps the leaf consistent. */
  lemma RemoveConsistent(im: Image, key: uint64)
    requires Consistent(im) && im.n > 0 && Get(im, key).Some?
    ensures Consistent(RemoveKey(im, key))
  {
    var i := Find(im, key, 0);
    CountUpdate(im.bm, |im.kv|, i, false);
    assert ResetBitmap(im.bm, i) == im.bm[i := false];
  }

  /** After the removal the key is gone and every other key keeps its
      value. */
  lemma RemoveGet(im: Image, key: uint64, k: uint64)
    requires Consistent(im) && im.n > 0 && Get(im, key).Some?
    ensures Get(RemoveKey(im, key), k) == if k == key then None else Get(im, k)
  {
    var r := RemoveKey(im, key);
    RemoveConsistent(im, key);
    var i := Find(im, key, 0);
    assert r.bm == im.bm[i := false];
    if k == key {
      forall j | 0 <= j < |r.kv| && r.bm[j]
        ensures r.kv[j].key != key
      {
        assert j != i && im.bm[j];
      }
      GetNone(r, key);
    } else {
      KeepsOthers(im, r, k);
    }
  }

  /** `leaf_remove_key` reports an empty leaf exactly when no key is left
      to find. */
  lemma RemoveEmpty(im: Image, key: uint64)
    requires Consistent(im) && im.n > 0 && Get(im, key).Some?
    ensures RemoveKey(im, key).n == 0 <==> forall k :: Get(RemoveKey(im, key), k) == None
  {
    var r := RemoveKey(im, key);
    RemoveConsistent(im, key);
    CountNone(r.bm, |r.kv|);
    if r.n == 0 {
      forall k
        ensures Get(r, k) == None
      {
        GetNone(r, k);
      }
    } else {
      var j :| 0 <= j < |r.kv| && r.bm[j];
      GetIs(r, r.kv[j].key, j);
    }
  }

  // ------------------------------------------------------------- split

  /** The slots holding keys from nkey up. */
  function Above(im: Image, nkey: uint64): seq<bool>
    requires Shaped(im)
  {
    seq(WORD, j requires 0 <= j < WORD => j < |im.kv| && im.kv[j].key >= nkey)
  }

  /** The new leaf of `split_leaf_node` after the moves: the entries and
      fingerprints of the slots holding keys from nkey up, in the same
      slots, their bits set, and c keys; every other slot zero. */
  function RightHalf(im: Image, nkey: uint64, c: nat): Image
    requires Shaped(im)
  {
    var m := |im.kv|;
    Image(seq(m, j requires 0 <= j < m => if im.kv[j].key >= nkey then im.kv[j] else KV(0, 0)),
          seq(m, j requires 0 <= j < m => if im.kv[j].key >= nkey then im.fp[j] else 0),
          Above(im, nkey), c)
  }

  /** The old leaf after the moves: its slots as they were, the complement
      of the new leaf's bitmap, and s keys. */
  function LeftHalf(im: Image, nkey: uint64, s: nat): Image
    requires Shaped(im)
  {
    im.(bm := Complement(Above(im, nkey)), n := s)
  }

  /** Cutting a full leaf at a key with c keys from it up leaves two
      consistent leaves. */
  lemma HalvesConsistent(im: Image, nkey: uint64, c: nat)
    requires Consistent(im) && im.n == |im.kv| && Count(Above(im, nkey), |im.kv|) == c
    ensures Consistent(RightHalf(im, nkey, c)) && Consistent(LeftHalf(im, nkey, |im.kv| - c))
  {
    var m := |im.kv|;
    CountFull(im.bm, m);
    CountComplement(Above(im, nkey), m);
  }

  /** Every key of the full leaf from nkey up is in the new leaf, with its
      value, and no other key is. */
  lemma RightGet(im: Image, nkey: uint64, c: nat, k: uint64)
    requires Consistent(im) && im.n == |im.kv| && Count(Above(im, nkey), |im.kv|) == c
    ensures Get(RightHalf(im, nkey, c), k) == if k >= nkey then Get(im, k) else None
  {
    var m := |im.kv|;
    var R := RightHalf(im, nkey, c);
    HalvesConsistent(im, nkey, c);
    if k >= nkey && exists j :: 0 <= j < m && im.bm[j] && im.kv[j].key == k {
      var j :| 0 <= j < m && im.bm[j] && im.kv[j].key == k;
      GetIs(im, k, j);
      GetIs(R, k, j);
    } else {
      CountFull(im.bm, m);
      forall j | 0 <= j < m && R.bm[j]
        ensures R.kv[j].key != k
      {
        assert im.kv[j].key >= nkey && R.kv[j] == im.kv[j] && im.bm[j];
      }
      GetNone(R, k);
      if k >= nkey {
        GetNone(im, k);
      }
    }
  }

  /** Every key of the full leaf below nkey stays in the old leaf, with its
      value, and no other key does. */
  lemma LeftGet(im: Image, nkey: uint64, c: nat, k: uint64)
    requires Consistent(im) && im.n == |im.kv| && Count(Above(im, nkey), |im.kv|) == c
    ensures Get(LeftHalf(im, nkey, |im.kv| - c), k) == if k < nkey then Get(im, k) else None
  {
    var m := |im.kv|;
    var L := LeftHalf(im, nkey, m - c);
    HalvesConsistent(im, nkey, c);
    if k < nkey && exists j :: 0 <= j < m && im.bm[j] && im.kv[j].key == k {
      var j :| 0 <= j < m && im.bm[j] && im.kv[j].key == k;
      GetIs(im, k, j);
      GetIs(L, k, j);
    } else {
      CountFull(im.bm, m);
      forall j | 0 <= j < m && L.bm[j]
        ensures L.kv[j].key != k
      {
        assert im.kv[j].key < nkey && im.bm[j];
      }
      GetNone(L, k);
      if k < nkey {
        GetNone(im, k);
      }
    }
  }

  /** Some slot below `bound` is live and holds a key no greater than key:
      what `key_geq` computes, a key being at least the least live key
      exactly when some live key is no greater than it. */
  ghost predicate GeqWithin(im: Image, bound: nat, key: uint64)
  {
    exists j :: 0 <= j < bound && j < |im.kv| && j < |im.bm| && im.bm[j] && im.kv[j].key <= key
  }

  /** Scanning every slot of the new leaf, `key_geq` sends a key to the new
      leaf exactly when it is at least nkey, the key the parent will hold
      between the two leaves. */
  lemma RightGeq(im: Image, nkey: uint64, c: nat, key: uint64, j0: nat)
    requires Consistent(im) && im.n == |im.kv| && Count(Above(im, nkey), |im.kv|) == c
    requires j0 < |im.kv| && im.kv[j0].key == nkey
    ensures var R := RightHalf(im, nkey, c); (R.n != 0 && GeqWithin(R, |im.kv|, key)) <==> nkey <= key
  {
    var R := RightHalf(im, nkey, c);
    CountNone(Above(im, nkey), |im.kv|);
    if nkey <= key {
      assert R.bm[j0] && R.kv[j0].key <= key;
    }
  }

  /** The leaves `split_leaf_node` leaves behind: the old one keeps the
      keys below nkey, the new one takes those from nkey up, and the key is
      inserted into the new leaf when it is at least nkey and into the old
      one otherwise. */
  function Parted(im: Image, nkey: uint64, c: nat, key: uint64, val: uint64, update: bool): (Image, Image)
    requires Consistent(im) && im.n == |im.kv| && Count(Above(im, nkey), |im.kv|) == c
  {
    HalvesConsistent(im, nkey, c);
    var L, R := LeftHalf(im, nkey, |im.kv| - c), RightHalf(im, nkey, c);
    if nkey <= key then (L, InsertKey(R, key, val, update)) else (InsertKey(L, key, val, update), R)
  }

  /** Parted when the key goes to the new leaf. */
  lemma PartedRight(im: Image, nkey: uint64, c: nat, key: uint64, val: uint64, update: bool)
    requires Consistent(im) && im.n == |im.kv| && Count(Above(im, nkey), |im.kv|) == c && nkey <= key
    ensures Consistent(RightHalf(im, nkey, c))
    ensures Parted(im, nkey, c, key, val, update) ==
      (LeftHalf(im, nkey, |im.kv| - c), InsertKey(RightHalf(im, nkey, c), key, val, update))
  {
    HalvesConsistent(im, nkey, c);
  }

  /** Parted when the key stays in the old leaf. */
  lemma PartedLeft(im: Image, nkey: uint64, c: nat, key: uint64, val: uint64, update: bool)
    requires Consistent(im) && im.n == |im.kv| && Count(Above(im, nkey), |im.kv|) == c && key < nkey
    ensures Consistent(LeftHalf(im, nkey, |im.kv| - c))
    ensures Parted(im, nkey, c, key, val, update) ==
      (InsertKey(LeftHalf(im, nkey, |im.kv| - c), key, val, update), RightHalf(im, nkey, c))
  {
    HalvesConsistent(im, nkey, c);
  }

  /** A split loses no key: looking a key up in the leaf its side of nkey
      names finds what inserting into the full leaf would have left, and
      the other leaf does not hold it. */
  lemma SplitGet(im: Image, nkey: uint64, c: nat, key: uint64, val: uint64, update: bool, k: uint64)
    requires Consistent(im) && im.n == |im.kv| && Count(Above(im, nkey), |im.kv|) == c && 0 < c < |im.kv|
    ensures var parts := Parted(im, nkey, c, key, val, update); var L, R := parts.0, parts.1;
      var want := if k != key then Get(im, k) else if Get(im, key).Some? && !update then Get(im, key) else Some(val);
      (if k < nkey then Get(L, k) else Get(R, k)) == want &&
      (if k < nkey then Get(R, k) else Get(L, k)) == None
  {
    if nkey <= key {
      SplitGetRight(im, nkey, c, key, val, update, k);
    } else {
      SplitGetLeft(im, nkey, c, key, val, update, k);
    }
  }

  /** SplitGet when the key goes to the new leaf. */
  lemma SplitGetRight(im: Image, nkey: uint64, c: nat, key: uint64, val: uint64, update: bool, k: uint64)
    requires Consistent(im) && im.n == |im.kv| && Count(Above(im, nkey), |im.kv|) == c && 0 < c < |im.kv|
    requires nkey <= key
    ensures var parts := Parted(im, nkey, c, key, val, update); var L, R := parts.0, parts.1;
      var want := if k != key then Get(im, k) else if Get(im, key).Some? && !update then Get(im, key) else Some(val);
      (if k < nkey then Get(L, k) else Get(R, k)) == want &&
      (if k < nkey then Get(R, k) else Get(L, k)) == None
  {
    HalvesConsistent(im, nkey, c);
    RightGet(im, nkey, c, k);
    RightGet(im, nkey, c, key);
    LeftGet(im, nkey, c, k);
    InsertGet(RightHalf(im, nkey, c), key, val, update, k);
  }

  /** SplitGet when the key stays in the old leaf. */
  lemma SplitGetLeft(im: Image, nkey: uint64, c: nat, key: uint64, val: uint64, update: bool, k: uint64)
    requires Consistent(im) && im.n == |im.kv| && Count(Above(im, nkey), |im.kv|) == c && 0 < c < |im.kv|
    requires key < nkey
    ensures var parts := Parted(im, nkey, c, key, val, update); var L, R := parts.0, parts.1;
      var want := if k != key then Get(im, k) else if Get(im, key).Some? && !update then Get(im, key) else Some(val);
      (if k < nkey then Get(L, k) else Get(R, k)) == want &&
      (if k < nkey then Get(R, k) else Get(L, k)) == None
  {
    HalvesConsistent(im, nkey, c);
    LeftGet(im, nkey, c, k);
    LeftGet(im, nkey, c, key);
    RightGet(im, nkey, c, k);
    InsertGet(LeftHalf(im, nkey, |im.kv| - c), key, val, update, k);
  }

  /** `key_geq` as written scans only the first `nkeys` slots, but the new
      leaf of a split keeps its entries in the slots they had: splitting a
      full leaf of four slots holding 10, 20, 30 and 40 at pivot 1 leaves
      slots 2 and 3 live in the new leaf with nkey 30, and the scan of
      slots 0 and 1 sends 50 to the old leaf although the parent sends it
      to the new one. */
  lemma KeyGeqAsWrittenMisroutes()
    ensures var im := Image([KV(10, 0), KV(20, 0), KV(30, 0), KV(40, 0)],
                            [HashFp(10), HashFp(20), HashFp(30), HashFp(40)],
                            seq(WORD, j => j < 4), 4);
      var R := RightHalf(im, 30, 2);
      Consistent(im) && Count(Above(im, 30), 4) == 2 &&
      !(R.n != 0 && GeqWithin(R, R.n, 50)) && (R.n != 0 && GeqWithin(R, 4, 50))
  {
    var im := Image([KV(10, 0), KV(20, 0), KV(30, 0), KV(40, 0)],
                    [HashFp(10), HashFp(20), HashFp(30), HashFp(40)],
                    seq(WORD, j => j < 4), 4);
    var R := RightHalf(im, 30, 2);
    assert Count(im.bm, 1) == 1 && Count(im.bm, 2) == 2 && Count(im.bm, 3) == 3;
    var A := Above(im, 30);
    assert Count(A, 1) == 0 && Count(A, 2) == 0 && Count(A, 3) == 1;
    assert R.bm[2] && R.kv[2].key <= 50;
  }

  // ------------------------------------------------------ the moves

  /** The entries of s whose flag is set, and z in the other slots. */
  function Keep<T>(s: seq<T>, F: seq<bool>, z: T): (r: seq<T>)
    requires |F| == |s|
    ensures |r| == |s| && forall j :: 0 <= j < |s| ==> r[j] == if F[j] then s[j] else z
  {
    seq(|s|, j requires 0 <= j < |s| => if F[j] then s[j] else z)
  }

  /** Flagging one more slot keeps one more entry. */
  lemma KeepStep<T>(s: seq<T>, F: seq<bool>, z: T, k: nat)
    requires |F| == |s| && k < |s|
    ensures Keep(s, F[k := true], z) == Keep(s, F, z)[k := s[k]]
  {
  }

  /** No key appears twice among the first entries K. */
  ghost predicate Distinct(K: seq<KV>)
  {
    forall i, j :: 0 <= i < j < |K| ==> K[i].key != K[j].key
  }

  /** Exactly the slots holding a key from t up are flagged. */
  ghost predicate Picked(K: seq<KV>, F: seq<bool>, t: uint64)
  {
    |F| == |K| && forall j :: 0 <= j < |K| ==> (F[j] <==> K[j].key >= t)
  }

  /** A full consistent leaf holds distinct keys. */
  lemma FullDistinct(im: Image)
    requires Consistent(im) && im.n == |im.kv|
    ensures Distinct(im.kv) && forall j :: 0 <= j < |im.kv| ==> im.bm[j]
  {
    CountFull(im.bm, |im.kv|);
  }

  /** One round of the outer loop of `split_leaf_node`: flagging the
      largest unflagged key s moves the threshold down to that key. */
  lemma PickStep(K: seq<KV>, F: seq<bool>, t: uint64, s: nat)
    requires |F| == |K| && s < |K| && !F[s] && Distinct(K)
    requires (forall j :: 0 <= j < |K| ==> !F[j]) || Picked(K, F, t)
    requires forall j :: 0 <= j < |K| && !F[j] ==> K[j].key <= K[s].key
    ensures Picked(K, F[s := true], K[s].key)
  {
    forall j | 0 <= j < |K|
      ensures F[s := true][j] <==> K[j].key >= K[s].key
    {
      if j != s && !F[j] {
        assert K[j].key != K[s].key by {
          if j < s {} else {}
        }
      }
    }
  }

  /** After the moves the flags are `Above`, and a leaf holding the
      flagged entries, their fingerprints and a bitmap of the flags is,
      but for its count, `RightHalf`. */
  lemma PickedHalf(im: Image, F: seq<bool>, nkey: uint64, c: nat, nim: Image)
    requires Shaped(im) && Picked(im.kv, F, nkey) && Count(F, |im.kv|) == c
    requires nim == Image(Keep(im.kv, F, KV(0, 0)), Keep(im.fp, F, 0), F + seq(WORD - |F|, _ => false), 0)
    ensures Count(Above(im, nkey), |im.kv|) == c
    ensures nim == RightHalf(im, nkey, c).(n := 0)
  {
    var m := |im.kv|;
    CountSame(Above(im, nkey), F, m);
    var R := RightHalf(im, nkey, c);
    assert R.bm == F + seq(WORD - |F|, _ => false);
  }

  // ---------------------------------------------------------- the leaf

  class FLeaf {
    const max: nat
    const pivot: nat
    const slots: array<KV>
    const fingerprints: array<uint8>
    var bitmap: seq<bool>
    var nkeys: nat
    var version: bv32
    var next: FLeaf?
    var prev: FLeaf?
    var parent: nat

    ghost predicate Valid()
      reads this`bitmap
    {
      pivot + 1 < max <= WORD && slots.Length == max && fingerprints.Length == max && |bitmap| == WORD
    }

    /** The leaf's contents as a value. */
    ghost function Snapshot(): Image
      reads this`bitmap, this`nkeys, slots, fingerprints
    {
      Image(slots[..], fingerprints[..], bitmap, nkeys)
    }

    /** `leaf_create`: a zeroed leaf, marked as a leaf. */
    constructor (max: nat, pivot: nat)
      requires pivot + 1 < max <= WORD
      ensures Valid() && fresh(slots) && fresh(fingerprints) && this.max == max && this.pivot == pivot
      ensures slots[..] == seq(max, _ => KV(0, 0)) && fingerprints[..] == seq(max, _ => 0)
      ensures bitmap == seq(WORD, _ => false) && nkeys == 0
      ensures version == NODE_ISBORDER && next == null && prev == null && parent == 0
    {
      this.max, this.pivot := max, pivot;
      slots := new KV[max](_ => KV(0, 0));
      fingerprints := new uint8[max](_ => 0);
      bitmap := seq(WORD, _ => false);
      nkeys, version, next, prev, parent := 0, NODE_ISBORDER, null, null, 0;
    }

    /** `leaf_find_lv`: the first live slot whose fingerprint and key
        match, with found set, or slot 0 with found clear. */
    method FindLv(key: uint64) returns (i: nat, found: bool)
      requires Valid()
      ensures found == (Find(Snapshot(), key, 0) < max)
      ensures i == if found then Find(Snapshot(), key, 0) else 0
    {
      i := 0;
      while i < max
        invariant i <= max && Find(Snapshot(), key, i) == Find(Snapshot(), key, 0)
      {
        if CheckBitmap(bitmap, i) && CheckHashFp(fingerprints[i], key) && key == slots[i].key {
          return i, true;
        }
        i := i + 1;
      }
      return 0, false;
    }

    /** `find_first_zero`: the lowest clear bit below NODE_MAX, or NODE_MAX. */
    method FindFirstZero() returns (i: nat)
      requires Valid()
      ensures i == FirstZero(bitmap, max, 0)
    {
      i := 0;
      while i < max
        invariant i <= max && FirstZero(bitmap, max, i) == FirstZero(bitmap, max, 0)
      {
        if !CheckBitmap(bitmap, i) {
          return i;
        }
        i := i + 1;
      }
    }

    /** The scan of `key_geq` over the first `bound` slots: the least key
        among the live ones is found, and the answer is whether the leaf
        has keys and key is at least that one. */
    method ScanGeq(bound: nat, key: uint64) returns (r: bool)
      requires Valid() && bound <= max
      ensures r <==> nkeys != 0 && GeqWithin(Snapshot(), bound, key)
    {
      var slot: int := -1;
      var i := 0;
      while i < bound
        invariant i <= bound && -1 <= slot < i
        invariant slot == -1 ==> forall j :: 0 <= j < i ==> !bitmap[j]
        invariant slot >= 0 ==> bitmap[slot] && forall j :: 0 <= j < i && bitmap[j] ==> slots[slot].key <= slots[j].key
      {
        if CheckBitmap(bitmap, i) && (slot == -1 || slots[i].key < slots[slot].key) {
          slot := i;
        }
        i := i + 1;
      }
      if slot == -1 {
        return false;
      }
      r := nkeys != 0 && key >= slots[slot].key;
    }

    /** `key_geq` as fptree.cpp writes it: the scan stops at `nkeys`. */
    method KeyGeqAsWritten(key: uint64) returns (r: bool)
      requires Valid() && nkeys <= max
      ensures r <==> nkeys != 0 && GeqWithin(Snapshot(), nkeys, key)
    {
      r := ScanGeq(nkeys, key);
    }

    /** `key_geq` scanning every slot, as the split needs. */
    method KeyGeq(key: uint64) returns (r: bool)
      requires Valid()
      ensures r <==> nkeys != 0 && GeqWithin(Snapshot(), max, key)
    {
      r := ScanGeq(max, key);
    }

    /** `leaf_insert_key` into a locked leaf. */
    method Insert(key: uint64, val: uint64, update: bool) returns (ok: bool)
      requires Valid() && Consistent(Snapshot()) && version & NODE_LOCKED != 0
      modifies this`version, this`bitmap, this`nkeys, slots, fingerprints
      ensures Valid() && ok == (old(nkeys) < max)
      ensures Snapshot() == InsertKey(old(Snapshot()), key, val, update)
      ensures version == if ok then old(version) | NODE_INSERTING else old(version)
    {
      var n := nkeys;
      if n == max {
        return false;
      }
      version := version | NODE_INSERTING;
      var i, found := FindLv(key);
      if found {
        if update {
          slots[i] := slots[i].(val := val);
        }
        return true;
      }
      var slot := FindFirstZero();
      FirstZeroFree(bitmap, max);
      slots[slot] := KV(key, val);
      fingerprints[slot] := HashFp(key);
      bitmap := SetBitmap(bitmap, slot);
      nkeys := n + 1;
      ok := true;
    }

    /** `leaf_remove_key` from a locked leaf that has keys: the answer is
        whether it is left empty. */
    method Remove(key: uint64) returns (empty: bool)
      requires Valid() && nkeys > 0 && version & NODE_LOCKED != 0
      modifies this`version, this`bitmap, this`nkeys
      ensures Valid() && Snapshot() == RemoveKey(old(Snapshot()), key)
      ensures empty == (old(nkeys) == 1)
      ensures version == old(version) | NODE_INSERTING
    {
      empty := Erase(key);
    }

    /** The steps of the removal, which the lock only guards: find the
        key, mark the leaf, clear the slot. */
    method Erase(key: uint64) returns (empty: bool)
      requires Valid() && nkeys > 0
      modifies this`version, this`bitmap, this`nkeys
      ensures Valid() && Snapshot() == RemoveKey(old(Snapshot()), key)
      ensures empty == (old(nkeys) == 1)
      ensures version == old(version) | NODE_INSERTING
    {
      var n := nkeys;
      var slot, found := FindLv(key);
      Mark(NODE_INSERTING);
      Drop(slot);
      empty := n - 1 == 0;
    }

    /** The removal proper: the slot's bit is cleared and `nkeys` is one
        lower. */
    method Drop(slot: nat)
      requires Valid() && slot < max && nkeys > 0
      modifies this`bitmap, this`nkeys
      ensures Valid() && Snapshot() == old(Snapshot()).(bm := ResetBitmap(old(bitmap), slot), n := old(nkeys) - 1)
    {
      bitmap := ResetBitmap(bitmap, slot);
      nkeys := nkeys - 1;
    }

    /** `node->version |= flag`. */
    method Mark(flag: bv32)
      modifies this`version
      ensures version == old(version) | flag
    {
      version := version | flag;
    }

    /** `split_leaf_node` on a full locked leaf, up to the ascent: the
        moves, the choice of side by `key_geq` over every slot of the new
        leaf, the insertion on that side and the link from this leaf to
        the new one. */
    method Split(key: uint64, val: uint64, update: bool) returns (nleaf: FLeaf, nkey: uint64, toright: bool)
      requires Valid() && Consistent(Snapshot()) && nkeys == max && next != this && version & NODE_LOCKED != 0
      modifies this`version, this`bitmap, this`nkeys, this`next, slots, fingerprints, if next == null then {} else {next}
      ensures fresh(nleaf) && Valid() && nleaf.Valid() && nleaf.max == max && nleaf.pivot == pivot
      ensures Count(Above(old(Snapshot()), nkey), max) == max - pivot - 1
      ensures toright == (nkey <= key)
      ensures (Snapshot(), nleaf.Snapshot()) == Parted(old(Snapshot()), nkey, max - pivot - 1, key, val, update)
      ensures SplitMarked(version, old(version), toright)
      ensures nleaf.version == if toright then NODE_ISBORDER | NODE_LOCKED | NODE_SPLITTING | NODE_INSERTING
                               else NODE_ISBORDER | NODE_LOCKED | NODE_SPLITTING
      ensures next == nleaf && nleaf.next == old(next) && nleaf.prev == this && nleaf.parent == parent
      ensures old(next) != null ==>
        (old(next).prev == nleaf &&
         unchanged(old(next)`bitmap, old(next)`nkeys, old(next)`version, old(next)`next, old(next)`parent))
    {
      ghost var im := Snapshot();
      nleaf, nkey := Divide();
      toright := Finish(nleaf, im, old(version), old(next), nkey, key, val, update);
    }

    /** The end of `split_leaf_node` after the moves: `key_geq` over every
        slot of the new leaf picks the side, the key is inserted there and
        this leaf's `next` becomes the new leaf. */
    method Finish(nleaf: FLeaf, ghost im: Image, ghost v0: bv32, ghost n0: FLeaf?, nkey: uint64,
                  key: uint64, val: uint64, update: bool) returns (toright: bool)
      requires Valid() && nleaf.Valid() && nleaf != this && nleaf.max == max && nleaf.pivot == pivot
      requires nleaf.slots != slots && nleaf.fingerprints != fingerprints
      requires Consistent(im) && im.n == |im.kv| == max && Count(Above(im, nkey), max) == max - pivot - 1
      requires exists j0 :: 0 <= j0 < max && slots[j0].key == nkey
      requires im.kv == slots[..]
      requires Snapshot() == LeftHalf(im, nkey, pivot + 1) && nleaf.Snapshot() == RightHalf(im, nkey, max - pivot - 1)
      requires v0 & NODE_LOCKED != 0 && version == v0 | NODE_SPLITTING
      requires nleaf.version == NODE_ISBORDER | NODE_LOCKED | NODE_SPLITTING
      requires nleaf.next == n0 && nleaf.prev == this && nleaf.parent == parent && n0 != this && n0 != nleaf
      requires n0 != null ==> n0.prev == nleaf
      modifies this`version, this`bitmap, this`nkeys, this`next, slots, fingerprints
      modifies nleaf`version, nleaf`bitmap, nleaf`nkeys, nleaf.slots, nleaf.fingerprints
      ensures Valid() && nleaf.Valid()
      ensures nleaf.next == n0 && nleaf.prev == this && nleaf.parent == parent
      ensures n0 != null ==> (n0.prev == nleaf && unchanged(n0`bitmap, n0`nkeys, n0`version, n0`next, n0`parent))
      ensures toright == (nkey <= key)
      ensures (Snapshot(), nleaf.Snapshot()) == Parted(im, nkey, max - pivot - 1, key, val, update)
      ensures SplitMarked(version, v0, toright)
      ensures nleaf.version == if toright then NODE_ISBORDER | NODE_LOCKED | NODE_SPLITTING | NODE_INSERTING
                               else NODE_ISBORDER | NODE_LOCKED | NODE_SPLITTING
      ensures next == nleaf
    {
      toright := ChooseSide(nleaf, im, nkey, key);
      InsertSide(nleaf, im, v0, nkey, toright, key, val, update);
      next := nleaf;
    }

    /** `bool toright = key_geq(nleaf, key)`, with the scan over every
        slot: the key goes right exactly when it is at least nkey. */
    method ChooseSide(nleaf: FLeaf, ghost im: Image, nkey: uint64, key: uint64) returns (toright: bool)
      requires nleaf.Valid() && nleaf.max == max
      requires Consistent(im) && im.n == |im.kv| == max && Count(Above(im, nkey), max) == max - pivot - 1
      requires exists j0 :: 0 <= j0 < max && im.kv[j0].key == nkey
      requires nleaf.Snapshot() == RightHalf(im, nkey, max - pivot - 1)
      ensures toright == (nkey <= key)
    {
      toright := nleaf.KeyGeq(key);
      ghost var j0 :| 0 <= j0 < max && im.kv[j0].key == nkey;
      RightGeq(im, nkey, max - pivot - 1, key, j0);
    }

    /** `leaf_insert_key(toright ? nnode : node, ...)`. */
    method InsertSide(nleaf: FLeaf, ghost im: Image, ghost v0: bv32, nkey: uint64, toright: bool, key: uint64, val: uint64, update: bool)
      requires Valid() && nleaf.Valid() && nleaf != this && nleaf.max == max && nleaf.pivot == pivot
      requires nleaf.slots != slots && nleaf.fingerprints != fingerprints
      requires Consistent(im) && im.n == |im.kv| == max && Count(Above(im, nkey), max) == max - pivot - 1
      requires toright == (nkey <= key)
      requires Snapshot() == LeftHalf(im, nkey, pivot + 1) && nleaf.Snapshot() == RightHalf(im, nkey, max - pivot - 1)
      requires v0 & NODE_LOCKED != 0 && version == v0 | NODE_SPLITTING
      requires nleaf.version == NODE_ISBORDER | NODE_LOCKED | NODE_SPLITTING
      modifies this`version, this`bitmap, this`nkeys, slots, fingerprints
      modifies nleaf`version, nleaf`bitmap, nleaf`nkeys, nleaf.slots, nleaf.fingerprints
      ensures (Snapshot(), nleaf.Snapshot()) == Parted(im, nkey, max - pivot - 1, key, val, update)
      ensures SplitMarked(version, v0, toright)
      ensures nleaf.version == if toright then NODE_ISBORDER | NODE_LOCKED | NODE_SPLITTING | NODE_INSERTING
                               else NODE_ISBORDER | NODE_LOCKED | NODE_SPLITTING
    {
      if toright {
        InsertRight(nleaf, im, nkey, key, val, update);
      } else {
        RaiseKeepsLock(v0, NODE_SPLITTING);
        InsertLeft(nleaf, im, nkey, key, val, update);
      }
    }

    /** The insertion of `split_leaf_node` when `key_geq` sends the key to
        the new leaf. */
    method InsertRight(nleaf: FLeaf, ghost im: Image, nkey: uint64, key: uint64, val: uint64, update: bool)
      requires Valid() && nleaf.Valid() && nleaf != this && nleaf.max == max && nleaf.pivot == pivot
      requires nleaf.slots != slots && nleaf.fingerprints != fingerprints
      requires Consistent(im) && im.n == |im.kv| == max && Count(Above(im, nkey), max) == max - pivot - 1 && nkey <= key
      requires Snapshot() == LeftHalf(im, nkey, pivot + 1) && nleaf.Snapshot() == RightHalf(im, nkey, max - pivot - 1)
      requires nleaf.version == NODE_ISBORDER | NODE_LOCKED | NODE_SPLITTING
      modifies nleaf`version, nleaf`bitmap, nleaf`nkeys, nleaf.slots, nleaf.fingerprints
      ensures (Snapshot(), nleaf.Snapshot()) == Parted(im, nkey, max - pivot - 1, key, val, update)
      ensures nleaf.version == NODE_ISBORDER | NODE_LOCKED | NODE_SPLITTING | NODE_INSERTING
    {
      PartedRight(im, nkey, max - pivot - 1, key, val, update);
      var ok := nleaf.Insert(key, val, update);
    }

    /** The insertion of `split_leaf_node` when `key_geq` leaves the key in
        the old leaf. */
    method InsertLeft(nleaf: FLeaf, ghost im: Image, nkey: uint64, key: uint64, val: uint64, update: bool)
      requires Valid() && nleaf.Valid() && nleaf != this && nleaf.max == max && nleaf.pivot == pivot
      requires nleaf.slots != slots && nleaf.fingerprints != fingerprints
      requires Consistent(im) && im.n == |im.kv| == max && Count(Above(im, nkey), max) == max - pivot - 1 && key < nkey
      requires Snapshot() == LeftHalf(im, nkey, pivot + 1) && nleaf.Snapshot() == RightHalf(im, nkey, max - pivot - 1)
      requires version & NODE_LOCKED != 0
      modifies this`version, this`bitmap, this`nkeys, slots, fingerprints
      ensures (Snapshot(), nleaf.Snapshot()) == Parted(im, nkey, max - pivot - 1, key, val, update)
      ensures version == old(version) | NODE_INSERTING
    {
      PartedLeft(im, nkey, max - pivot - 1, key, val, update);
      var ok := Insert(key, val, update);
    }

    /** The moves of `split_leaf_node`: a new leaf, locked and then marked
        as splitting, takes the c = NODE_MAX - NODE_PIVOT - 1 largest keys
        and is linked in after this one, whose bitmap, marked as splitting,
        becomes the complement of the new leaf's. */
    method Divide() returns (nleaf: FLeaf, nkey: uint64)
      requires Valid() && Consistent(Snapshot()) && nkeys == max && next != this
      modifies this`version, this`bitmap, this`nkeys, if next == null then {} else {next}
      ensures fresh(nleaf) && fresh(nleaf.slots) && fresh(nleaf.fingerprints)
      ensures Valid() && nleaf.Valid() && nleaf.max == max && nleaf.pivot == pivot
      ensures Count(Above(old(Snapshot()), nkey), max) == max - pivot - 1
      ensures exists j0 :: 0 <= j0 < max && slots[j0].key == nkey
      ensures Snapshot() == LeftHalf(old(Snapshot()), nkey, pivot + 1)
      ensures nleaf.Snapshot() == RightHalf(old(Snapshot()), nkey, max - pivot - 1)
      ensures version == old(version) | NODE_SPLITTING
      ensures nleaf.version == NODE_ISBORDER | NODE_LOCKED | NODE_SPLITTING
      ensures nleaf.next == old(next) && nleaf.prev == this && nleaf.parent == parent && next == old(next)
      ensures old(next) != null ==>
        (old(next).prev == nleaf &&
         unchanged(old(next)`bitmap, old(next)`nkeys, old(next)`version, old(next)`next, old(next)`parent))
    {
      nleaf, nkey := CreateRight();
      LinkRight(nleaf);
      KeepLeft(nleaf, nkey);
    }

    /** The new leaf of `split_leaf_node`: created, locked, filled with
        the c largest keys by the moves, given c keys and marked as
        splitting. */
    method CreateRight() returns (nleaf: FLeaf, nkey: uint64)
      requires Valid() && Consistent(Snapshot()) && nkeys == max
      ensures fresh(nleaf) && fresh(nleaf.slots) && fresh(nleaf.fingerprints)
      ensures nleaf.Valid() && nleaf.max == max && nleaf.pivot == pivot
      ensures Count(Above(Snapshot(), nkey), max) == max - pivot - 1
      ensures exists j0 :: 0 <= j0 < max && slots[j0].key == nkey
      ensures nleaf.Snapshot() == RightHalf(Snapshot(), nkey, max - pivot - 1)
      ensures nleaf.version == NODE_ISBORDER | NODE_LOCKED | NODE_SPLITTING
      ensures nleaf.next == null && nleaf.prev == null && nleaf.parent == 0
    {
      var c := max - (pivot + 1);
      nleaf := new FLeaf(max, pivot);
      nleaf.Mark(NODE_LOCKED);
      nkey := MoveUpper(nleaf, c);
      nleaf.nkeys := c;
      nleaf.Mark(NODE_SPLITTING);
    }

    /** The list pointers of `split_leaf_node`: the new leaf sits between
        this leaf and its successor and takes this leaf's parent; this
        leaf's own `next` is set only after the insertion. */
    method LinkRight(nleaf: FLeaf)
      requires nleaf != this && nleaf != next
      modifies nleaf`next, nleaf`prev, nleaf`parent, if next == null then {} else {next}
      ensures nleaf.next == next && nleaf.prev == this && nleaf.parent == parent
      ensures old(next) != null ==>
        (old(next).prev == nleaf &&
         unchanged(old(next)`bitmap, old(next)`nkeys, old(next)`version, old(next)`next, old(next)`parent))
    {
      nleaf.next := next;
      if next != null {
        next.prev := nleaf;
      }
      nleaf.prev := this;
      nleaf.parent := parent;
    }

    /** The old leaf of `split_leaf_node` after the moves: marked as
        splitting, s = NODE_PIVOT + 1 keys and the complement of the new
        leaf's bitmap. */
    method KeepLeft(nleaf: FLeaf, nkey: uint64)
      requires Valid() && nleaf.Valid() && nleaf != this && nleaf.bitmap == Above(Snapshot(), nkey)
      modifies this`version, this`bitmap, this`nkeys
      ensures Valid() && Snapshot() == LeftHalf(old(Snapshot()), nkey, pivot + 1)
      ensures version == old(version) | NODE_SPLITTING
    {
      Mark(NODE_SPLITTING);
      nkeys := pivot + 1;
      bitmap := Complement(nleaf.bitmap);
    }

    /** The inner loop of `split_leaf_node`: the live slot holding the
        largest key among those not yet flagged, or -1 when every live
        slot is flagged. */
    method PickLargest(flag: array<bool>) returns (slot: int)
      requires Valid() && flag.Length == max
      ensures -1 <= slot < max
      ensures slot == -1 <==> forall j :: 0 <= j < max ==> flag[j] || !bitmap[j]
      ensures slot >= 0 ==> (!flag[slot] && bitmap[slot] &&
        forall j :: 0 <= j < max && !flag[j] && bitmap[j] ==> slots[j].key <= slots[slot].key)
    {
      slot := -1;
      var j := 0;
      while j < max
        invariant j <= max && -1 <= slot < j
        invariant slot == -1 ==> forall t :: 0 <= t < j ==> flag[t] || !bitmap[t]
        invariant slot >= 0 ==> (!flag[slot] && bitmap[slot] &&
          forall t :: 0 <= t < j && !flag[t] && bitmap[t] ==> slots[t].key <= slots[slot].key)
      {
        if !flag[j] && CheckBitmap(bitmap, j) && (slot == -1 || slots[j].key > slots[slot].key) {
          slot := j;
        }
        j := j + 1;
      }
    }

    /** The outer loop of `split_leaf_node`: the c largest keys of this
        full leaf are copied, each into the same slot, to the empty new
        leaf, and nkey is the last of them, the least. */
    method MoveUpper(nleaf: FLeaf, c: nat) returns (nkey: uint64)
      requires Valid() && Consistent(Snapshot()) && nkeys == max && 0 < c < max
      requires nleaf.Valid() && nleaf.max == max && nleaf != this
      requires nleaf.slots != slots && nleaf.fingerprints != fingerprints
      requires nleaf.slots[..] == seq(max, _ => KV(0, 0)) && nleaf.fingerprints[..] == seq(max, _ => 0)
      requires nleaf.bitmap == seq(WORD, _ => false) && nleaf.nkeys == 0
      modifies nleaf.slots, nleaf.fingerprints, nleaf`bitmap
      ensures Count(Above(Snapshot(), nkey), max) == c
      ensures exists j0 :: 0 <= j0 < max && slots[j0].key == nkey
      ensures nleaf.Snapshot() == RightHalf(Snapshot(), nkey, c).(n := 0)
    {
      FullDistinct(Snapshot());
      var flag := new bool[max](_ => false);
      CountNone(flag[..], max);
      assert nleaf.slots[..] == Keep(slots[..], flag[..], KV(0, 0));
      assert nleaf.fingerprints[..] == Keep(fingerprints[..], flag[..], 0);
      ghost var last;
      nkey, last := MoveLoop(nleaf, flag, c);
      PickedHalf(Snapshot(), flag[..], nkey, c, nleaf.Snapshot());
      assert slots[last].key == nkey;
    }

    /** The outer loop itself, from no flag to c flags; nkey is the key
        picked in the last round. */
    method MoveLoop(nleaf: FLeaf, flag: array<bool>, c: nat) returns (nkey: uint64, ghost last: nat)
      requires Moving(nleaf, flag, 0, 0, 0) && 0 < c < max && nleaf != this
      requires nleaf.slots != slots && nleaf.fingerprints != fingerprints
      modifies nleaf.slots, nleaf.fingerprints, nleaf`bitmap, flag
      ensures Moving(nleaf, flag, c, nkey, last)
    {
      nkey := 0;
      ghost var t: uint64 := 0;
      last := 0;
      var i := 0;
      while i < c
        invariant i <= c && Moving(nleaf, flag, i, t, last)
        invariant i == c ==> nkey == t
      {
        var slot := PickNext(nleaf, flag, i, t, last);
        if i == c - 1 {
          nkey := slots[slot].key;
        }
        MoveOne(nleaf, flag, slot, i, t, last);
        t, last := slots[slot].key, slot;
        i := i + 1;
      }
    }

    /** The state of the outer loop after i rounds: the new leaf mirrors
        the flags, i slots are flagged, and they are exactly those holding
        a key from t, the last one picked, up. */
    ghost predicate Moving(nleaf: FLeaf, flag: array<bool>, i: nat, t: uint64, last: nat)
      reads this, nleaf, slots, fingerprints, nleaf.slots, nleaf.fingerprints, flag
    {
      Mirrors(nleaf, flag) && Distinct(slots[..]) && (forall j :: 0 <= j < max ==> bitmap[j]) &&
      Count(flag[..], max) == i &&
      (i == 0 ==> forall j :: 0 <= j < max ==> !flag[j]) &&
      (i > 0 ==> Picked(slots[..], flag[..], t) && last < max && slots[last].key == t)
    }

    /** The search of one round: while fewer than `max` slots are flagged,
        `PickLargest` finds a slot, and flagging it keeps the flags a
        threshold. */
    method PickNext(nleaf: FLeaf, flag: array<bool>, i: nat, ghost t: uint64, ghost last: nat) returns (slot: nat)
      requires Moving(nleaf, flag, i, t, last) && i < max
      ensures slot < max && !flag[slot]
      ensures Count(flag[..][slot := true], max) == i + 1
      ensures Picked(slots[..], flag[..][slot := true], slots[slot].key)
    {
      CountFull(flag[..], max);
      var s := PickLargest(flag);
      slot := s;
      PickStep(slots[..], flag[..], t, slot);
      CountUpdate(flag[..], max, slot, true);
    }

    /** The new leaf holds this leaf's flagged entries, in the same slots,
        and a bitmap of the flags. */
    ghost predicate Mirrors(nleaf: FLeaf, flag: array<bool>)
      reads this, nleaf, slots, fingerprints, nleaf.slots, nleaf.fingerprints, flag
    {
      Valid() && nleaf.Valid() && nleaf.max == max && flag.Length == max &&
      nleaf.slots[..] == Keep(slots[..], flag[..], KV(0, 0)) &&
      nleaf.fingerprints[..] == Keep(fingerprints[..], flag[..], 0) &&
      nleaf.bitmap == flag[..] + seq(WORD - max, _ => false)
    }

    /** The body of the outer loop after the search: the entry, its
        fingerprint and its bit are copied to the same slot of the new
        leaf, and the slot is flagged. */
    method MoveOne(nleaf: FLeaf, flag: array<bool>, slot: nat, i: nat, ghost t: uint64, ghost last: nat)
      requires Moving(nleaf, flag, i, t, last) && slot < max && nleaf != this
      requires nleaf.slots != slots && nleaf.fingerprints != fingerprints
      requires Count(flag[..][slot := true], max) == i + 1
      requires Picked(slots[..], flag[..][slot := true], slots[slot].key)
      modifies nleaf.slots, nleaf.fingerprints, nleaf`bitmap, flag
      ensures Moving(nleaf, flag, i + 1, slots[slot].key, slot)
    {
      KeepStep(slots[..], flag[..], KV(0, 0), slot);
      KeepStep(fingerprints[..], flag[..], 0, slot);
      ghost var F := flag[..];
      nleaf.slots[slot] := slots[slot];
      nleaf.fingerprints[slot] := fingerprints[slot];
      nleaf.bitmap := SetBitmap(nleaf.bitmap, slot);
      flag[slot] := true;
      assert flag[..] == F[slot := true];
      assert nleaf.bitmap == flag[..] + seq(WORD - max, _ => false);
    }

    /** `unlock_node`. */
    method Unlock()
      requires version & NODE_LOCKED != 0
      modifies this`version
      ensures version == Unlocked(old(version))
    {
      version := Unlocked(version);
    }
  }
}
