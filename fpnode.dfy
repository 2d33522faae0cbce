// The primitives of the FPTree baseline (fptree.cpp) shared by its leaves
// and interior nodes: the caller-to-internal key shift, the one-byte
// fingerprint and the 64-bit slot bitmap.  fptree.h, which fixes the key type, is not
// part of this model: keys are taken to be `uint64_t`.

module FpNode {
  newtype uint64 = x: int | 0 <= x < 0x1_0000_0000_0000_0000
  newtype uint8 = x: int | 0 <= x < 0x100

  // ------------------------------------------------------------ keys

  /** `CALLER_TO_INTERNAL_KEY`: the key plus 3 in `uint64_t`, wrapping. */
  function ToInternal(k: uint64): (r: uint64)
    ensures r as int == k as int + 3 || r as int == k as int + 3 - 0x1_0000_0000_0000_0000
  {
    ((k as int + 3) % 0x1_0000_0000_0000_0000) as uint64
  }

  /** Distinct caller keys stay distinct inside the tree. */
  lemma ToInternalInjective(a: uint64, b: uint64)
    requires ToInternal(a) == ToInternal(b)
    ensures a == b
  {
  }

  /** The internal keys 0, 1 and 2 are reached only by the three largest
      caller keys, which wrap around. */
  lemma ToInternalLow(k: uint64)
    ensures ToInternal(k) < 3 <==> k as int >= 0x1_0000_0000_0000_0000 - 3
  {
  }

  // ----------------------------------------------------- fingerprints

  /** `set_hash_fp`: the fingerprint of a key is its low byte. */
  function HashFp(key: uint64): (fp: uint8)
    ensures fp as int < 256
  {
    (key as int % 256) as uint8
  }

  /** `check_hash_fp`. */
  predicate CheckHashFp(fp: uint8, key: uint64)
  {
    fp as int == key as int % 256
  }

  /** A stored fingerprint matches its own key, and a mismatch proves the
      keys differ, so the lookup may skip that slot. */
  lemma HashFpSound(k: uint64, key: uint64)
    ensures CheckHashFp(HashFp(k), k)
    ensures !CheckHashFp(HashFp(k), key) ==> k != key
  {
  }

  // ---------------------------------------------------------- bitmaps

  /** The leaf bitmap is one `uint64_t`; bit i is `bm[i]`. */
  const WORD: nat := 64

  /** `set_bitmap`: `bitmap | (1ll << slot)`. */
  function SetBitmap(bm: seq<bool>, slot: nat): (r: seq<bool>)
    requires |bm| == WORD && slot < WORD
    ensures |r| == WORD && forall t :: 0 <= t < WORD ==> (r[t] <==> t == slot || bm[t])
  {
    bm[slot := true]
  }

  /** `reset_bitmap`: `bitmap & ~(1ll << slot)`. */
  function ResetBitmap(bm: seq<bool>, slot: nat): (r: seq<bool>)
    requires |bm| == WORD && slot < WORD
    ensures |r| == WORD && forall t :: 0 <= t < WORD ==> (r[t] <==> t != slot && bm[t])
  {
    bm[slot := false]
  }

  /** `check_bitmap`: `(bitmap >> slot) & 1`. */
  predicate CheckBitmap(bm: seq<bool>, slot: nat)
    requires slot < |bm|
  {
    bm[slot]
  }

  /** `~bitmap`. */
  function Complement(bm: seq<bool>): (r: seq<bool>)
    ensures |r| == |bm| && forall t :: 0 <= t < |bm| ==> (r[t] <==> !bm[t])
  {
    seq(|bm|, t requires 0 <= t < |bm| => !bm[t])
  }
}
