// Machine words shared by every tree in the model: 64-bit signed keys and
// the occupancy bitmaps of the leaves.  A bitmap of width n is the sequence
// of its n bits, bit i being `bm[i]`: `bm |= 1 << i` is `bm[i := true]`,
// `bm &= ~(1 << i)` is `bm[i := false]`, and the scans and counts the source
// takes from compiler builtins are the functions below.

module Bits {

  /** C's int64_t: keys and values of every tree here. */
  newtype int64 = x: int | -0x8000_0000_0000_0000 <= x < 0x8000_0000_0000_0000

  /** The two's complement bit pattern of a signed 64-bit value: the eight
      low bytes of x modulo 2^64. */
  function TwosComplement(x: int64): bv64
  {
    LowBytes(if x < 0 then x as int + 0x1_0000_0000_0000_0000 else x as int, 8)
  }

  /** The n low bytes of u as a bit pattern, byte i of u at bits 8i..8i+7. */
  function LowBytes(u: nat, n: nat): bv64
  {
    if n == 0 then 0 else (LowBytes(u / 256, n - 1) << 8) | ((u % 256) as bv8 as bv64)
  }

  /** The set bits of a bitmap. */
  ghost function Ones(bm: seq<bool>): set<nat>
  {
    set i | 0 <= i < |bm| && bm[i]
  }

  /** `__builtin_popcount`: the number of set bits. */
  function PopCount(bm: seq<bool>): (c: nat)
    ensures c <= |bm|
    ensures c == |Ones(bm)|
  {
    if bm == [] then
      assert Ones(bm) == {};
      0
    else
      var c := PopCount(bm[..|bm| - 1]);
      assert Ones(bm) == Ones(bm[..|bm| - 1]) + (if bm[|bm| - 1] then {|bm| - 1} else {});
      c + (if bm[|bm| - 1] then 1 else 0)
  }

  /** All bits set exactly when the popcount is the width. */
  lemma {:induction false} PopCountAll(bm: seq<bool>)
    ensures PopCount(bm) == |bm| <==> forall i :: 0 <= i < |bm| ==> bm[i]
  {
    if bm != [] {
      PopCountAll(bm[..|bm| - 1]);
      assert forall i :: 0 <= i < |bm| - 1 ==> bm[..|bm| - 1][i] == bm[i];
    }
  }

  /** Setting one clear bit adds one to the popcount. */
  lemma PopCountSet(bm: seq<bool>, i: nat)
    requires i < |bm| && !bm[i]
    ensures PopCount(bm[i := true]) == PopCount(bm) + 1
  {
    assert Ones(bm[i := true]) == Ones(bm) + {i};
  }

  /** Clearing one set bit takes one from the popcount. */
  lemma PopCountClear(bm: seq<bool>, i: nat)
    requires i < |bm| && bm[i]
    ensures PopCount(bm[i := false]) == PopCount(bm) - 1
  {
    assert Ones(bm[i := false]) == Ones(bm) - {i};
  }

  /** Clearing the bits of b from an all-ones bitmap leaves the bits b
      lacks. */
  lemma {:induction false} PopCountComplement(a: seq<bool>, b: seq<bool>)
    requires |a| == |b| && forall i :: 0 <= i < |a| ==> a[i]
    ensures PopCount(AndNot(a, b)) + PopCount(b) == |a|
  {
    if |a| > 0 {
      var n := |a|;
      PopCountComplement(a[..n - 1], b[..n - 1]);
      assert AndNot(a, b)[..n - 1] == AndNot(a[..n - 1], b[..n - 1]);
    }
  }

  /** The bitmap with bits lo..n-1 set has n - lo bits. */
  lemma {:induction false} PopCountHighOnes(n: nat, lo: nat)
    requires lo <= n
    ensures PopCount(HighOnes(n, lo)) == n - lo
  {
    if n > lo {
      PopCountHighOnes(n - 1, lo);
      assert HighOnes(n, lo)[..n - 1] == HighOnes(n - 1, lo);
    } else {
      assert Ones(HighOnes(n, lo)) == {};
    }
  }

  /** The lowest bit at or above i that equals b, or |bm| if there is none. */
  function ScanFrom(bm: seq<bool>, b: bool, i: nat): (r: nat)
    requires i <= |bm|
    ensures i <= r <= |bm|
    ensures r < |bm| ==> bm[r] == b
    ensures forall j :: i <= j < r ==> bm[j] != b
    decreases |bm| - i
  {
    if i == |bm| then i
    else if bm[i] == b then i
    else ScanFrom(bm, b, i + 1)
  }

  /** `bitScan(m) - 1`, that is `__builtin_ffs(m) - 1`, on a non-zero bitmap:
      the lowest set bit. */
  function LowestSet(bm: seq<bool>): (r: nat)
    requires exists i :: 0 <= i < |bm| && bm[i]
    ensures r < |bm| && bm[r]
    ensures forall j :: 0 <= j < r ==> !bm[j]
  {
    ScanFrom(bm, true, 0)
  }

  /** `bitScan(~m) - 1` on a bitmap with a clear bit: the lowest clear bit. */
  function LowestClear(bm: seq<bool>): (r: nat)
    requires exists i :: 0 <= i < |bm| && !bm[i]
    ensures r < |bm| && !bm[r]
    ensures forall j :: 0 <= j < r ==> bm[j]
  {
    ScanFrom(bm, false, 0)
  }

  /** `a & b`, bit by bit. */
  function And(a: seq<bool>, b: seq<bool>): (c: seq<bool>)
    requires |a| == |b|
    ensures |c| == |a| && forall i :: 0 <= i < |a| ==> (c[i] <==> a[i] && b[i])
  {
    seq(|a|, i requires 0 <= i < |a| => a[i] && b[i])
  }

  /** `a & ~b`, bit by bit. */
  function AndNot(a: seq<bool>, b: seq<bool>): (c: seq<bool>)
    requires |a| == |b|
    ensures |c| == |a| && forall i :: 0 <= i < |a| ==> (c[i] <==> a[i] && !b[i])
  {
    seq(|a|, i requires 0 <= i < |a| => a[i] && !b[i])
  }

  /** The bitmap of width n with no bit set (0). */
  function Zeros(n: nat): (z: seq<bool>)
    ensures |z| == n && forall i :: 0 <= i < n ==> !z[i]
  {
    seq(n, _ => false)
  }

  /** The bitmap of width n with bits lo..n-1 set: `((1 << (n - lo)) - 1) << lo`. */
  function HighOnes(n: nat, lo: nat): (z: seq<bool>)
    ensures |z| == n && forall i :: 0 <= i < n ==> (z[i] <==> lo <= i)
  {
    seq(n, i => lo <= i)
  }
}
