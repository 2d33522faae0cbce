// The interior nodes of the FPTree baseline (fptree.cpp): `nkeys` keys in
// increasing order and nkeys + 1 children, child i holding the keys from
// key i - 1 (inclusive) up to key i (exclusive).  The keys and the children
// of `slot_kv` are modelled as two arrays of NODE_MAX + 1 entries each;
// child pointers are abstract addresses (0 is NULL), so `node_set_parent`
// on a child is not part of this model.  NODE_MAX and NODE_PIVOT come from
// fptree.h, which is not part of this model either: they are the node's
// `max` and `pivot`.

module FpInner {
  import opened FpNode
  import opened FpVersion

  const NULL: nat := 0

  // ----------------------------------------------------------- keys

  /** Strictly increasing keys: what `validate_inode` checks. */
  ghost predicate Sorted(K: seq<uint64>)
  {
    forall i, j :: 0 <= i < j < |K| ==> K[i] < K[j]
  }

  /** The first index at or after i whose key is above key, |K| if none:
      the position the search loops of `internode_lookup`,
      `internode_insert` and `internode_remove` stop at. */
  function Pos(K: seq<uint64>, key: uint64, i: nat): (p: nat)
    requires i <= |K|
    ensures i <= p <= |K|
    ensures forall t :: i <= t < p ==> K[t] <= key
    ensures p < |K| ==> key < K[p]
    decreases |K| - i
  {
    if i == |K| || key < K[i] then i else Pos(K, key, i + 1)
  }

  /** Child p holds key: the key lies between key p - 1 and key p, the
      first child taking everything below key 0 and the last everything
      from the last key up. */
  ghost predicate Routes(K: seq<uint64>, key: uint64, p: nat)
  {
    p <= |K| && (p == 0 || K[p - 1] <= key) && (p == |K| || key < K[p])
  }

  /** The position the search stops at is the unique child that holds the
      key, whichever way round it is read. */
  lemma PosRoutes(K: seq<uint64>, key: uint64, p: nat)
    requires Sorted(K)
    ensures Routes(K, key, p) <==> p == Pos(K, key, 0)
  {
    if Routes(K, key, p) {
      forall t | 0 <= t < p
        ensures K[t] <= key
      {
        assert t == p - 1 || K[t] < K[p - 1];
      }
      PosIs(K, key, p);
    }
  }

  /** The first index of K with a key above key, given as any index that
      has that property. */
  lemma PosIs(K: seq<uint64>, key: uint64, p: nat)
    requires p <= |K| && (forall t :: 0 <= t < p ==> K[t] <= key) && (p < |K| ==> key < K[p])
    ensures Pos(K, key, 0) == p
  {
  }

  // ---------------------------------------------------------- sequences

  /** s with x inserted at index p. */
  function Ins<T>(s: seq<T>, p: nat, x: T): (r: seq<T>)
    requires p <= |s|
    ensures |r| == |s| + 1 && r[p] == x
    ensures forall t :: 0 <= t < p ==> r[t] == s[t]
    ensures forall t :: p < t < |r| ==> r[t] == s[t - 1]
  {
    s[..p] + [x] + s[p..]
  }

  /** s with index p dropped. */
  function Del<T>(s: seq<T>, p: nat): (r: seq<T>)
    requires p < |s|
    ensures |r| == |s| - 1
    ensures forall t :: 0 <= t < p ==> r[t] == s[t]
    ensures forall t :: p <= t < |r| ==> r[t] == s[t + 1]
  {
    s[..p] + s[p + 1..]
  }

  /** The insert keeps the keys strictly increasing exactly when the key is
      new. */
  lemma InsSorted(K: seq<uint64>, key: uint64)
    requires Sorted(K)
    ensures Sorted(Ins(K, Pos(K, key, 0), key)) <==> key !in K
  {
    var p := Pos(K, key, 0);
    var r := Ins(K, p, key);
    if key in K {
      var t :| 0 <= t < |K| && K[t] == key;
      forall u | p <= u < |K|
        ensures key < K[u]
      {
        assert u == p || K[p] < K[u];
      }
      assert t < p;
      assert r[t] == key && r[p] == key;
    } else {
      forall i, j | 0 <= i < j < |r|
        ensures r[i] < r[j]
      {
        if j == p {
          assert r[i] == K[i] && K[i] <= key && K[i] != key;
        } else if i == p {
          assert r[j] == K[j - 1] && (j - 1 == p || K[p] < K[j - 1]);
        } else if i < p < j {
          assert r[i] == K[i] && r[j] == K[j - 1] && K[i] <= key < K[p] <= K[j - 1];
        }
      }
    }
  }

  /** Removing a key keeps the keys strictly increasing. */
  lemma DelSorted(K: seq<uint64>, p: nat)
    requires Sorted(K) && p < |K|
    ensures Sorted(Del(K, p))
  {
    var r := Del(K, p);
    forall i, j | 0 <= i < j < |r|
      ensures r[i] < r[j]
    {
      if i < p <= j {
        assert r[i] == K[i] && r[j] == K[j + 1];
      }
    }
  }

  /** The child an insert at p moves a key k of child q to: the children
      before p keep their place, child p keeps the keys below the new key
      and passes the rest to the new child p + 1, later children move up. */
  function InsRoute(q: nat, p: nat, key: uint64, k: uint64): nat
  {
    if q < p || (q == p && k < key) then q else q + 1
  }

  lemma InsRouteIs(K: seq<uint64>, key: uint64, k: uint64)
    ensures var p := Pos(K, key, 0);
      Pos(Ins(K, p, key), k, 0) == InsRoute(Pos(K, k, 0), p, key, k)
  {
    var p := Pos(K, key, 0);
    var q := Pos(K, k, 0);
    var K' := Ins(K, p, key);
    var q' := InsRoute(q, p, key, k);
    assert q' < |K'| ==> k < K'[q'] by {
      if q' < |K'| {
        if q < p { assert K'[q] == K[q]; }
        else if q == p && k < key { assert K'[q'] == key; }
        else { assert K'[q'] == K[q]; }
      }
    }
    assert forall t :: 0 <= t < q' ==> K'[t] <= k by {
      forall t | 0 <= t < q'
        ensures K'[t] <= k
      {
        if t < p { assert K'[t] == K[t]; }
        else if t == p {
          assert K'[t] == key;
          if q > p { assert key < K[p] && K[p] <= k; }
        }
        else { assert K'[t] == K[t - 1]; }
      }
    }
    PosIs(K', k, q');
  }

  /** After the insert of a key with its child, keys that reached the
      split child from the new key upward reach the new child; every other
      key reaches the child it reached before. */
  lemma InsRoutes(K: seq<uint64>, C: seq<nat>, key: uint64, child: nat, k: uint64)
    requires |C| == |K| + 1
    ensures var p := Pos(K, key, 0);
      Ins(C, p + 1, child)[Pos(Ins(K, p, key), k, 0)]
        == if Pos(K, k, 0) == p && key <= k then child else C[Pos(K, k, 0)]
  {
    InsRouteIs(K, key, k);
  }

  /** The child a removal at p moves a key k of child q to: with d the
      dropped key, keys of children after d move down one place, and those
      of child p (the dropped child) join its neighbour. */
  function DelRoute(q: nat, p: nat, n: nat): nat
    requires 1 <= n
  {
    if q < p then q else if q == p then (if p < n then p else n - 1) else q - 1
  }

  lemma DelRouteIs(K: seq<uint64>, key: uint64, k: uint64)
    requires Sorted(K) && |K| >= 2
    ensures var p := Pos(K, key, 0); var n := |K|;
      Pos(Del(K, if p < n then p else n - 1), k, 0) == DelRoute(Pos(K, k, 0), p, n)
  {
    var p := Pos(K, key, 0);
    var n := |K|;
    DelRouteAbove(K, p, Pos(K, k, 0), k);
    DelRouteBelow(K, key, k);
    PosIs(Del(K, if p < n then p else n - 1), k, DelRoute(Pos(K, k, 0), p, n));
  }

  lemma DelRouteAbove(K: seq<uint64>, p: nat, q: nat, k: uint64)
    requires Sorted(K) && |K| >= 2 && p <= |K| && q <= |K| && (q < |K| ==> k < K[q])
    ensures var n := |K|;
      var K', q' := Del(K, if p < n then p else n - 1), DelRoute(q, p, n);
      q' < |K'| ==> k < K'[q']
  {
    var n := |K|;
    var K' := Del(K, if p < n then p else n - 1);
    var q' := DelRoute(q, p, n);
    if q' < |K'| {
      if q < p {
        assert K'[q] == K[q];
      } else if q == p {
        assert K'[p] == K[p + 1];
      } else {
        assert K'[q'] == K[q];
      }
    }
  }

  lemma DelRouteBelow(K: seq<uint64>, key: uint64, k: uint64)
    requires |K| >= 2
    ensures var p := Pos(K, key, 0); var n := |K|;
      var K', q' := Del(K, if p < n then p else n - 1), DelRoute(Pos(K, k, 0), p, n);
      forall t :: 0 <= t < q' ==> K'[t] <= k
  {
    var p := Pos(K, key, 0);
    var n := |K|;
    var d := if p < n then p else n - 1;
    var K' := Del(K, d);
    var q' := DelRoute(Pos(K, k, 0), p, n);
    forall t | 0 <= t < q'
      ensures K'[t] <= k
    {
      if t < d { assert K'[t] == K[t]; }
      else { assert K'[t] == K[t + 1]; }
    }
  }

  /** After the removal of the child key reaches with the key beside it,
      the keys of that child go to its right neighbour, or to its left
      neighbour when it was the last child; every other key reaches the
      child it reached before. */
  lemma DelRoutes(K: seq<uint64>, C: seq<nat>, key: uint64, k: uint64)
    requires Sorted(K) && |K| >= 2 && |C| == |K| + 1
    ensures var p := Pos(K, key, 0); var n := |K|;
      Del(C, p)[Pos(Del(K, if p < n then p else n - 1), k, 0)]
        == if Pos(K, k, 0) == p then (if p < n then C[p + 1] else C[n - 1]) else C[Pos(K, k, 0)]
  {
    DelRouteIs(K, key, k);
  }

  // ------------------------------------------------------------ splits

  /** The two nodes a split of the full keys K and children C leaves, with
      (ckey, nchild) inserted into the side ckey belongs to: the left node
      keeps the keys below the pivot, the pivot key moves up, the right node
      takes the keys above it. */
  datatype Halves = Halves(lk: seq<uint64>, lc: seq<nat>, mid: uint64, rk: seq<uint64>, rc: seq<nat>)

  function Divided(K: seq<uint64>, C: seq<nat>, pivot: nat, ckey: uint64, nchild: nat): Halves
    requires pivot < |K| && |C| == |K| + 1
  {
    var lk, lc, rk, rc := K[..pivot], C[..pivot + 1], K[pivot + 1..], C[pivot + 1..];
    if ckey < K[pivot] then
      var p := Pos(lk, ckey, 0);
      Halves(Ins(lk, p, ckey), Ins(lc, p + 1, nchild), K[pivot], rk, rc)
    else
      var p := Pos(rk, ckey, 0);
      Halves(lk, lc, K[pivot], Ins(rk, p, ckey), Ins(rc, p + 1, nchild))
  }

  /** A split loses nothing: the left keys, the middle key and the right
      keys make the keys with ckey inserted, and the two child lists make
      the children with nchild inserted beside it. */
  lemma SplitIsInsert(K: seq<uint64>, C: seq<nat>, pivot: nat, ckey: uint64, nchild: nat)
    requires Sorted(K) && pivot < |K| && |C| == |K| + 1
    ensures var h := Divided(K, C, pivot, ckey, nchild); var p := Pos(K, ckey, 0);
      h.lk + [h.mid] + h.rk == Ins(K, p, ckey) && h.lc + h.rc == Ins(C, p + 1, nchild)
  {
    if ckey < K[pivot] {
      SplitLeftIsInsert(K, C, pivot, ckey, nchild);
    } else {
      assert pivot < Pos(K, ckey, 0) by {
        var p := Pos(K, ckey, 0);
        assert p < |K| ==> K[pivot] <= ckey < K[p];
      }
      SplitRightIsInsert(K, C, pivot, ckey, nchild);
    }
  }

  /** Inserting into the tail after m is inserting into the whole. */
  lemma InsHigh<T>(s: seq<T>, m: nat, p: nat, x: T)
    requires m <= p <= |s|
    ensures s[..m] + Ins(s[m..], p - m, x) == Ins(s, p, x)
  {
    assert s[..m] + s[m..][..p - m] == s[..p];
    assert s[m..][p - m..] == s[p..];
  }

  /** Inserting into the head before m is inserting into the whole. */
  lemma InsLow<T>(s: seq<T>, m: nat, p: nat, x: T)
    requires p <= m <= |s|
    ensures Ins(s[..m], p, x) + s[m..] == Ins(s, p, x)
  {
    assert s[..m][..p] == s[..p];
    assert s[..m][p..] + s[m..] == s[p..];
  }

  lemma SplitLeftIsInsert(K: seq<uint64>, C: seq<nat>, pivot: nat, ckey: uint64, nchild: nat)
    requires pivot < |K| && |C| == |K| + 1 && ckey < K[pivot]
    ensures var p := Pos(K, ckey, 0);
      Ins(K[..pivot], Pos(K[..pivot], ckey, 0), ckey) + [K[pivot]] + K[pivot + 1..] == Ins(K, p, ckey) &&
      Ins(C[..pivot + 1], Pos(K[..pivot], ckey, 0) + 1, nchild) + C[pivot + 1..] == Ins(C, p + 1, nchild)
  {
    var p := Pos(K, ckey, 0);
    assert p <= pivot;
    PosIs(K[..pivot], ckey, p);
    var L := Ins(K[..pivot], p, ckey);
    assert L + [K[pivot]] + K[pivot + 1..] == L + K[pivot..];
    InsLow(K, pivot, p, ckey);
    InsLow(C, pivot + 1, p + 1, nchild);
  }

  lemma SplitRightIsInsert(K: seq<uint64>, C: seq<nat>, pivot: nat, ckey: uint64, nchild: nat)
    requires pivot < Pos(K, ckey, 0) && |C| == |K| + 1
    ensures var p := Pos(K, ckey, 0); var rk := K[pivot + 1..];
      K[..pivot] + [K[pivot]] + Ins(rk, Pos(rk, ckey, 0), ckey) == Ins(K, p, ckey) &&
      C[..pivot + 1] + Ins(C[pivot + 1..], Pos(rk, ckey, 0) + 1, nchild) == Ins(C, p + 1, nchild)
  {
    var p := Pos(K, ckey, 0);
    PosIs(K[pivot + 1..], ckey, p - (pivot + 1));
    assert K[..pivot] + [K[pivot]] == K[..pivot + 1];
    InsHigh(K, pivot + 1, p, ckey);
    InsHigh(C, pivot + 1, p + 1, nchild);
  }

  /** The middle key separates the halves: every left key is below it,
      every right key above or equal to it, and ckey goes left exactly when
      it is below the middle key. */
  lemma SplitSeparates(K: seq<uint64>, C: seq<nat>, pivot: nat, ckey: uint64, nchild: nat)
    requires Sorted(K) && pivot < |K| && |C| == |K| + 1
    ensures var h := Divided(K, C, pivot, ckey, nchild);
      h.mid == K[pivot] &&
      (forall t :: 0 <= t < |h.lk| ==> h.lk[t] < h.mid) &&
      (forall t :: 0 <= t < |h.rk| ==> h.mid <= h.rk[t]) &&
      (ckey in h.lk <==> ckey < h.mid) &&
      |h.lc| == |h.lk| + 1 && |h.rc| == |h.rk| + 1
  {
    var h := Divided(K, C, pivot, ckey, nchild);
    if ckey < K[pivot] {
      assert h.lk[Pos(K[..pivot], ckey, 0)] == ckey;
      assert forall t :: 0 <= t < |h.lk| ==> h.lk[t] == ckey || h.lk[t] in K[..pivot];
    } else {
      assert forall t :: 0 <= t < |h.rk| ==> h.rk[t] == ckey || h.rk[t] in K[pivot + 1..];
      assert forall t :: 0 <= t < pivot ==> K[t] < K[pivot];
    }
  }

  // ------------------------------------------------------ array moves

  /** `for (j = len; j > 0; j--) a[i + j] = a[i + j - 1]`: the len entries
      from i move up one place, a[i] keeping its value. */
  method ShiftUp<T>(a: array<T>, i: nat, len: nat)
    requires i + len < a.Length
    modifies a
    ensures a[..] == old(a[..])[..i + 1] + old(a[..])[i..i + len] + old(a[..])[i + len + 1..]
  {
    ghost var s := a[..];
    var j := len;
    while j > 0
      invariant 0 <= j <= len
      invariant forall t {:trigger a[t]} :: 0 <= t < a.Length ==> a[t] == (if i + j < t <= i + len then s[t - 1] else s[t])
    {
      a[i + j] := a[i + j - 1];
      j := j - 1;
    }
    assert forall t :: 0 <= t < a.Length ==> a[t] == (s[..i + 1] + s[i..i + len] + s[i + len + 1..])[t];
  }

  /** `for (j = 0; j < len; j++) a[i + j] = a[i + j + 1]`: the len entries
      after i move down one place, a[i + len] keeping its value. */
  method ShiftDown<T>(a: array<T>, i: nat, len: nat)
    requires i + len < a.Length
    modifies a
    ensures a[..] == old(a[..])[..i] + old(a[..])[i + 1..i + len + 1] + old(a[..])[i + len..]
  {
    ghost var s := a[..];
    var j := 0;
    while j < len
      invariant j <= len
      invariant forall t {:trigger a[t]} :: 0 <= t < a.Length ==> a[t] == (if i <= t < i + j then s[t + 1] else s[t])
    {
      a[i + j] := a[i + j + 1];
      j := j + 1;
    }
    assert forall t :: 0 <= t < a.Length ==> a[t] == (s[..i] + s[i + 1..i + len + 1] + s[i + len..])[t];
  }

  /** After the shift up from i of the entries below m, writing x at i or
      at i + 1 inserts it there among the first m entries. */
  lemma ShiftedPut<T>(s: seq<T>, i: nat, m: nat, w: nat, x: T)
    requires i <= w <= i + 1 && w <= m < |s|
    ensures (s[..i + 1] + s[i..m] + s[m + 1..])[w := x] == Ins(s[..m], w, x) + s[m + 1..]
  {
    var u := (s[..i + 1] + s[i..m] + s[m + 1..])[w := x];
    var v := Ins(s[..m], w, x) + s[m + 1..];
    assert |u| == |v|;
    forall t | 0 <= t < |u|
      ensures u[t] == v[t]
    {
      if t < w {
      } else if t == w {
      } else if t <= m {
        assert u[t] == s[t - 1];
      } else {
        assert u[t] == s[t];
      }
    }
  }

  /** Writing x at m inserts it after the first m entries. */
  lemma EndPut<T>(s: seq<T>, m: nat, x: T)
    requires m < |s|
    ensures s[m := x] == Ins(s[..m], m, x) + s[m + 1..]
  {
    assert s[m := x] == s[..m] + [x] + s[m + 1..];
  }

  /** The key moves of `internode_insert` on m live keys: unless the key
      goes last, the m - i keys from i move up one place; x is then written
      at i. */
  method KeyPut<T>(a: array<T>, i: nat, m: nat, x: T)
    requires i <= m < a.Length
    modifies a
    ensures a[..] == Ins(old(a[..m]), i, x) + old(a[m + 1..])
  {
    ghost var s := a[..];
    if i != m {
      ShiftUp(a, i, m - i);
      ghost var s' := a[..];
      a[i] := x;
      assert a[..] == s'[i := x];
      ShiftedPut(s, i, m, i, x);
    } else {
      a[i] := x;
      assert a[..] == s[i := x];
      EndPut(s, m, x);
    }
  }

  /** The child moves of `internode_insert` on n keys: unless the key goes
      last, the n - i + 1 children from i move up one place; x is then
      written at i + 1. */
  method ChildPut<T>(a: array<T>, i: nat, n: nat, x: T)
    requires i <= n && n + 1 < a.Length
    modifies a
    ensures a[..] == Ins(old(a[..n + 1]), i + 1, x) + old(a[n + 2..])
  {
    ghost var s := a[..];
    if i != n {
      ShiftUp(a, i, n - i + 1);
      ghost var s' := a[..];
      a[i + 1] := x;
      assert a[..] == s'[i + 1 := x];
      ShiftedPut(s, i, n + 1, i + 1, x);
    } else {
      a[i + 1] := x;
      assert a[..] == s[i + 1 := x];
      EndPut(s, n + 1, x);
    }
  }

  /** The key moves of `internode_remove` on n live keys: unless the
      search ran off the end, the n - i - 1 keys after i move down one
      place; either way the first n - 1 slots hold the keys without the one
      at i, or without the last one when i is n. */
  method KeyDrop<T>(a: array<T>, i: nat, n: nat)
    requires i <= n && 1 <= n <= a.Length
    modifies a
    ensures a[..n - 1] == Del(old(a[..n]), if i < n then i else n - 1) && a[n - 1..] == old(a[n - 1..])
  {
    ghost var s := a[..];
    if i != n {
      ShiftDown(a, i, n - i - 1);
    }
    assert forall t :: 0 <= t < a.Length ==> a[t] == (Del(s[..n], if i < n then i else n - 1) + s[n - 1..])[t];
  }

  /** The child moves of `internode_remove` on n keys: unless the search
      ran off the end, the n - i children after i move down one place, so
      the first n slots hold the children without the one at i. */
  method ChildDrop<T>(a: array<T>, i: nat, n: nat)
    requires i <= n < a.Length
    modifies a
    ensures a[..n] == Del(old(a[..n + 1]), i) && a[n..] == old(a[n..])
  {
    ghost var s := a[..];
    if i != n {
      ShiftDown(a, i, n - i);
    }
    assert forall t :: 0 <= t < a.Length ==> a[t] == (Del(s[..n + 1], i) + s[n..])[t];
  }

  /** `for (i = 0; i < count; i++) dst[i] = src[from + i]`. */
  method CopyFrom<T>(src: array<T>, from: nat, dst: array<T>, count: nat)
    requires src != dst && from + count <= src.Length && count <= dst.Length
    modifies dst
    ensures dst[..] == src[from..from + count] + old(dst[..])[count..]
    ensures dst[..count] == src[from..from + count]
  {
    ghost var s := dst[..];
    var i := 0;
    while i < count
      invariant i <= count
      invariant forall t {:trigger dst[t]} :: 0 <= t < dst.Length ==> dst[t] == (if t < i then src[from + t] else s[t])
    {
      dst[i] := src[from + i];
      i := i + 1;
    }
    assert forall t :: 0 <= t < dst.Length ==> dst[t] == (src[from..from + count] + s[count..])[t];
  }

  // ------------------------------------------------------- the inode

  class FINode {
    const max: nat
    const pivot: nat
    const keys: array<uint64>
    const children: array<nat>
    var nkeys: nat
    var version: bv32
    var parent: nat

    ghost predicate Valid()
      reads this
    {
      pivot < max && keys.Length == max + 1 && children.Length == max + 1 && nkeys <= max
    }

    /** The live keys. */
    ghost function Keys(): seq<uint64>
      reads this, keys
      requires Valid()
    {
      keys[..nkeys]
    }

    /** The live children. */
    ghost function Children(): seq<nat>
      reads this, children
      requires Valid()
    {
      children[..nkeys + 1]
    }

    /** `internode_create`: a zeroed node. */
    constructor (max: nat, pivot: nat)
      requires pivot < max
      ensures Valid() && fresh(keys) && fresh(children) && this.max == max && this.pivot == pivot
      ensures keys[..] == seq(max + 1, _ => 0) && children[..] == seq(max + 1, _ => NULL)
      ensures nkeys == 0 && version == 0 && parent == NULL
    {
      this.max, this.pivot := max, pivot;
      keys := new uint64[max + 1](_ => 0);
      children := new nat[max + 1](_ => NULL);
      nkeys, version, parent := 0, 0, NULL;
    }

    /** The root grown over a split at the top (`split_leaf_node`): one
        key, the old node to its left and the new one to its right, locked
        and marked as inserting and as the root. */
    constructor Root(max: nat, pivot: nat, nkey: uint64, left: nat, right: nat)
      requires pivot < max
      ensures Valid() && fresh(keys) && fresh(children) && this.max == max && this.pivot == pivot
      ensures Keys() == [nkey] && Children() == [left, right]
      ensures version == NODE_LOCKED | NODE_INSERTING | NODE_ISROOT && parent == NULL
    {
      this.max, this.pivot := max, pivot;
      keys := new uint64[max + 1](i => if i == 0 then nkey else 0);
      children := new nat[max + 1](i => if i == 0 then left else if i == 1 then right else NULL);
      nkeys, version, parent := 1, NODE_LOCKED | NODE_INSERTING | NODE_ISROOT, NULL;
      new;
      assert keys[..1] == [nkey];
      assert children[..2] == [left, right];
    }

    /** The search loop shared by lookup, insert and remove. */
    method Search(key: uint64) returns (i: nat)
      requires Valid()
      ensures i == Pos(Keys(), key, 0)
    {
      ghost var K := Keys();
      i := 0;
      while i < nkeys
        invariant i <= nkeys && Pos(K, key, i) == Pos(K, key, 0)
      {
        if key < keys[i] {
          break;
        }
        i := i + 1;
      }
    }

    /** `internode_lookup`: the child whose range holds key. */
    method Lookup(key: uint64) returns (child: nat)
      requires Valid() && Sorted(Keys())
      ensures exists p: nat :: Routes(Keys(), key, p) && child == Children()[p]
    {
      var i := Search(key);
      PosRoutes(Keys(), key, i);
      child := children[i];
    }

    /** `internode_insert` into a locked node that is not full: keys from
        the search position and the children after it move up one place,
        the key takes that position and the child the one after it. */
    method Insert(key: uint64, child: nat)
      requires Valid() && nkeys < max && version & NODE_LOCKED != 0
      modifies keys, children, this`nkeys
      ensures Valid() && nkeys == old(nkeys) + 1
      ensures Keys() == Ins(old(Keys()), Pos(old(Keys()), key, 0), key)
      ensures Children() == Ins(old(Children()), Pos(old(Keys()), key, 0) + 1, child)
      ensures keys[nkeys..] == old(keys[..])[nkeys..] && children[nkeys + 1..] == old(children[..])[nkeys + 1..]
    {
      var n := nkeys;
      var i := Search(key);
      KeyPut(keys, i, n, key);
      ChildPut(children, i, n, child);
      nkeys := n + 1;
    }

    /** `internode_remove` from a locked node marked as inserting.  With one
        key left the node is kept as it is and the child the key does not
        reach is returned for the rotation; otherwise the key at the search
        position (the last key when the search runs off the end) and the
        child there are dropped, and NULL is returned. */
    method Remove(key: uint64) returns (stray: nat)
      requires Valid() && nkeys > 0
      requires version & NODE_LOCKED != 0 && version & NODE_INSERTING != 0
      modifies keys, children, this`nkeys
      ensures old(nkeys) == 1 ==>
        stray == old(Children())[1 - Pos(old(Keys()), key, 0)] && nkeys == 1 && unchanged(keys) && unchanged(children)
      ensures old(nkeys) > 1 ==> stray == NULL && nkeys == old(nkeys) - 1
      ensures old(nkeys) > 1 ==>
        var p := Pos(old(Keys()), key, 0);
        Keys() == Del(old(Keys()), if p < old(nkeys) then p else old(nkeys) - 1) &&
        Children() == Del(old(Children()), p)
      ensures Valid()
    {
      var n := nkeys;
      if n == 1 {
        var i := if key < keys[0] then 1 else 0;
        stray := children[i];
        return;
      }
      var i := Search(key);
      KeyDrop(keys, i, n);
      ChildDrop(children, i, n);
      nkeys := n - 1;
      stray := NULL;
    }

    /** The moves of `split_inter_node` before the insertion: a new node,
        locked and splitting, under the same parent, receives the keys
        above the pivot and the children from pivot + 1 on; this node is
        marked splitting and keeps the keys below the pivot and the
        children up to it, and the pivot key is returned as `midkey`. */
    method Halve() returns (rnode: FINode, midkey: uint64)
      requires Valid() && nkeys == max
      modifies this`nkeys, this`version
      ensures fresh(rnode) && fresh(rnode.keys) && fresh(rnode.children)
      ensures Valid() && rnode.Valid() && rnode.max == max && rnode.pivot == pivot
      ensures Keys() == old(Keys())[..pivot] && Children() == old(Children())[..pivot + 1]
      ensures midkey == old(Keys())[pivot]
      ensures rnode.Keys() == old(Keys())[pivot + 1..] && rnode.Children() == old(Children())[pivot + 1..]
      ensures version == old(version) | NODE_SPLITTING
      ensures rnode.version == NODE_LOCKED | NODE_SPLITTING && rnode.parent == parent
    {
      var s := pivot + 1;
      var c := max - s;
      rnode := new FINode(max, pivot);
      midkey := keys[pivot];
      rnode.version := NODE_LOCKED | NODE_SPLITTING;
      rnode.parent := parent;
      CopyFrom(keys, s, rnode.keys, c);
      CopyFrom(children, s, rnode.children, c + 1);
      rnode.nkeys := c;
      assert children[..max + 1][s..] == children[s..s + c + 1];
      assert keys[..max][s..] == keys[s..s + c];
      version := version | NODE_SPLITTING;
      nkeys := s - 1;
    }

    /** `split_inter_node`: a full node keeps the keys below its pivot and
        the children up to it, the pivot key moves up as `midkey`, the rest
        go to the new right node, and the key and child that did not fit
        are inserted into the left half when the key is below `midkey` and
        into the right half otherwise. */
    method Split(ckey: uint64, nchild: nat) returns (rnode: FINode, midkey: uint64)
      requires Valid() && nkeys == max && version & NODE_LOCKED != 0
      modifies keys, children, this`nkeys, this`version
      ensures fresh(rnode) && fresh(rnode.keys) && fresh(rnode.children)
      ensures Valid() && rnode.Valid() && rnode.max == max && rnode.pivot == pivot
      ensures var h := Divided(old(Keys()), old(Children()), pivot, ckey, nchild);
        Keys() == h.lk && Children() == h.lc && midkey == h.mid && rnode.Keys() == h.rk && rnode.Children() == h.rc
      ensures version == old(version) | NODE_SPLITTING
      ensures rnode.version == NODE_LOCKED | NODE_SPLITTING && rnode.parent == parent
    {
      if ckey < keys[pivot] {
        rnode, midkey := SplitToLeft(ckey, nchild);
      } else {
        rnode, midkey := SplitToRight(ckey, nchild);
      }
    }

    /** `split_inter_node` when the key goes to the left half: the moves,
        then the insertion into this node. */
    method SplitToLeft(ckey: uint64, nchild: nat) returns (rnode: FINode, midkey: uint64)
      requires Valid() && nkeys == max && version & NODE_LOCKED != 0 && ckey < keys[pivot]
      modifies keys, children, this`nkeys, this`version
      ensures fresh(rnode) && fresh(rnode.keys) && fresh(rnode.children)
      ensures Valid() && rnode.Valid() && rnode.max == max && rnode.pivot == pivot
      ensures var h := Divided(old(Keys()), old(Children()), pivot, ckey, nchild);
        Keys() == h.lk && Children() == h.lc && midkey == h.mid && rnode.Keys() == h.rk && rnode.Children() == h.rc
      ensures version == old(version) | NODE_SPLITTING
      ensures rnode.version == NODE_LOCKED | NODE_SPLITTING && rnode.parent == parent
    {
      RaiseKeepsLock(version, NODE_SPLITTING);
      rnode, midkey := Halve();
      Insert(ckey, nchild);
    }

    /** `split_inter_node` when the key goes to the right half: the moves,
        then the insertion into the new node. */
    method SplitToRight(ckey: uint64, nchild: nat) returns (rnode: FINode, midkey: uint64)
      requires Valid() && nkeys == max && version & NODE_LOCKED != 0 && keys[pivot] <= ckey
      modifies keys, children, this`nkeys, this`version
      ensures fresh(rnode) && fresh(rnode.keys) && fresh(rnode.children)
      ensures Valid() && rnode.Valid() && rnode.max == max && rnode.pivot == pivot
      ensures var h := Divided(old(Keys()), old(Children()), pivot, ckey, nchild);
        Keys() == h.lk && Children() == h.lc && midkey == h.mid && rnode.Keys() == h.rk && rnode.Children() == h.rc
      ensures version == old(version) | NODE_SPLITTING
      ensures rnode.version == NODE_LOCKED | NODE_SPLITTING && rnode.parent == parent
    {
      RaiseKeepsLock(version, NODE_SPLITTING);
      rnode, midkey := Halve();
      rnode.Insert(ckey, nchild);
    }

    /** `unlock_node`. */
    method Unlock()
      requires version & NODE_LOCKED != 0
      modifies this`version
      ensures version == Unlocked(old(version))
    {
      version := Unlocked(version);
    }
  }
}
