// The inner index of the "lb" tree (cclbtree_lb.h): `inode`s of
// NON_LEAF_KEY_NUM + 1 entries.  Entry 0's key word holds the node's
// metadata (next inode, lock bit, number of keys) instead of a key; entries
// 1..num hold the keys in increasing order and each entry's pointer is the
// child to the right of its key, `ch(0)` being the leftmost child.  The
// metadata is modelled as the fields `next`, `lock` and `num` beside the
// entry array, child pointers as abstract addresses (0 is NULL).

module LbIndex {
  import opened Bits

  /** The UNIFIED_NODE capacity: keys per inode. */
  const NON_LEAF_KEY_NUM: nat := 14
  /** Keys the old node keeps in a split. */
  const LEFT_KEY_NUM: nat := NON_LEAF_KEY_NUM / 2
  /** Keys the new node receives in a split. */
  const RIGHT_KEY_NUM: nat := NON_LEAF_KEY_NUM - LEFT_KEY_NUM
  const NULL: nat := 0

  /** `inode_entry`: a key and the child to its right. */
  datatype Ent = Ent(k: int64, ch: nat)

  /** Entries as `alloc_inode` leaves them: zeroed memory. */
  function Blank(n: nat): (s: seq<Ent>)
    ensures |s| == n && forall i :: 0 <= i < n ==> s[i] == Ent(0, 0)
  {
    seq(n, _ => Ent(0, 0))
  }

  // -------------------------------------------------------------- routing

  /** The keys k(1)..k(|E|-1) strictly increase; entry 0 has no key. */
  ghost predicate Sorted(E: seq<Ent>)
  {
    forall i, j :: 1 <= i < j < |E| ==> E[i].k < E[j].k
  }

  /** The descent takes `ch(j)` for key: `k(j) <= key < k(j + 1)`, k(0)
      standing for minus infinity and k(|E|) for plus infinity. */
  ghost predicate Routes(E: seq<Ent>, key: int64, j: nat)
  {
    j < |E| && (j == 0 || E[j].k <= key) && (j + 1 == |E| || key < E[j + 1].k)
  }

  /** A sorted node sends every key to exactly one child. */
  lemma RoutesUnique(E: seq<Ent>, key: int64, j1: nat, j2: nat)
    requires Sorted(E) && Routes(E, key, j1) && Routes(E, key, j2)
    ensures j1 == j2
  {
  }

  /** A sorted node has a route for every key. */
  lemma {:induction false} RoutesExist(E: seq<Ent>, key: int64)
    requires Sorted(E) && |E| > 0
    ensures exists j :: Routes(E, key, j)
  {
    if |E| == 1 {
      assert Routes(E, key, 0);
    } else if E[|E| - 1].k <= key {
      assert Routes(E, key, |E| - 1);
    } else {
      RoutesExist(E[..|E| - 1], key);
      var j :| Routes(E[..|E| - 1], key, j);
      assert Routes(E, key, j);
    }
  }

  // ------------------------------------------------- entry array updates

  /** The entries after inserting e at pos. */
  function Inserted(E: seq<Ent>, pos: nat, e: Ent): (r: seq<Ent>)
    requires pos <= |E|
    ensures |r| == |E| + 1 && r[pos] == e
    ensures forall i :: 0 <= i < pos ==> r[i] == E[i]
    ensures forall i :: pos < i < |r| ==> r[i] == E[i - 1]
  {
    E[..pos] + [e] + E[pos..]
  }

  /** The entries after the key of entry pos and the child to its right are
      dropped; removing entry 0 (which has no key) drops `ch(0)` and the
      key `k(1)` instead, the right neighbour taking the leftmost place. */
  function Removed(E: seq<Ent>, pos: nat): (r: seq<Ent>)
    requires 2 <= |E| && pos < |E|
    ensures |r| == |E| - 1
    ensures pos == 0 ==> r[0] == Ent(E[0].k, E[1].ch) && forall i :: 1 <= i < |r| ==> r[i] == E[i + 1]
    ensures pos > 0 ==> (forall i :: 0 <= i < pos ==> r[i] == E[i]) && forall i :: pos <= i < |r| ==> r[i] == E[i + 1]
  {
    if pos == 0 then [Ent(E[0].k, E[1].ch)] + E[2..] else E[..pos] + E[pos + 1..]
  }

  /** A key k that lies strictly inside the range of child pos - 1. */
  ghost predicate Fits(E: seq<Ent>, pos: nat, k: int64)
    requires 1 <= pos <= |E|
  {
    (pos == 1 || E[pos - 1].k < k) && (pos == |E| || k < E[pos].k)
  }

  /** Inserting a key that fits keeps the node sorted. */
  lemma InsertedSorted(E: seq<Ent>, pos: nat, e: Ent)
    requires Sorted(E) && 1 <= pos <= |E| && Fits(E, pos, e.k)
    ensures Sorted(Inserted(E, pos, e))
  {
    var r := Inserted(E, pos, e);
    forall i, j | 1 <= i < j < |r|
      ensures r[i].k < r[j].k
    {
      if j == pos {
        assert i < pos && r[i] == E[i];
        assert i == pos - 1 || E[i].k < E[pos - 1].k;
      } else if i == pos {
        assert r[j] == E[j - 1];
        assert j - 1 == pos || E[pos].k < E[j - 1].k;
      }
    }
  }

  /** The child a key reaches after the insert: keys of the split child
      pos - 1 from the new key upward go to the new child pos, every child
      to the right of it moves up one place, the rest keep their slot. */
  function InsertedRoute(j: nat, pos: nat, x: int64, k: int64): nat
  {
    if j + 1 < pos then j else if j + 1 > pos then j + 1 else if x < k then j else pos
  }

  lemma InsertedRoutes(E: seq<Ent>, pos: nat, e: Ent, x: int64, j: nat)
    requires Sorted(E) && 1 <= pos <= |E| && Fits(E, pos, e.k) && Routes(E, x, j)
    ensures Routes(Inserted(E, pos, e), x, InsertedRoute(j, pos, x, e.k))
  {
    var r := Inserted(E, pos, e);
    var j' := InsertedRoute(j, pos, x, e.k);
    if j + 1 < pos {
      assert j + 1 < |E| && r[j + 1] == E[j + 1];
    } else if j + 1 > pos {
      assert r[j'] == E[j];
      assert j' + 1 == |r| || r[j' + 1] == E[j + 1];
    } else if x >= e.k {
      assert r[pos] == e;
      assert pos + 1 == |r| || r[pos + 1] == E[pos];
    }
  }

  /** Removing an entry of a sorted node keeps it sorted. */
  lemma RemovedSorted(E: seq<Ent>, pos: nat)
    requires Sorted(E) && 2 <= |E| && pos < |E|
    ensures Sorted(Removed(E, pos))
  {
    var r := Removed(E, pos);
    forall i, j | 1 <= i < j < |r|
      ensures r[i].k < r[j].k
    {
      if pos > 0 && i < pos <= j {
        assert r[i] == E[i] && r[j] == E[j + 1];
      }
    }
  }

  /** The child a key reaches after the removal: a key of the removed
      child goes to its left neighbour (its right neighbour when the
      leftmost child is removed), children to the right move down one. */
  function RemovedRoute(j: nat, pos: nat): nat
  {
    if j < pos then j else if j > pos then j - 1 else if pos == 0 then 0 else pos - 1
  }

  lemma RemovedRoutes(E: seq<Ent>, pos: nat, x: int64, j: nat)
    requires Sorted(E) && 2 <= |E| && pos < |E| && Routes(E, x, j)
    ensures Routes(Removed(E, pos), x, RemovedRoute(j, pos))
  {
    var r := Removed(E, pos);
    if pos == 0 {
      if j == 0 {
        assert 2 == |E| || (r[1] == E[2] && E[1].k < E[2].k);
      } else {
        assert j == 1 || r[j - 1] == E[j];
        assert j == |E| - 1 || r[j] == E[j + 1];
      }
    } else if j < pos {
      assert j + 1 == pos || r[j + 1] == E[j + 1];
      assert j + 1 < pos || j + 1 == |r| || (r[j + 1] == E[j + 2] && E[j + 1].k < E[j + 2].k);
    } else if j == pos {
      assert r[pos - 1] == E[pos - 1];
      assert pos - 1 == 0 || E[pos - 1].k < E[pos].k;
      assert pos == |r| || r[pos] == E[pos + 1];
    } else {
      assert r[j - 1] == E[j];
      assert j == |E| - 1 || r[j] == E[j + 1];
    }
  }

  // ---------------------------------------------------------- the split

  /** In a split of the full entries S (the old node with the new entry
      inserted), the old node keeps S[..LEFT_KEY_NUM + 1], the new node
      gets S[LEFT_KEY_NUM + 1..] and the key of its entry 0 is pushed up.
      Both halves stay sorted, and the pushed key separates them. */
  lemma SplitSorted(S: seq<Ent>)
    requires Sorted(S) && |S| == NON_LEAF_KEY_NUM + 2
    ensures Sorted(S[..LEFT_KEY_NUM + 1]) && Sorted(S[LEFT_KEY_NUM + 1..])
  {
    var R := S[LEFT_KEY_NUM + 1..];
    assert forall i :: 0 <= i < |R| ==> R[i] == S[LEFT_KEY_NUM + 1 + i];
  }

  /** After the split a key below the pushed key reaches the same child
      through the old node, any other key through the new node, whose
      entry 0 holds the child of the pushed entry. */
  lemma SplitRoutes(S: seq<Ent>, x: int64, j: nat)
    requires Sorted(S) && |S| == NON_LEAF_KEY_NUM + 2 && Routes(S, x, j)
    ensures x < S[LEFT_KEY_NUM + 1].k ==> j <= LEFT_KEY_NUM && Routes(S[..LEFT_KEY_NUM + 1], x, j)
    ensures S[LEFT_KEY_NUM + 1].k <= x ==> j > LEFT_KEY_NUM && Routes(S[LEFT_KEY_NUM + 1..], x, j - (LEFT_KEY_NUM + 1))
  {
    var R := S[LEFT_KEY_NUM + 1..];
    if S[LEFT_KEY_NUM + 1].k <= x {
      var j' := j - (LEFT_KEY_NUM + 1);
      assert R[j'] == S[j];
      assert j' + 1 == |R| || R[j' + 1] == S[j + 1];
    }
  }

  /** The entries of a new root over the old root l and the pushed entry. */
  lemma RootRoutes(l: nat, up: Ent, x: int64)
    ensures Sorted([Ent(0, l), up])
    ensures Routes([Ent(0, l), up], x, if x < up.k then 0 else 1)
  {
  }

  // ------------------------------------------------------ the descent

  /** C's int64 subtraction as the machine does it: the int64 congruent to
      the exact difference modulo 2^64 (signed overflow wraps). */
  function Sub64(a: int64, b: int64): (r: int64)
    ensures (r as int - (a as int - b as int)) % 0x1_0000_0000_0000_0000 == 0
    ensures -0x8000_0000_0000_0000 <= a as int - b as int < 0x8000_0000_0000_0000 ==> r as int == a as int - b as int
  {
    var d := a as int - b as int;
    if d >= 0x8000_0000_0000_0000 then (d - 0x1_0000_0000_0000_0000) as int64
    else if d < -0x8000_0000_0000_0000 then (d + 0x1_0000_0000_0000_0000) as int64
    else d as int64
  }

  /** The sequential phase of the descent from index b to t inclusive: the
      child left of the first key above key. */
  function ScanFrom(E: seq<Ent>, key: int64, b: nat, t: int): (r: nat)
    requires 1 <= b <= t + 1 && t < |E|
    ensures b - 1 <= r <= t
    ensures r == t || key < E[r + 1].k
    decreases t - b
  {
    if b <= t && !(key < E[b].k) then ScanFrom(E, key, b + 1, t) else b - 1
  }

  /** The descent step as written: the binary phase narrows [b, t] by the
      sign of the int64 difference `key - k(m)` until at most 7 entries are
      left, then the sequential phase takes over. */
  function NarrowAsWritten(E: seq<Ent>, key: int64, b: nat, t: int): (r: nat)
    requires 1 <= b <= t + 1 && t < |E|
    ensures b - 1 <= r <= t
    decreases t - b
  {
    if b + 7 <= t then
      var m := (b + t) / 2;
      var d := Sub64(key, E[m].k);
      if d > 0 then NarrowAsWritten(E, key, m + 1, t)
      else if d < 0 then NarrowAsWritten(E, key, b, m - 1)
      else m
    else ScanFrom(E, key, b, t)
  }

  /** The child index the source's descent picks in a node of entries E. */
  function DescentAsWritten(E: seq<Ent>, key: int64): (r: nat)
    requires |E| > 0
    ensures r < |E|
  {
    NarrowAsWritten(E, key, 1, |E| - 1)
  }

  /** Eight keys -8..-1 and the largest int64 key: `key - k(4)` wraps to a
      negative number, so the descent turns left and reaches child 3,
      while the key belongs to child 8. */
  lemma DescentOverflows()
    ensures var E := [Ent(0, 0), Ent(-8, 1), Ent(-7, 2), Ent(-6, 3), Ent(-5, 4), Ent(-4, 5), Ent(-3, 6), Ent(-2, 7), Ent(-1, 8)];
      Sorted(E) && DescentAsWritten(E, 0x7FFF_FFFF_FFFF_FFFF) == 3 &&
      Routes(E, 0x7FFF_FFFF_FFFF_FFFF, 8) && !Routes(E, 0x7FFF_FFFF_FFFF_FFFF, 3)
  {
    var E := [Ent(0, 0), Ent(-8, 1), Ent(-7, 2), Ent(-6, 3), Ent(-5, 4), Ent(-4, 5), Ent(-3, 6), Ent(-2, 7), Ent(-1, 8)];
    var key: int64 := 0x7FFF_FFFF_FFFF_FFFF;
    assert E[4].k == -5;
    assert Sub64(key, E[4].k) < 0;
    assert NarrowAsWritten(E, key, 1, 8) == NarrowAsWritten(E, key, 1, 3);
    assert ScanFrom(E, key, 4, 3) == 3;
    assert ScanFrom(E, key, 1, 3) == 3;
  }

  // --------------------------------------------------- array shifting

  /** `for (i = hi; i >= lo; i--) a[i + 1] = a[i]`: entries lo..hi move up
      one place, a[lo] keeps its old value. */
  method ShiftRight(a: array<Ent>, lo: nat, hi: int)
    requires lo <= hi + 1 && hi + 1 < a.Length
    modifies a
    ensures a[..] == old(a[..])[..lo + 1] + old(a[..])[lo..hi + 1] + old(a[..])[hi + 2..]
  {
    ghost var s := a[..];
    var i := hi;
    while i >= lo
      invariant lo - 1 <= i <= hi
      invariant forall j {:trigger a[j]} :: 0 <= j < a.Length ==> a[j] == (if i + 1 < j <= hi + 1 then s[j - 1] else s[j])
    {
      a[i + 1] := a[i];
      i := i - 1;
    }
    assert forall j :: 0 <= j < a.Length ==> a[j] == (s[..lo + 1] + s[lo..hi + 1] + s[hi + 2..])[j];
  }

  /** `for (i = lo; i < n; i++) a[i] = a[i + 1]`: entries lo + 1..n move
      down one place, a[n] keeps its old value. */
  method ShiftLeft(a: array<Ent>, lo: nat, n: nat)
    requires lo <= n < a.Length
    modifies a
    ensures a[..] == old(a[..])[..lo] + old(a[..])[lo + 1..n + 1] + old(a[..])[n..]
  {
    ghost var s := a[..];
    var i := lo;
    while i < n
      invariant lo <= i <= n
      invariant forall j {:trigger a[j]} :: 0 <= j < a.Length ==> a[j] == (if lo <= j < i then s[j + 1] else s[j])
    {
      a[i] := a[i + 1];
      i := i + 1;
    }
    assert forall j :: 0 <= j < a.Length ==> a[j] == (s[..lo] + s[lo + 1..n + 1] + s[n..])[j];
  }

  /** `for (r = dhi, i = shi; count times; r--, i--) dst[r] = src[i]`: the
      count entries of src ending at shi land in dst ending at dhi. */
  method CopyDown(src: array<Ent>, dst: array<Ent>, shi: int, dhi: int, count: nat)
    requires src != dst && count <= shi + 1 && count <= dhi + 1 && shi < src.Length && dhi < dst.Length
    modifies dst
    ensures forall j {:trigger dst[j]} :: 0 <= j < dst.Length ==>
      dst[j] == (if dhi - count < j <= dhi then src[shi - dhi + j] else old(dst[j]))
    ensures dst[..] == old(dst[..])[..dhi + 1 - count] + src[shi + 1 - count..shi + 1] + old(dst[..])[dhi + 1..]
  {
    ghost var s := dst[..];
    var c := 0;
    while c < count
      invariant c <= count
      invariant forall j {:trigger dst[j]} :: 0 <= j < dst.Length ==>
        dst[j] == (if dhi - c < j <= dhi then src[shi - dhi + j] else s[j])
    {
      dst[dhi - c] := src[shi - c];
      c := c + 1;
    }
    assert forall j :: 0 <= j < dst.Length ==>
      dst[j] == (s[..dhi + 1 - count] + src[shi + 1 - count..shi + 1] + s[dhi + 1..])[j];
  }

  /** The entry moves of an insert into the hi + 1 live entries of a:
      entries pos..hi move up one place and e takes pos. */
  method InsertEntry(a: array<Ent>, pos: nat, hi: int, e: Ent)
    requires pos <= hi + 1 && hi + 1 < a.Length
    modifies a
    ensures a[..hi + 2] == Inserted(old(a[..hi + 1]), pos, e) && a[hi + 2..] == old(a[hi + 2..])
  {
    ghost var s := a[..];
    ShiftRight(a, pos, hi);
    a[pos] := e;
    assert forall i :: 0 <= i < a.Length ==> a[i] == (Inserted(s[..hi + 1], pos, e) + s[hi + 2..])[i];
    assert a[..] == Inserted(s[..hi + 1], pos, e) + s[hi + 2..];
  }

  /** The entry moves of a split: with S the full entries of a with e
      inserted at pos, a keeps S[..LEFT_KEY_NUM + 1] and b receives
      S[LEFT_KEY_NUM + 1..]. */
  method Redistribute(a: array<Ent>, b: array<Ent>, pos: nat, e: Ent)
    requires a != b && a.Length == b.Length == NON_LEAF_KEY_NUM + 1 && 1 <= pos <= NON_LEAF_KEY_NUM + 1
    modifies a, b
    ensures a[..] == Inserted(old(a[..]), pos, e)[..LEFT_KEY_NUM + 1] + old(a[..])[LEFT_KEY_NUM + 1..]
    ensures b[..] == Inserted(old(a[..]), pos, e)[LEFT_KEY_NUM + 1..] + old(b[..])[RIGHT_KEY_NUM + 1..]
  {
    if pos <= LEFT_KEY_NUM {
      SplitLow(a, b, pos, e);
    } else {
      SplitHigh(a, b, pos, e);
    }
  }

  /** The new entry lands in the old node: its upper entries move out and
      the entries from pos up to the middle move up one place. */
  method SplitLow(a: array<Ent>, b: array<Ent>, pos: nat, e: Ent)
    requires a != b && a.Length == b.Length == NON_LEAF_KEY_NUM + 1 && 1 <= pos <= LEFT_KEY_NUM
    modifies a, b
    ensures a[..] == Inserted(old(a[..]), pos, e)[..LEFT_KEY_NUM + 1] + old(a[..])[LEFT_KEY_NUM + 1..]
    ensures b[..] == Inserted(old(a[..]), pos, e)[LEFT_KEY_NUM + 1..] + old(b[..])[RIGHT_KEY_NUM + 1..]
  {
    ghost var s, t := a[..], b[..];
    ghost var S := Inserted(s, pos, e);
    CopyDown(a, b, NON_LEAF_KEY_NUM, RIGHT_KEY_NUM, RIGHT_KEY_NUM + 1);
    assert b[..] == S[LEFT_KEY_NUM + 1..] + t[RIGHT_KEY_NUM + 1..];
    InsertEntry(a, pos, LEFT_KEY_NUM - 1, e);
    assert S[..LEFT_KEY_NUM + 1] == Inserted(s[..LEFT_KEY_NUM], pos, e);
    assert s[LEFT_KEY_NUM + 1..] == a[LEFT_KEY_NUM + 1..];
  }

  /** The new entry lands in the new node, between the entries above pos
      and the upper entries below it. */
  method SplitHigh(a: array<Ent>, b: array<Ent>, pos: nat, e: Ent)
    requires a != b && a.Length == b.Length == NON_LEAF_KEY_NUM + 1 && LEFT_KEY_NUM < pos <= NON_LEAF_KEY_NUM + 1
    modifies b
    ensures a[..] == Inserted(a[..], pos, e)[..LEFT_KEY_NUM + 1] + a[LEFT_KEY_NUM + 1..]
    ensures b[..] == Inserted(a[..], pos, e)[LEFT_KEY_NUM + 1..] + old(b[..])[RIGHT_KEY_NUM + 1..]
  {
    ghost var A, t := a[..], b[..];
    ghost var S := Inserted(A, pos, e);
    CopyDown(a, b, NON_LEAF_KEY_NUM, RIGHT_KEY_NUM, NON_LEAF_KEY_NUM + 1 - pos);
    var r := RIGHT_KEY_NUM - (NON_LEAF_KEY_NUM + 1 - pos);
    b[r] := e;
    CopyDown(a, b, pos - 1, r - 1, r);
    assert forall i {:trigger b[i]} :: 0 <= i < b.Length ==>
      b[i] == (if i <= RIGHT_KEY_NUM then S[LEFT_KEY_NUM + 1 + i] else t[i]);
    assert b[..] == S[LEFT_KEY_NUM + 1..] + t[RIGHT_KEY_NUM + 1..];
    assert S[..LEFT_KEY_NUM + 1] == A[..LEFT_KEY_NUM + 1];
  }

  /** The entry moves of a removal from the n + 1 live entries of a. */
  method RemoveEntry(a: array<Ent>, pos: nat, n: nat)
    requires 0 < n < a.Length && pos <= n
    modifies a
    ensures a[..n] == Removed(old(a[..n + 1]), pos) && a[n..] == old(a[n..])
  {
    ghost var s := a[..];
    if pos == 0 {
      a[0] := Ent(a[0].k, a[1].ch);
      ShiftLeft(a, 1, n);
      assert forall i :: 0 <= i < n ==> a[i] == Removed(s[..n + 1], 0)[i];
    } else {
      ShiftLeft(a, pos, n);
      assert forall i :: 0 <= i < n ==> a[i] == Removed(s[..n + 1], pos)[i];
    }
  }

  // ------------------------------------------------------- the inode

  class INode {
    const ent: array<Ent>
    var num: nat
    var next: nat
    var lock: bool

    ghost predicate Valid()
      reads this
    {
      ent.Length == NON_LEAF_KEY_NUM + 1 && num <= NON_LEAF_KEY_NUM
    }

    /** The live entries: the leftmost child and the num keys. */
    ghost function Image(): seq<Ent>
      reads this, ent
      requires Valid()
    {
      ent[..num + 1]
    }

    /** `alloc_inode`: a zeroed node. */
    constructor ()
      ensures Valid() && fresh(ent) && ent[..] == Blank(NON_LEAF_KEY_NUM + 1)
      ensures num == 0 && next == NULL && !lock
    {
      ent := new Ent[NON_LEAF_KEY_NUM + 1](_ => Ent(0, 0));
      num, next, lock := 0, NULL, false;
    }

    /** The tree's first inode: no key, its only child the first bnode. */
    constructor First(bottom: nat)
      ensures Valid() && fresh(ent) && Image() == [Ent(0, bottom)]
      ensures num == 0 && next == NULL && !lock
    {
      ent := new Ent[NON_LEAF_KEY_NUM + 1](i => if i == 0 then Ent(0, bottom) else Ent(0, 0));
      num, next, lock := 0, NULL, false;
    }

    /** A new root over the old root and the entry pushed up by its split;
      the lock it is created with is released before the insert returns. */
    constructor Root(oldRoot: nat, up: Ent)
      ensures Valid() && fresh(ent) && Image() == [Ent(0, oldRoot), up]
      ensures num == 1 && next == NULL && !lock
    {
      ent := new Ent[NON_LEAF_KEY_NUM + 1](i => if i == 0 then Ent(0, oldRoot) else if i == 1 then up else Ent(0, 0));
      num, next, lock := 1, NULL, false;
    }

    /** The descent step: binary search while at least 8 keys remain, an
        exact match taking its own child, then a sequential search for the
        first key above key; the result is the child whose range holds key. */
    method ChildIndex(key: int64) returns (j: nat)
      requires Valid() && Sorted(Image())
      ensures Routes(Image(), key, j)
    {
      ghost var E := Image();
      var b: int := 1;
      var t: int := num;
      while b + 7 <= t
        invariant 1 <= b <= t + 1 && t <= num
        invariant forall i :: 1 <= i < b ==> E[i].k < key
        invariant forall i :: t < i <= num ==> key < E[i].k
        decreases t - b
      {
        var m := (b + t) / 2;
        if key > ent[m].k {
          b := m + 1;
        } else if key < ent[m].k {
          t := m - 1;
        } else {
          assert m == num || E[m].k < E[m + 1].k;
          j := m;
          return;
        }
      }
      while b <= t
        invariant 1 <= b <= t + 1 && t <= num
        invariant forall i :: 1 <= i < b ==> E[i].k <= key
        invariant forall i :: t < i <= num ==> key < E[i].k
        decreases t - b
      {
        if key < ent[b].k {
          break;
        }
        b := b + 1;
      }
      j := b - 1;
    }

    /** The insert into a node that is not full: entries pos..num move up
        one place, the new entry takes pos, and the lock is released. */
    method InsertAt(pos: nat, e: Ent)
      requires Valid() && num < NON_LEAF_KEY_NUM && 1 <= pos <= num + 1
      modifies ent, this`num, this`lock
      ensures Valid() && num == old(num) + 1 && !lock
      ensures Image() == Inserted(old(Image()), pos, e)
      ensures ent[num + 1..] == old(ent[..])[num + 1..]
    {
      InsertEntry(ent, pos, num, e);
      num := num + 1;
      lock := false;
    }

    /** The split of a full node that receives e at pos: the left half of
        the inserted entries stays, the right half moves to a new node at
        address addr, whose entry 0 carries the key and pointer pushed up.
        At level 0 the new node is linked after this one; both locks are
        released except this one's when it is the root. */
    method Split(pos: nat, e: Ent, level0: bool, isRoot: bool, addr: nat) returns (newin: INode, up: Ent)
      requires Valid() && num == NON_LEAF_KEY_NUM && 1 <= pos <= num + 1
      modifies ent, this`num, this`next, this`lock
      ensures fresh(newin) && fresh(newin.ent) && newin.Valid() && Valid()
      ensures ent[..] == Inserted(old(ent[..]), pos, e)[..LEFT_KEY_NUM + 1] + old(ent[..])[LEFT_KEY_NUM + 1..]
      ensures newin.ent[..] == Inserted(old(ent[..]), pos, e)[LEFT_KEY_NUM + 1..] + Blank(NON_LEAF_KEY_NUM - RIGHT_KEY_NUM)
      ensures num == LEFT_KEY_NUM && newin.num == RIGHT_KEY_NUM
      ensures up == Ent(Inserted(old(ent[..]), pos, e)[LEFT_KEY_NUM + 1].k, addr)
      ensures next == (if level0 then addr else old(next)) && newin.next == (if level0 then old(next) else NULL)
      ensures !newin.lock && lock == (isRoot && old(lock))
    {
      newin := new INode();
      Redistribute(ent, newin.ent, pos, e);
      up := Ent(newin.ent[0].k, addr);
      if level0 {
        newin.next := next;
        next := addr;
      }
      newin.num := RIGHT_KEY_NUM;
      num := LEFT_KEY_NUM;
      newin.lock := false;
      if !isRoot {
        lock := false;
      }
    }

    /** The removal of entry pos after a child was deleted from a node with
        keys left: entry 0 takes `ch(1)` when pos is 0, the later entries
        move down one place, and the lock is released. */
    method RemoveAt(pos: nat)
      requires Valid() && 0 < num && pos <= num
      modifies ent, this`num, this`lock
      ensures Valid() && num == old(num) - 1 && !lock
      ensures Image() == Removed(old(Image()), pos)
      ensures ent[num + 1..] == old(ent[..])[num + 1..]
    {
      RemoveEntry(ent, pos, num);
      num := num - 1;
      lock := false;
    }
  }

  // --------------------------------------------------- the root pointer

  /** The tree's root pointer, its level and the head of level 0. */
  class Index {
    var root: INode
    var rootAddr: nat
    var rootLevel: nat
    const first: INode

    /** The tree constructor's inner part: one inode over the first bnode. */
    constructor (firstAddr: nat, bottom: nat)
      ensures fresh(first) && root == first && rootAddr == firstAddr && rootLevel == 0
      ensures first.Valid() && first.Image() == [Ent(0, bottom)] && first.next == NULL && !first.lock
    {
      var f := new INode.First(bottom);
      first := f;
      root, rootAddr, rootLevel := f, firstAddr, 0;
    }

    /** Root growth after the root at level lev - 1 split: a new root at
        address addr over the old one and the pushed entry becomes the root
        at level lev, and the old root's lock is released. */
    method GrowRoot(up: Ent, lev: nat, addr: nat)
      modifies this`root, this`rootAddr, this`rootLevel, root`lock
      ensures fresh(root) && root.Valid() && root.Image() == [Ent(0, old(rootAddr)), up]
      ensures root.num == 1 && !root.lock && root.next == NULL
      ensures rootAddr == addr && rootLevel == lev && !old(root).lock
    {
      var newin := new INode.Root(rootAddr, up);
      root.lock := false;
      root, rootAddr, rootLevel := newin, addr, lev;
    }
  }

  // ------------------------------------------------------ linked lists

  /** A list of nodes (the level-0 inodes, or the leaves) as the distinct
      addresses it visits: each node's `next` word names the following one
      and the last one's is NULL. */
  ghost predicate Chain(next: map<nat, nat>, L: seq<nat>)
  {
    (forall i :: 0 <= i < |L| ==> L[i] != NULL && L[i] in next) &&
    (forall i :: 0 <= i < |L| - 1 ==> next[L[i]] == L[i + 1]) &&
    (|L| > 0 ==> next[L[|L| - 1]] == NULL) &&
    (forall i, j :: 0 <= i < j < |L| ==> L[i] != L[j])
  }

  /** `newin->next = p->next; p->next = newin`: the new node a enters the
      list right after node L[i]. */
  lemma LinkAfter(next: map<nat, nat>, L: seq<nat>, i: nat, a: nat)
    requires Chain(next, L) && i < |L| && a != NULL && a !in L
    ensures Chain(next[a := next[L[i]]][L[i] := a], L[..i + 1] + [a] + L[i + 1..])
  {
    var n' := next[a := next[L[i]]][L[i] := a];
    var L' := L[..i + 1] + [a] + L[i + 1..];
    assert forall k :: 0 <= k <= i ==> L'[k] == L[k];
    assert forall k :: i + 1 < k < |L'| ==> L'[k] == L[k - 1];
    forall k | 0 <= k < |L'| - 1
      ensures n'[L'[k]] == L'[k + 1]
    {
      if k < i {
        assert L[k] != L[i] && L[k] != a;
      } else if k > i + 1 {
        assert L[k - 1] != L[i] && L[k - 1] != a;
      }
    }
    assert L'[|L'| - 1] == a || (L'[|L'| - 1] == L[|L| - 1] && L[|L| - 1] != a && (i == |L| - 1 || L[|L| - 1] != L[i]));
  }

  /** `sib->next = p->next` with sib the predecessor of p: node L[i]
      leaves the list and the others keep their order. */
  lemma Unlink(next: map<nat, nat>, L: seq<nat>, i: nat)
    requires Chain(next, L) && 1 <= i < |L|
    ensures Chain(next[L[i - 1] := next[L[i]]], L[..i] + L[i + 1..])
  {
    var n' := next[L[i - 1] := next[L[i]]];
    var L' := L[..i] + L[i + 1..];
    assert forall k :: 0 <= k < i ==> L'[k] == L[k];
    assert forall k :: i <= k < |L'| ==> L'[k] == L[k + 1];
    forall k | 0 <= k < |L'| - 1
      ensures n'[L'[k]] == L'[k + 1]
    {
      if k != i - 1 {
        assert L'[k] != L[i - 1];
      }
    }
    assert |L'| > 0 ==> (L'[|L'| - 1] == L[|L| - 1] && |L| - 1 != i - 1) || (i == |L| - 1 && L'[|L'| - 1] == L[i - 1]);
  }
}
