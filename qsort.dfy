// `qsortBleaf`: a quicksort of slot positions by the keys they hold, used
// by the leaf split to find the 7 smallest and the 7 largest keys.  The
// positions move in place in `pos`; the leaf itself is only read.

module LeafSort {
  import opened Bits
  import opened LeafNode

  function KeyAt(ents: seq<Entry>, x: int): int64
  {
    if 0 <= x < |ents| then ents[x].k else 0
  }
  ghost predicate Slots(s: seq<int>, lo: int, hi: int)
  {
    forall i :: lo <= i < hi && 0 <= i < |s| ==> 0 <= s[i] < SLOTS
  }
  ghost predicate Bounded(ents: seq<Entry>, s: seq<int>, lo: int, hi: int, key: int64, up: bool)
  {
    forall i :: lo <= i < hi && 0 <= i < |s| ==> (if up then KeyAt(ents, s[i]) <= key else KeyAt(ents, s[i]) > key)
  }
  /** The keys at the positions s[lo..hi) never decrease. */
  ghost predicate Sorted(ents: seq<Entry>, s: seq<int>, lo: int, hi: int)
  {
    forall i, j :: lo <= i < j < hi && 0 <= i && j < |s| ==> KeyAt(ents, s[i]) <= KeyAt(ents, s[j])
  }

  /** s and s0 agree outside [lo, hi). */
  ghost predicate Unchanged(s: seq<int>, s0: seq<int>, lo: int, hi: int)
  {
    |s| == |s0| && forall i :: 0 <= i < |s| && !(lo <= i < hi) ==> s[i] == s0[i]
  }
  lemma UpdateMultiset(s: seq<int>, i: int, v: int)
    requires 0 <= i < |s|
    ensures multiset(s[i := v]) == multiset(s) - multiset{s[i]} + multiset{v}
  {
    assert s == s[..i] + [s[i]] + s[i + 1..];
    assert s[i := v] == s[..i] + [v] + s[i + 1..];
  }
  lemma SwapMultiset(t: seq<int>, i: int, j: int)
    requires 0 <= i < j < |t|
    ensures multiset(t[i := t[j]][j := t[i]]) == multiset(t)
  {
    assert t == t[..i] + [t[i]] + t[i + 1..j] + [t[j]] + t[j + 1..];
    assert t[i := t[j]][j := t[i]] == t[..i] + [t[j]] + t[i + 1..j] + [t[i]] + t[j + 1..];
  }

  /** Filling the hole at i with the element at j moves the hole to j. */
  lemma MoveHole(s: seq<int>, i: int, j: int, x: int)
    requires 0 <= i < |s| && 0 <= j < |s|
    ensures multiset(s[i := s[j]][j := x]) == multiset(s[i := x])
  {
    var t := s[i := x];
    if i < j {
      assert s[i := s[j]][j := x] == t[i := t[j]][j := t[i]];
      SwapMultiset(t, i, j);
    } else if j < i {
      assert s[i := s[j]][j := x] == t[j := t[i]][i := t[j]];
      SwapMultiset(t, j, i);
    }
  }

  /** The state of the partition loop: s with its hole filled by the pivot's
      position is a rearrangement of s0 within [start, end], positions left
      of l hold keys at most key and positions right of r keys above it. */
  ghost predicate Partitioning(ents: seq<Entry>, s: seq<int>, s0: seq<int>, start: int, end: int,
                               l: int, r: int, hole: int, key: int64, pivot: int)
  {
    0 <= start <= l <= r <= end < |s| && (hole == l || hole == r)
    && var g := s[hole := pivot];
    multiset(g) == multiset(s0) && Unchanged(g, s0, start, end + 1) && Slots(g, start, end + 1)
    && Bounded(ents, g, start, l, key, true) && Bounded(ents, g, r + 1, end + 1, key, false)
  }

  lemma SkipRight(ents: seq<Entry>, s: seq<int>, s0: seq<int>, start: int, end: int, l: int, r: int, key: int64, pivot: int)
    requires Partitioning(ents, s, s0, start, end, l, r, l, key, pivot) && l < r && KeyAt(ents, s[r]) > key
    ensures Partitioning(ents, s, s0, start, end, l, r - 1, l, key, pivot)
  {
  }

  lemma FillLeft(ents: seq<Entry>, s: seq<int>, s0: seq<int>, start: int, end: int, l: int, r: int, key: int64, pivot: int)
    requires Partitioning(ents, s, s0, start, end, l, r, l, key, pivot) && l < r && KeyAt(ents, s[r]) <= key
    ensures Partitioning(ents, s[l := s[r]], s0, start, end, l + 1, r, r, key, pivot)
  {
    MoveHole(s, l, r, pivot);
    assert Slots(s[l := pivot], start, end + 1);
    assert 0 <= s[r] < SLOTS by {
      assert s[l := pivot][r] == s[r];
    }
    var g := s[l := pivot];
    var g' := s[l := s[r]][r := pivot];
    assert forall i :: 0 <= i < |s| && i != l && i != r ==> g'[i] == g[i];
    assert g'[l] == g[r] && g'[r] == g[l];
  }

  lemma SkipLeft(ents: seq<Entry>, s: seq<int>, s0: seq<int>, start: int, end: int, l: int, r: int, key: int64, pivot: int)
    requires Partitioning(ents, s, s0, start, end, l, r, r, key, pivot) && l < r && KeyAt(ents, s[l]) <= key
    ensures Partitioning(ents, s, s0, start, end, l + 1, r, r, key, pivot)
  {
  }

  lemma FillRight(ents: seq<Entry>, s: seq<int>, s0: seq<int>, start: int, end: int, l: int, r: int, key: int64, pivot: int)
    requires Partitioning(ents, s, s0, start, end, l, r, r, key, pivot) && l < r && KeyAt(ents, s[l]) > key
    ensures Partitioning(ents, s[r := s[l]], s0, start, end, l, r - 1, l, key, pivot)
  {
    MoveHole(s, r, l, pivot);
    assert 0 <= s[l] < SLOTS by {
      assert s[r := pivot][l] == s[l];
    }
    var g := s[r := pivot];
    var g' := s[r := s[l]][l := pivot];
    assert forall i :: 0 <= i < |s| && i != l && i != r ==> g'[i] == g[i];
    assert g'[l] == g[r] && g'[r] == g[l];
  }

  /** The first inner loop of the partition: r moves left past keys above
      the pivot's. */
  method ScanRight(ents: seq<Entry>, pos: array<int>, ghost pos0: seq<int>, start: int, end: int,
                   l: int, r0: int, key: int64, pivot: int) returns (r: int)
    requires Partitioning(ents, pos[..], pos0, start, end, l, r0, l, key, pivot)
    ensures Partitioning(ents, pos[..], pos0, start, end, l, r, l, key, pivot) && r <= r0
    ensures l == r || KeyAt(ents, pos[r]) <= key
  {
    r := r0;
    while l < r && KeyAt(ents, pos[r]) > key
      invariant Partitioning(ents, pos[..], pos0, start, end, l, r, l, key, pivot) && r <= r0
      decreases r
    {
      SkipRight(ents, pos[..], pos0, start, end, l, r, key, pivot);
      r := r - 1;
    }
  }

  /** The second inner loop of the partition: l moves right past keys at
      most the pivot's. */
  method ScanLeft(ents: seq<Entry>, pos: array<int>, ghost pos0: seq<int>, start: int, end: int,
                  l0: int, r: int, key: int64, pivot: int) returns (l: int)
    requires Partitioning(ents, pos[..], pos0, start, end, l0, r, r, key, pivot)
    ensures Partitioning(ents, pos[..], pos0, start, end, l, r, r, key, pivot) && l0 <= l
    ensures l == r || KeyAt(ents, pos[l]) > key
  {
    l := l0;
    while l < r && KeyAt(ents, pos[l]) <= key
      invariant Partitioning(ents, pos[..], pos0, start, end, l, r, r, key, pivot) && l0 <= l
      decreases r - l
    {
      SkipLeft(ents, pos[..], pos0, start, end, l, r, key, pivot);
      l := l + 1;
    }
  }

  /** The partition loop of `qsortBleaf` on pos[start..end]: the pivot is the
      key at pos[start]; positions of keys at most the pivot's end up left of
      l, those above it right of l, and the pivot lands at l. */
  method Partition(p: LNode, start: int, end: int, pos: array<int>) returns (l: int)
    requires p.Valid() && 0 <= start < end < pos.Length
    requires Slots(pos[..], start, end + 1)
    modifies pos
    ensures start <= l <= end
    ensures multiset(pos[..]) == multiset(old(pos[..]))
    ensures Unchanged(pos[..], old(pos[..]), start, end + 1) && Slots(pos[..], start, end + 1)
    ensures Bounded(p.ent[..], pos[..], start, l, KeyAt(p.ent[..], pos[l]), true)
    ensures Bounded(p.ent[..], pos[..], l + 1, end + 1, KeyAt(p.ent[..], pos[l]), false)
  {
    var posStart := pos[start];
    var key := p.ent[posStart].k;
    var ents := p.ent[..];
    ghost var pos0 := pos[..];
    var r: int;
    l, r := start, end;
    assert pos[..][l := posStart] == pos0;
    // the slot at l (the hole) stands for the pivot
    while l < r
      invariant start <= l <= r <= end
      invariant Partitioning(ents, pos[..], pos0, start, end, l, r, l, key, posStart)
      decreases r - l
    {
      r := ScanRight(ents, pos, pos0, start, end, l, r, key, posStart);
      if l < r {
        FillLeft(ents, pos[..], pos0, start, end, l, r, key, posStart);
        pos[l] := pos[r];
        l := l + 1;
      }
      // now the hole is at r
      l := ScanLeft(ents, pos, pos0, start, end, l, r, key, posStart);
      if l < r {
        FillRight(ents, pos[..], pos0, start, end, l, r, key, posStart);
        pos[r] := pos[l];
        r := r - 1;
      }
    }
    ghost var s1 := pos[..];
    pos[l] := posStart;
    PartitionDone(ents, s1, pos0, start, end, l, key, posStart);
  }

  lemma PartitionDone(ents: seq<Entry>, s: seq<int>, s0: seq<int>, start: int, end: int, l: int, key: int64, pivot: int)
    requires Partitioning(ents, s, s0, start, end, l, l, l, key, pivot) && |ents| == SLOTS
    requires 0 <= pivot < SLOTS && KeyAt(ents, pivot) == key
    ensures Slots(s[l := pivot], start, end + 1)
    ensures Unchanged(s[l := pivot], s0, start, end + 1)
    ensures Bounded(ents, s[l := pivot], start, l, KeyAt(ents, s[l := pivot][l]), true)
    ensures Bounded(ents, s[l := pivot], l + 1, end + 1, KeyAt(ents, s[l := pivot][l]), false)
  {
  }
  /** `qsortBleaf(p, start, end, pos)`: pos[start..end] (inclusive) is
      rearranged into order of non-decreasing key; nothing outside it moves. */
  method QsortBleaf(p: LNode, start: int, end: int, pos: array<int>)
    requires p.Valid() && 0 <= start <= end + 1 <= pos.Length
    requires Slots(pos[..], start, end + 1)
    modifies pos
    ensures multiset(pos[..]) == multiset(old(pos[..]))
    ensures Unchanged(pos[..], old(pos[..]), start, end + 1)
    ensures Slots(pos[..], start, end + 1) && Sorted(p.ent[..], pos[..], start, end + 1)
    decreases end - start
  {
    if start >= end {
      return;
    }
    var l := Partition(p, start, end, pos);
    ghost var a := pos[..];
    ghost var key := KeyAt(p.ent[..], pos[l]);
    QsortBleaf(p, start, l - 1, pos);
    ghost var b := pos[..];
    QsortBleaf(p, l + 1, end, pos);
    SortedJoin(p.ent[..], a, b, pos[..], start, l, end, key);
  }

  /** Two sequences that agree outside [lo, hi) and have the same multiset
      have the same multiset inside it. */
  lemma SegmentMultiset(a: seq<int>, b: seq<int>, lo: int, hi: int)
    requires 0 <= lo <= hi <= |a| && multiset(a) == multiset(b) && Unchanged(b, a, lo, hi)
    ensures multiset(a[lo..hi]) == multiset(b[lo..hi])
  {
    assert a[..lo] == b[..lo] by {
      forall i | 0 <= i < lo ensures a[..lo][i] == b[..lo][i] {
        assert b[i] == a[i];
      }
    }
    assert a[hi..] == b[hi..] by {
      forall i | 0 <= i < |a| - hi ensures a[hi..][i] == b[hi..][i] {
        assert b[hi + i] == a[hi + i];
      }
    }
    assert a == a[..lo] + a[lo..hi] + a[hi..];
    assert b == b[..lo] + b[lo..hi] + b[hi..];
    assert multiset(a) == multiset(a[..lo]) + multiset(a[lo..hi]) + multiset(a[hi..]);
    assert multiset(b) == multiset(a[..lo]) + multiset(b[lo..hi]) + multiset(a[hi..]);
    Cancel(multiset(a[..lo]), multiset(a[lo..hi]), multiset(b[lo..hi]), multiset(a[hi..]));
  }

  lemma Cancel(p: multiset<int>, x: multiset<int>, y: multiset<int>, q: multiset<int>)
    requires p + x + q == p + y + q
    ensures x == y
  {
    forall e ensures x[e] == y[e] {
      assert (p + x + q)[e] == (p + y + q)[e];
    }
  }

  /** A rearrangement of a range keeps every position a slot and keeps a bound. */
  lemma BoundedPerm(ents: seq<Entry>, a: seq<int>, b: seq<int>, lo: int, hi: int, key: int64, up: bool)
    requires 0 <= lo <= hi <= |a| && multiset(a) == multiset(b) && Unchanged(b, a, lo, hi)
    requires Slots(a, lo, hi) && Bounded(ents, a, lo, hi, key, up)
    ensures Slots(b, lo, hi) && Bounded(ents, b, lo, hi, key, up)
  {
    SegmentMultiset(a, b, lo, hi);
    forall i | lo <= i < hi ensures 0 <= b[i] < SLOTS && (if up then KeyAt(ents, b[i]) <= key else KeyAt(ents, b[i]) > key) {
      assert b[i] == b[lo..hi][i - lo];
      assert b[i] in multiset(a[lo..hi]);
      var j :| 0 <= j < hi - lo && a[lo..hi][j] == b[i];
      assert a[lo + j] == b[i];
    }
  }

  /** Sorted left part, pivot, sorted right part, bounded by the pivot key:
      the whole range is sorted. */
  lemma SortedJoin(ents: seq<Entry>, a: seq<int>, b: seq<int>, c: seq<int>, start: int, l: int, end: int, key: int64)
    requires 0 <= start <= l <= end < |a| && KeyAt(ents, a[l]) == key
    requires Slots(a, start, end + 1)
    requires Bounded(ents, a, start, l, key, true) && Bounded(ents, a, l + 1, end + 1, key, false)
    requires multiset(b) == multiset(a) && Unchanged(b, a, start, l)
    requires Slots(b, start, l) && Sorted(ents, b, start, l)
    requires multiset(c) == multiset(b) && Unchanged(c, b, l + 1, end + 1)
    requires Slots(c, l + 1, end + 1) && Sorted(ents, c, l + 1, end + 1)
    ensures Slots(c, start, end + 1) && Sorted(ents, c, start, end + 1)
    ensures Unchanged(c, a, start, end + 1)
  {
    BoundedPerm(ents, a, b, start, l, key, true);
    assert Bounded(ents, b, l + 1, end + 1, key, false);
    BoundedPerm(ents, b, c, l + 1, end + 1, key, false);
    assert c[l] == a[l];
    assert Bounded(ents, c, start, l, key, true) && Sorted(ents, c, start, l);
    JoinSorted(ents, c, start, l, end, key);
  }

  lemma JoinSorted(ents: seq<Entry>, c: seq<int>, start: int, l: int, end: int, key: int64)
    requires 0 <= start <= l <= end < |c| && KeyAt(ents, c[l]) == key
    requires Bounded(ents, c, start, l, key, true) && Bounded(ents, c, l + 1, end + 1, key, false)
    requires Sorted(ents, c, start, l) && Sorted(ents, c, l + 1, end + 1)
    ensures Sorted(ents, c, start, end + 1)
  {
  }
}
