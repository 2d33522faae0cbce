// The range scan of the "lb" tree (cclbtree_lb.h `tree::scan`): from the
// bottom node the descent reaches for minkey, it walks the children of the
// level-0 inodes in order, following each inode's `next` word, and pushes
// the values of each bottom node's cache and of its leaf's live slots.  Only
// the first bottom node is filtered by minkey; the walk stops once the
// buffer holds len values or the inode list ends.  The level-0 inodes are
// given as the sequence of their children's contents, in list order.

module LbScan {
  import opened Bits

  datatype Pair = Pair(k: int64, v: int64)

  /** A bottom node as the scan reads it: the cached pairs
      `cache[0..counter)` and its leaf's bitmap and slots. */
  datatype Bottom = Bottom(cache: seq<Pair>, bitmap: seq<bool>, ent: seq<Pair>)

  ghost predicate WfBottom(n: Bottom)
  {
    |n.bitmap| == |n.ent|
  }

  /** Whether the scan pushes a pair: every pair after the first node,
      only keys from minkey on within it. */
  predicate Keeps(p: Pair, first: bool, minkey: int64)
  {
    !first || p.k >= minkey
  }

  /** The values pushed for the cached pairs ps. */
  function FromCache(ps: seq<Pair>, first: bool, minkey: int64): (out: seq<int64>)
    ensures |out| <= |ps|
  {
    if ps == [] then []
    else
      var p := ps[|ps| - 1];
      FromCache(ps[..|ps| - 1], first, minkey) + (if Keeps(p, first, minkey) then [p.v] else [])
  }

  /** The values pushed for the live slots of a leaf, in slot order. */
  function FromLeaf(bm: seq<bool>, ent: seq<Pair>, first: bool, minkey: int64): (out: seq<int64>)
    requires |bm| == |ent|
    ensures |out| <= PopCount(bm)
  {
    if bm == [] then []
    else
      var p := ent[|ent| - 1];
      FromLeaf(bm[..|bm| - 1], ent[..|ent| - 1], first, minkey) +
      (if bm[|bm| - 1] && Keeps(p, first, minkey) then [p.v] else [])
  }

  /** The values pushed for one bottom node. */
  function Emit(n: Bottom, first: bool, minkey: int64): seq<int64>
    requires WfBottom(n)
  {
    FromCache(n.cache, first, minkey) + FromLeaf(n.bitmap, n.ent, first, minkey)
  }

  /** The values pushed for the bottom nodes ns, the first one filtered. */
  function EmitAll(ns: seq<Bottom>, minkey: int64): seq<int64>
    requires forall i :: 0 <= i < |ns| ==> WfBottom(ns[i])
  {
    if ns == [] then []
    else EmitAll(ns[..|ns| - 1], minkey) + Emit(ns[|ns| - 1], |ns| == 1, minkey)
  }

  /** The bottom nodes from child i of inode at onward, in list order. */
  function Following(chain: seq<seq<Bottom>>, at: nat, i: nat): (r: seq<Bottom>)
    requires WfChain(chain) && at < |chain| && i <= |chain[at]|
    ensures forall j :: 0 <= j < |r| ==> WfBottom(r[j])
    decreases |chain| - at
  {
    chain[at][i..] + (if at + 1 < |chain| then Following(chain, at + 1, 0) else [])
  }

  ghost predicate WfChain(chain: seq<seq<Bottom>>)
  {
    forall a :: 0 <= a < |chain| ==> |chain[a]| > 0 && WfNodes(chain[a])
  }

  /** Unfiltered, a node pushes its cached values and one value per live
      slot: `counter` plus the leaf's `num()`. */
  lemma {:induction false} EmitCount(n: Bottom, minkey: int64)
    requires WfBottom(n)
    ensures |Emit(n, false, minkey)| == |n.cache| + PopCount(n.bitmap)
  {
    CacheCount(n.cache, minkey);
    LeafCount(n.bitmap, n.ent, minkey);
  }

  lemma {:induction false} CacheCount(ps: seq<Pair>, minkey: int64)
    ensures |FromCache(ps, false, minkey)| == |ps|
  {
    if ps != [] {
      CacheCount(ps[..|ps| - 1], minkey);
    }
  }

  lemma {:induction false} LeafCount(bm: seq<bool>, ent: seq<Pair>, minkey: int64)
    requires |bm| == |ent|
    ensures |FromLeaf(bm, ent, false, minkey)| == PopCount(bm)
  {
    if bm != [] {
      LeafCount(bm[..|bm| - 1], ent[..|ent| - 1], minkey);
    }
  }

  /** Filtered, every value pushed is the value of a cached pair or live
      slot whose key is at least minkey. */
  lemma {:induction false} CacheFiltered(ps: seq<Pair>, minkey: int64, x: int64)
    requires x in FromCache(ps, true, minkey)
    ensures exists j :: 0 <= j < |ps| && ps[j].k >= minkey && ps[j].v == x
  {
    var p := ps[|ps| - 1];
    if x in FromCache(ps[..|ps| - 1], true, minkey) {
      CacheFiltered(ps[..|ps| - 1], minkey, x);
      var j :| 0 <= j < |ps| - 1 && ps[..|ps| - 1][j].k >= minkey && ps[..|ps| - 1][j].v == x;
      assert ps[j] == ps[..|ps| - 1][j];
    } else {
      assert ps[|ps| - 1].k >= minkey && ps[|ps| - 1].v == x;
    }
  }

  lemma {:induction false} LeafFiltered(bm: seq<bool>, ent: seq<Pair>, minkey: int64, x: int64)
    requires |bm| == |ent| && x in FromLeaf(bm, ent, true, minkey)
    ensures exists j :: 0 <= j < |bm| && bm[j] && ent[j].k >= minkey && ent[j].v == x
  {
    var n := |bm| - 1;
    if x in FromLeaf(bm[..n], ent[..n], true, minkey) {
      LeafFiltered(bm[..n], ent[..n], minkey, x);
      var j :| 0 <= j < n && bm[..n][j] && ent[..n][j].k >= minkey && ent[..n][j].v == x;
      assert bm[j] == bm[..n][j] && ent[j] == ent[..n][j];
    } else {
      assert bm[n] && ent[n].k >= minkey && ent[n].v == x;
    }
  }

  /** Walking one child further: the current child, then the rest. */
  lemma FollowingStep(chain: seq<seq<Bottom>>, at: nat, i: nat)
    requires WfChain(chain) && at < |chain| && i < |chain[at]|
    ensures Following(chain, at, i) == [chain[at][i]] +
      (if i + 1 < |chain[at]| then Following(chain, at, i + 1)
       else if at + 1 < |chain| then Following(chain, at + 1, 0)
       else [])
  {
    assert chain[at][i..] == [chain[at][i]] + chain[at][i + 1..];
  }

  /** Where the walk stands: node n of F is child ib of inode ci. */
  ghost predicate At(chain: seq<seq<Bottom>>, F: seq<Bottom>, n: nat, ci: nat, ib: nat)
    requires WfChain(chain)
  {
    ci < |chain| && ib < |chain[ci]| && n < |F| && F[n..] == Following(chain, ci, ib)
  }

  /** The walk advances to the next child of the same inode, to child 0 of
      the next inode, or stops at the end of the list. */
  lemma Advance(chain: seq<seq<Bottom>>, F: seq<Bottom>, n: nat, ci: nat, ib: nat)
    requires WfChain(chain) && At(chain, F, n, ci, ib)
    ensures F[n] == chain[ci][ib]
    ensures ib + 1 < |chain[ci]| ==> At(chain, F, n + 1, ci, ib + 1)
    ensures ib + 1 == |chain[ci]| && ci + 1 < |chain| ==> At(chain, F, n + 1, ci + 1, 0)
    ensures ib + 1 == |chain[ci]| && ci + 1 == |chain| ==> n + 1 == |F|
  {
    FollowingStep(chain, ci, ib);
    assert F[n..][0] == F[n];
    assert F[n + 1..] == F[n..][1..];
  }

  /** Pushing the values of the next node extends the emitted values. */
  lemma EmitNext(F: seq<Bottom>, n: nat, minkey: int64)
    requires n < |F| && forall j :: 0 <= j < |F| ==> WfBottom(F[j])
    ensures EmitAll(F[..n + 1], minkey) == EmitAll(F[..n], minkey) + Emit(F[n], n == 0, minkey)
  {
    assert F[..n + 1][..n] == F[..n];
  }

  ghost predicate WfNodes(F: seq<Bottom>)
  {
    forall j :: 0 <= j < |F| ==> WfBottom(F[j])
  }

  /** No node among the first n was reached with len values already held. */
  ghost predicate Below(F: seq<Bottom>, n: nat, len: nat, minkey: int64)
    requires n <= |F| && WfNodes(F)
  {
    forall j :: 0 <= j < n ==> |EmitAll(F[..j], minkey)| < len
  }

  lemma BelowNext(F: seq<Bottom>, n: nat, len: nat, minkey: int64)
    requires n < |F| && WfNodes(F)
    requires Below(F, n, len, minkey) && |EmitAll(F[..n], minkey)| < len
    ensures Below(F, n + 1, len, minkey)
  {
  }

  /** The loop state of the scan after n nodes: the walk stands at node n,
      buf holds what the first n pushed, and each was reached below len. */
  ghost predicate Scanned(chain: seq<seq<Bottom>>, F: seq<Bottom>, minkey: int64, len: nat,
                          n: nat, ci: nat, ib: nat, buf: seq<int64>)
    requires WfChain(chain) && WfNodes(F)
  {
    At(chain, F, n, ci, ib) && buf == EmitAll(F[..n], minkey) && Below(F, n, len, minkey)
  }

  /** One round of the scan: push node n and move to the next child. */
  lemma ScanStep(chain: seq<seq<Bottom>>, F: seq<Bottom>, minkey: int64, len: nat,
                 n: nat, ci: nat, ib: nat, buf: seq<int64>)
    requires WfChain(chain) && WfNodes(F)
    requires Scanned(chain, F, minkey, len, n, ci, ib, buf) && |buf| < len
    ensures F[n] == chain[ci][ib]
    ensures var buf' := buf + Emit(chain[ci][ib], n == 0, minkey);
      if ib + 1 < |chain[ci]| then Scanned(chain, F, minkey, len, n + 1, ci, ib + 1, buf')
      else if ci + 1 < |chain| then Scanned(chain, F, minkey, len, n + 1, ci + 1, 0, buf')
      else n + 1 == |F| && buf' == EmitAll(F[..n + 1], minkey) && Below(F, n + 1, len, minkey)
  {
    Advance(chain, F, n, ci, ib);
    EmitNext(F, n, minkey);
    BelowNext(F, n, len, minkey);
  }

  /** The values of a bottom node: the cache loop, then the leaf loop. */
  method EmitNode(n: Bottom, first: bool, minkey: int64) returns (out: seq<int64>)
    requires WfBottom(n)
    ensures out == Emit(n, first, minkey)
  {
    var c := EmitCache(n.cache, first, minkey);
    var l := EmitLeaf(n.bitmap, n.ent, first, minkey);
    out := c + l;
  }

  /** `for (b = 0; b < bn->counter; b++)`: the cached values. */
  method EmitCache(ps: seq<Pair>, first: bool, minkey: int64) returns (out: seq<int64>)
    ensures out == FromCache(ps, first, minkey)
  {
    out := [];
    var b := 0;
    while b < |ps|
      invariant b <= |ps| && out == FromCache(ps[..b], first, minkey)
    {
      assert ps[..b + 1][..b] == ps[..b];
      if Keeps(ps[b], first, minkey) {
        out := out + [ps[b].v];
      }
      b := b + 1;
    }
    assert ps[..b] == ps;
  }

  /** `for (b = 0; b < LEAF_KEY_NUM; b++)`: the values of the live slots. */
  method EmitLeaf(bm: seq<bool>, ent: seq<Pair>, first: bool, minkey: int64) returns (out: seq<int64>)
    requires |bm| == |ent|
    ensures out == FromLeaf(bm, ent, first, minkey)
  {
    out := [];
    var b := 0;
    while b < |bm|
      invariant b <= |bm| && out == FromLeaf(bm[..b], ent[..b], first, minkey)
    {
      assert bm[..b + 1][..b] == bm[..b] && ent[..b + 1][..b] == ent[..b];
      if bm[b] && Keeps(ent[b], first, minkey) {
        out := out + [ent[b].v];
      }
      b := b + 1;
    }
    assert bm[..b] == bm && ent[..b] == ent;
  }

  /** The scan from child i0 of level-0 inode at (where the descent for
      minkey ended): the values of the first n bottom nodes in list order,
      where a node is visited only while fewer than len values are held,
      and the walk ends early only when the list is exhausted. */
  method Scan(minkey: int64, len: nat, chain: seq<seq<Bottom>>, at: nat, i0: nat) returns (buf: seq<int64>, ghost n: nat)
    requires WfChain(chain) && at < |chain| && i0 < |chain[at]|
    ensures n <= |Following(chain, at, i0)|
    ensures buf == EmitAll(Following(chain, at, i0)[..n], minkey)
    ensures n == |Following(chain, at, i0)| || len <= |buf|
    ensures forall j :: 0 <= j < n ==> |EmitAll(Following(chain, at, i0)[..j], minkey)| < len
  {
    ghost var F := Following(chain, at, i0);
    assert WfNodes(F);
    var ci: nat, ib: nat := at, i0;
    var first := true;
    buf, n := [], 0;
    while |buf| < len
      invariant Scanned(chain, F, minkey, len, n, ci, ib, buf) && first == (n == 0)
      decreases |F| - n
    {
      ScanStep(chain, F, minkey, len, n, ci, ib, buf);
      var out := EmitNode(chain[ci][ib], first, minkey);
      buf, n := buf + out, n + 1;
      if ib + 1 < |chain[ci]| {
        ib := ib + 1;
      } else if ci + 1 < |chain| {
        ci, ib := ci + 1, 0;
      } else {
        return;
      }
      first := false;
    }
  }
}
