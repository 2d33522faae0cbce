// The range scan of the ff tree, `btree::btree_search_range`: after the
// descent to the lowest inner level, it walks that level's pages through
// their `sibling` pointers and, on each page, reads the bottom nodes the
// page points to with `get_range_key_from_lnode`.  The pages are given in
// the order the walk meets them and the bottom nodes by address.  With no
// writer running every version and switch-counter check passes, so each
// page and node is read once.

module FfRange {
  import opened Bits
  import opened FairPage
  import FR = FairRange
  import LN = LeafNode
  import LM = LeafMerge
  import BN = BottomNode

  /** A bottom node as the scan reads it: its cache, its counter and the
      image of its leaf. */
  datatype Bottom = Bottom(cache: seq<LN.Entry>, counter: nat, im: LM.Image)

  ghost predicate WfBottom(b: Bottom)
  {
    b.counter <= |b.cache| && LM.WfImage(b.im)
  }

  /** A page of the lowest inner level: its records, its leftmost child and
      its switch counter. */
  datatype InnerPage = InnerPage(rs: seq<Rec>, lm: nat, sc: nat)

  /** What the scan holds: the values in `buf` (their number is `off`) and
      `if_find_a_small_key`. */
  datatype Acc = Acc(vals: seq<int64>, small: bool)

  /** p is a bottom node of nodes; any other address reads as NULL. */
  ghost predicate IsNode(nodes: map<nat, Bottom>, p: nat)
  {
    p != NULL && p in nodes && WfBottom(nodes[p])
  }

  /** What one visit of a bottom node gives: the values it emits and
      whether it holds a key below min. */
  datatype Res = Res(vals: seq<int64>, small: bool)

  /** `get_range_key_from_lnode` on the node at p: the values of its range
      from min on, and `if_find_a_small_key`. */
  ghost function NodeRes(nodes: map<nat, Bottom>, p: nat, min: int64): Res
    requires IsNode(nodes, p)
  {
    var b := nodes[p];
    Res(BN.ValuesOf(BN.RangeOf(b.cache, b.counter, b.im, min)), BN.HasSmall(b.cache, b.counter, b.im, min, LN.SLOTS))
  }

  /** tab holds, for every bottom node of nodes and nothing else, what a
      visit from min gives.  The scan is stated over such a table, so that
      reasoning about the order of visits does not unfold the nodes. */
  ghost predicate Tabulates(nodes: map<nat, Bottom>, min: int64, tab: map<nat, Res>)
  {
    (forall p :: p in tab <==> IsNode(nodes, p)) &&
    (forall p {:trigger NodeRes(nodes, p, min)} :: IsNode(nodes, p) ==> p in tab && tab[p] == NodeRes(nodes, p, min))
  }

  ghost function Table(nodes: map<nat, Bottom>, min: int64): (tab: map<nat, Res>)
    ensures Tabulates(nodes, min, tab)
  {
    var tab := map p | p in nodes && IsNode(nodes, p) :: NodeRes(nodes, p, min);
    assert forall p :: IsNode(nodes, p) ==> p in tab && tab[p] == NodeRes(nodes, p, min);
    tab
  }

  /** The values the visit of p emits; NULL emits nothing. */
  function Vals(tab: map<nat, Res>, p: nat): seq<int64>
  {
    if p in tab then tab[p].vals else []
  }

  /** One call of `get_range_key_from_lnode`: a NULL child leaves the
      values and the flag as they were. */
  function Visit(tab: map<nat, Res>, p: nat, a: Acc): Acc
  {
    if p in tab then Acc(a.vals + tab[p].vals, tab[p].small) else a
  }

  /** The forward read visits ts in order, ending the page after a visit
      that leaves at least len values. */
  function FwdWalk(tab: map<nat, Res>, ts: seq<nat>, len: nat, a: Acc): Acc
  {
    if ts == [] then a
    else
      var b := FwdWalk(tab, ts[..|ts| - 1], len, a);
      if |b.vals| >= len then b else Visit(tab, ts[|ts| - 1], b)
  }

  /** The backward read visits ts in order, ending the page after a visit
      that leaves the flag set; the first visit is made whatever the flag
      holds. */
  function BwdWalk(tab: map<nat, Res>, ts: seq<nat>, a: Acc): Acc
  {
    if ts == [] then a
    else
      var b := BwdWalk(tab, ts[..|ts| - 1], a);
      if |ts| > 1 && b.small then b else Visit(tab, ts[|ts| - 1], b)
  }

  /** `records[i].ptr` for each i below n whose right neighbour's key is
      not below min, in record order. */
  function Children(rs: seq<Rec>, n: nat, min: int64): seq<nat>
    requires n < |rs|
  {
    if n == 0 then []
    else Children(rs, n - 1, min) + (if rs[n].key < min then [] else [rs[n - 1].ptr])
  }

  /** The children the forward read visits: the leftmost one when record
      0's key is above min, then Children. */
  function FwdTargets(rs: seq<Rec>, lm: nat, min: int64): seq<nat>
    requires Live(rs) < |rs|
  {
    (if rs[0].key > min then [lm] else []) + Children(rs, Live(rs), min)
  }

  /** `records[n - 1].ptr` down to `records[lo].ptr`. */
  function Down(rs: seq<Rec>, n: nat, lo: nat): (r: seq<nat>)
    requires n <= |rs|
    ensures |r| == if n <= lo then 0 else n - lo
    ensures forall j :: 0 <= j < |r| ==> r[j] == rs[n - 1 - j].ptr
  {
    if n <= lo then [] else [rs[n - 1].ptr] + Down(rs, n - 1, lo)
  }

  /** The children the backward read visits: `for (i = count() - 1; i >=
      lo; --i)`, then the leftmost one.  As written lo is 1 (`i > 0`). */
  function BwdTargets(rs: seq<Rec>, lm: nat, lo: nat): seq<nat>
  {
    Down(rs, Live(rs), lo) + [lm]
  }

  /** One page, read in the direction its switch counter names. */
  function PageScan(tab: map<nat, Res>, pg: InnerPage, min: int64, len: nat, lo: nat, a: Acc): Acc
    requires Live(pg.rs) < |pg.rs|
  {
    if IsForward(pg.sc) then FwdWalk(tab, FwdTargets(pg.rs, pg.lm, min), len, a)
    else BwdWalk(tab, BwdTargets(pg.rs, pg.lm, lo), a)
  }

  ghost predicate Paged(chain: seq<InnerPage>)
  {
    forall j :: 0 <= j < |chain| ==> Live(chain[j].rs) < |chain[j].rs|
  }

  /** The scan from page k on, holding a: `while (current && off <
      len)`. */
  function SearchFrom(tab: map<nat, Res>, chain: seq<InnerPage>, k: nat, min: int64, len: nat, lo: nat, a: Acc): Acc
    requires k <= |chain| && Paged(chain)
    decreases |chain| - k
  {
    if k == |chain| || |a.vals| >= len then a
    else SearchFrom(tab, chain, k + 1, min, len, lo, PageScan(tab, chain[k], min, len, lo, a))
  }

  /** The whole scan, with `buf` empty and the flag false at the start. */
  function Search(tab: map<nat, Res>, chain: seq<InnerPage>, min: int64, len: nat, lo: nat): Acc
    requires Paged(chain)
  {
    SearchFrom(tab, chain, 0, min, len, lo, Acc([], false))
  }

  // ------------------------------------------------ what the scan should give

  /** The values the nodes ts emit, one node after the other. */
  function Gathered(tab: map<nat, Res>, ts: seq<nat>): seq<int64>
  {
    if ts == [] then [] else Gathered(tab, ts[..|ts| - 1]) + Vals(tab, ts[|ts| - 1])
  }

  /** `records[0].ptr` up to `records[n - 1].ptr`. */
  function Ptrs(rs: seq<Rec>, n: nat): (r: seq<nat>)
    requires n <= |rs|
    ensures |r| == n && forall i :: 0 <= i < n ==> r[i] == rs[i].ptr
  {
    if n == 0 then [] else Ptrs(rs, n - 1) + [rs[n - 1].ptr]
  }

  /** Every child of a page, left to right: the leftmost one, then the
      live records' pointers. */
  function AllChildren(pg: InnerPage): seq<nat>
  {
    [pg.lm] + Ptrs(pg.rs, Live(pg.rs))
  }

  /** The children in the order the page is read: left to right forward,
      right to left backward. */
  function PageOrder(pg: InnerPage): seq<nat>
  {
    if IsForward(pg.sc) then AllChildren(pg) else FR.Rev(AllChildren(pg))
  }

  /** What the scan from page k on should give, with no cut at len: the
      values of every child of every page, each page in its order. */
  function WantFrom(tab: map<nat, Res>, chain: seq<InnerPage>, k: nat): seq<int64>
    requires k <= |chain|
    decreases |chain| - k
  {
    if k == |chain| then [] else Gathered(tab, PageOrder(chain[k])) + WantFrom(tab, chain, k + 1)
  }

  /** The live keys of a bottom node: its cached entries below the counter
      and its leaf's live slots. */
  ghost predicate Holds(b: Bottom, x: int64)
    requires WfBottom(b)
  {
    (exists i :: 0 <= i < b.counter && b.cache[i].k == x) ||
    (exists i :: 0 <= i < LN.SLOTS && b.im.bm[i] && b.im.ents[i].k == x)
  }

  /** Every key the node at p holds lies in [lo, hi). */
  ghost predicate KeysIn(nodes: map<nat, Bottom>, p: nat, lo: int, hi: int)
  {
    IsNode(nodes, p) ==> forall x :: Holds(nodes[p], x) ==> lo <= x as int < hi
  }

  /** The separator invariant of a page of the lowest inner level: the
      live keys are sorted, the leftmost child holds keys below record 0's
      key, and the child of record i holds keys from record i's key up to
      record i + 1's (for the last live record, the sentinel's). */
  ghost predicate Separated(nodes: map<nat, Bottom>, pg: InnerPage)
  {
    var rs, L := pg.rs, Live(pg.rs);
    L < |rs| && Sorted(rs, L) &&
    KeysIn(nodes, pg.lm, -0x8000_0000_0000_0000, rs[0].key as int) &&
    forall i :: 0 <= i < L ==> KeysIn(nodes, rs[i].ptr, rs[i].key as int, rs[i + 1].key as int)
  }

  // ------------------------------------------------ lemmas

  lemma {:induction false} GatheredAppend(tab: map<nat, Res>, s: seq<nat>, t: seq<nat>)
    ensures Gathered(tab, s + t) == Gathered(tab, s) + Gathered(tab, t)
  {
    if t == [] {
      assert s + t == s;
    } else {
      var t' := t[..|t| - 1];
      GatheredAppend(tab, s, t');
      assert (s + t)[..|s + t| - 1] == s + t' && (s + t)[|s + t| - 1] == t[|t| - 1];
    }
  }

  lemma GatheredOne(tab: map<nat, Res>, p: nat)
    ensures Gathered(tab, [p]) == Vals(tab, p)
  {
    assert [p][..0] == [];
  }

  lemma {:induction false} CacheRangeEmpty(c: seq<LN.Entry>, n: nat, min: int64)
    requires n <= |c| && forall i :: 0 <= i < n ==> c[i].k < min
    ensures BN.CacheRange(c, n, min) == []
  {
    if n > 0 {
      CacheRangeEmpty(c, n - 1, min);
    }
  }

  lemma {:induction false} LeafRangeEmpty(im: LM.Image, min: int64, keys: seq<int64>, n: nat)
    requires LM.WfImage(im) && n <= LN.SLOTS
    requires forall i :: 0 <= i < n && im.bm[i] ==> im.ents[i].k < min
    ensures BN.LeafRange(im, min, keys, n) == []
  {
    if n > 0 {
      LeafRangeEmpty(im, min, keys, n - 1);
    }
  }

  /** A node whose keys all lie below min emits nothing. */
  lemma EmptyBelow(nodes: map<nat, Bottom>, min: int64, tab: map<nat, Res>, p: nat, lo: int, hi: int)
    requires Tabulates(nodes, min, tab) && KeysIn(nodes, p, lo, hi) && hi <= min as int
    ensures Vals(tab, p) == []
  {
    if p in tab {
      var b := nodes[p];
      assert tab[p] == NodeRes(nodes, p, min);
      forall i | 0 <= i < b.counter ensures b.cache[i].k < min {
        assert Holds(b, b.cache[i].k);
      }
      forall i | 0 <= i < LN.SLOTS && b.im.bm[i] ensures b.im.ents[i].k < min {
        assert Holds(b, b.im.ents[i].k);
      }
      CacheRangeEmpty(b.cache, b.counter, min);
      LeafRangeEmpty(b.im, min, [], LN.SLOTS);
      assert BN.KeysOf([]) == [];
    }
  }

  /** A node holding a key below min has its lower bound below min. */
  lemma SmallAbove(nodes: map<nat, Bottom>, min: int64, tab: map<nat, Res>, p: nat, lo: int, hi: int)
    requires Tabulates(nodes, min, tab) && p in tab && tab[p].small && KeysIn(nodes, p, lo, hi)
    ensures lo < min as int
  {
    var b := nodes[p];
    assert tab[p] == NodeRes(nodes, p, min);
    if exists i :: 0 <= i < b.counter && b.cache[i].k < min {
      var i :| 0 <= i < b.counter && b.cache[i].k < min;
      assert Holds(b, b.cache[i].k);
    } else {
      var i :| 0 <= i < LN.SLOTS && b.im.bm[i] && b.im.ents[i].k < min;
      assert Holds(b, b.im.ents[i].k);
    }
  }

  /** The forward read gives the leading part of what its targets emit:
      all of it, or a part holding at least len values. */
  lemma {:induction false} FwdCut(tab: map<nat, Res>, ts: seq<nat>, len: nat, a: Acc)
    ensures var r := FwdWalk(tab, ts, len, a);
      r.vals <= a.vals + Gathered(tab, ts) &&
      (r.vals == a.vals + Gathered(tab, ts) || |r.vals| >= len)
  {
    if ts != [] {
      var f, x := ts[..|ts| - 1], ts[|ts| - 1];
      FwdCut(tab, f, len, a);
      var g, v := Gathered(tab, f), Vals(tab, x);
      assert a.vals + Gathered(tab, ts) == (a.vals + g) + v;
      var b := FwdWalk(tab, f, len, a);
      if |b.vals| < len {
        assert FwdWalk(tab, ts, len, a).vals == b.vals + v;
      }
    }
  }

  lemma {:induction false} ChildrenSafe(nodes: map<nat, Bottom>, min: int64, tab: map<nat, Res>, pg: InnerPage, n: nat)
    requires Tabulates(nodes, min, tab) && Separated(nodes, pg) && n <= Live(pg.rs)
    ensures Gathered(tab, Children(pg.rs, n, min)) == Gathered(tab, Ptrs(pg.rs, n))
  {
    var rs := pg.rs;
    if n > 0 {
      ChildrenSafe(nodes, min, tab, pg, n - 1);
      var p := rs[n - 1].ptr;
      GatheredAppend(tab, Ptrs(rs, n - 1), [p]);
      GatheredOne(tab, p);
      var extra := if rs[n].key < min then [] else [p];
      GatheredAppend(tab, Children(rs, n - 1, min), extra);
      if rs[n].key < min {
        assert KeysIn(nodes, p, rs[n - 1].key as int, rs[n].key as int);
        EmptyBelow(nodes, min, tab, p, rs[n - 1].key as int, rs[n].key as int);
      }
    }
  }

  /** Skipping loses nothing: under the separator invariant, the children
      the forward read skips emit no value. */
  lemma FwdSkipSafe(nodes: map<nat, Bottom>, min: int64, tab: map<nat, Res>, pg: InnerPage)
    requires Tabulates(nodes, min, tab) && Separated(nodes, pg)
    ensures Gathered(tab, FwdTargets(pg.rs, pg.lm, min)) == Gathered(tab, AllChildren(pg))
  {
    var rs, L := pg.rs, Live(pg.rs);
    var head := if rs[0].key > min then [pg.lm] else [];
    GatheredAppend(tab, head, Children(rs, L, min));
    GatheredAppend(tab, [pg.lm], Ptrs(rs, L));
    GatheredOne(tab, pg.lm);
    ChildrenSafe(nodes, min, tab, pg, L);
    if rs[0].key <= min {
      EmptyBelow(nodes, min, tab, pg.lm, -0x8000_0000_0000_0000, rs[0].key as int);
    }
  }

  lemma {:induction false} DownIsRev(rs: seq<Rec>, n: nat)
    requires n <= |rs|
    ensures Down(rs, n, 0) == FR.Rev(Ptrs(rs, n))
  {
    if n > 0 {
      DownIsRev(rs, n - 1);
      FR.RevAppend(Ptrs(rs, n - 1), [rs[n - 1].ptr]);
      assert FR.Rev([rs[n - 1].ptr]) == [rs[n - 1].ptr];
    }
  }

  /** Reading from lo = 0 visits every child, right to left. */
  lemma BwdIsRev(pg: InnerPage)
    ensures BwdTargets(pg.rs, pg.lm, 0) == FR.Rev(AllChildren(pg))
  {
    var P := Ptrs(pg.rs, Live(pg.rs));
    DownIsRev(pg.rs, Live(pg.rs));
    FR.RevAppend([pg.lm], P);
    assert FR.Rev([pg.lm]) == [pg.lm];
  }

  /** Once the child of record i holds a key below min, neither the
      children of the records left of it nor the leftmost child emit
      anything: they come after it in the backward order. */
  lemma QuietAfter(nodes: map<nat, Bottom>, min: int64, tab: map<nat, Res>, pg: InnerPage, i: nat)
    requires Tabulates(nodes, min, tab) && Separated(nodes, pg) && i < Live(pg.rs) && pg.rs[i].key < min
    ensures var ts := BwdTargets(pg.rs, pg.lm, 0);
      forall m :: Live(pg.rs) - i <= m < |ts| ==> Vals(tab, ts[m]) == []
  {
    var rs, L := pg.rs, Live(pg.rs);
    var ts := BwdTargets(rs, pg.lm, 0);
    forall m | L - i <= m < |ts| ensures Vals(tab, ts[m]) == [] {
      if m < L {
        var i' := L - 1 - m;
        assert ts[m] == rs[i'].ptr;
        assert KeysIn(nodes, rs[i'].ptr, rs[i'].key as int, rs[i' + 1].key as int);
        assert rs[i' + 1].key <= rs[i].key;
        EmptyBelow(nodes, min, tab, rs[i'].ptr, rs[i'].key as int, rs[i' + 1].key as int);
      } else {
        assert ts[m] == pg.lm;
        assert rs[0].key <= rs[i].key;
        EmptyBelow(nodes, min, tab, pg.lm, -0x8000_0000_0000_0000, rs[0].key as int);
      }
    }
  }

  /** What the first j visits of the backward read from lo = 0 keep: they
      emit all their targets emit, and once the flag is set no later
      target emits anything. */
  ghost predicate BwdSoFar(tab: map<nat, Res>, ts: seq<nat>, a: Acc, j: nat)
    requires j <= |ts|
  {
    var w := BwdWalk(tab, ts[..j], a);
    w.vals == a.vals + Gathered(tab, ts[..j]) &&
    (j >= 1 && w.small ==> forall m :: j <= m < |ts| ==> Vals(tab, ts[m]) == [])
  }

  lemma {:induction false} BwdPrefix(nodes: map<nat, Bottom>, min: int64, tab: map<nat, Res>, pg: InnerPage, a: Acc, j: nat)
    requires Tabulates(nodes, min, tab) && Separated(nodes, pg) && Linked(nodes, pg) && j <= Live(pg.rs) + 1
    ensures BwdSoFar(tab, BwdTargets(pg.rs, pg.lm, 0), a, j)
  {
    var ts := BwdTargets(pg.rs, pg.lm, 0);
    if j == 0 {
      assert ts[..0] == [];
    } else {
      BwdPrefix(nodes, min, tab, pg, a, j - 1);
      BwdStep(nodes, min, tab, pg, a, j);
    }
  }

  /** Once the visit at position j - 1 of the backward order sets the
      flag, nothing from position j on emits a value. */
  lemma BwdQuiet(nodes: map<nat, Bottom>, min: int64, tab: map<nat, Res>, pg: InnerPage, j: nat)
    requires Tabulates(nodes, min, tab) && Separated(nodes, pg) && Linked(nodes, pg) && 1 <= j <= Live(pg.rs) + 1
    requires var t := BwdTargets(pg.rs, pg.lm, 0)[j - 1]; t in tab && tab[t].small
    ensures var ts := BwdTargets(pg.rs, pg.lm, 0);
      forall m :: j <= m < |ts| ==> Vals(tab, ts[m]) == []
  {
    var rs, L := pg.rs, Live(pg.rs);
    var ts := BwdTargets(rs, pg.lm, 0);
    if j - 1 < L {
      var i := L - j;
      var t := ts[j - 1];
      assert t == rs[i].ptr;
      assert KeysIn(nodes, rs[i].ptr, rs[i].key as int, rs[i + 1].key as int);
      SmallAbove(nodes, min, tab, t, rs[i].key as int, rs[i + 1].key as int);
      QuietAfter(nodes, min, tab, pg, i);
    }
  }

  /** One step of BwdSoFar over any targets ts, given that a visit at
      position j - 1 which sets the flag leaves nothing after it to emit,
      and that a first target which is not a node is the only one. */
  lemma SoFarStep(tab: map<nat, Res>, ts: seq<nat>, a: Acc, j: nat)
    requires 1 <= j <= |ts| && BwdSoFar(tab, ts, a, j - 1)
    requires ts[j - 1] in tab && tab[ts[j - 1]].small ==> forall m :: j <= m < |ts| ==> Vals(tab, ts[m]) == []
    requires j == 1 && ts[0] !in tab ==> |ts| == 1
    ensures BwdSoFar(tab, ts, a, j)
  {
    var f, t, p := ts[..j - 1], ts[j - 1], ts[..j];
    assert p[..j - 1] == f && p[j - 1] == t;
    var b, w, gf := BwdWalk(tab, f, a), BwdWalk(tab, p, a), Gathered(tab, f);
    assert Gathered(tab, p) == gf + Vals(tab, t);
    if j > 1 && b.small {
      assert w == b;
      assert Vals(tab, t) == [];
      assert w.vals == a.vals + Gathered(tab, p);
    } else {
      assert w == Visit(tab, t, b);
      assert w.vals == (a.vals + gf) + Vals(tab, t);
      assert w.vals == a.vals + Gathered(tab, p);
    }
  }

  lemma BwdStep(nodes: map<nat, Bottom>, min: int64, tab: map<nat, Res>, pg: InnerPage, a: Acc, j: nat)
    requires Tabulates(nodes, min, tab) && Separated(nodes, pg) && Linked(nodes, pg) && 1 <= j <= Live(pg.rs) + 1
    requires BwdSoFar(tab, BwdTargets(pg.rs, pg.lm, 0), a, j - 1)
    ensures BwdSoFar(tab, BwdTargets(pg.rs, pg.lm, 0), a, j)
  {
    var ts := BwdTargets(pg.rs, pg.lm, 0);
    var L := Live(pg.rs);
    var t := ts[j - 1];
    if L > 0 {
      assert ts[0] == pg.rs[L - 1].ptr;
    }
    if t in tab && tab[t].small {
      BwdQuiet(nodes, min, tab, pg, j);
    }
    SoFarStep(tab, ts, a, j);
  }

  /** Stopping early loses nothing: under the separator invariant, the
      backward read from lo = 0 gives everything the page's children emit,
      right to left. */
  lemma BwdStopSafe(nodes: map<nat, Bottom>, min: int64, tab: map<nat, Res>, pg: InnerPage, a: Acc)
    requires Tabulates(nodes, min, tab) && Separated(nodes, pg) && Linked(nodes, pg)
    ensures BwdWalk(tab, BwdTargets(pg.rs, pg.lm, 0), a).vals == a.vals + Gathered(tab, FR.Rev(AllChildren(pg)))
  {
    var ts := BwdTargets(pg.rs, pg.lm, 0);
    BwdIsRev(pg);
    BwdPrefix(nodes, min, tab, pg, a, |ts|);
    assert ts[..|ts|] == ts;
  }

  ghost predicate SeparatedAll(nodes: map<nat, Bottom>, chain: seq<InnerPage>)
  {
    forall j :: 0 <= j < |chain| ==> Separated(nodes, chain[j])
  }

  /** One page, read from lo = 0, gives the leading part of what its
      children emit in its order: all of it, or a part that brings the
      values held to at least len. */
  lemma PageCut(nodes: map<nat, Bottom>, min: int64, tab: map<nat, Res>, pg: InnerPage, len: nat, a: Acc)
    requires Tabulates(nodes, min, tab) && Separated(nodes, pg) && Linked(nodes, pg)
    ensures var r := PageScan(tab, pg, min, len, 0, a);
      var g := a.vals + Gathered(tab, PageOrder(pg));
      r.vals <= g && (r.vals == g || |r.vals| >= len)
  {
    if IsForward(pg.sc) {
      FwdCut(tab, FwdTargets(pg.rs, pg.lm, min), len, a);
      FwdSkipSafe(nodes, min, tab, pg);
    } else {
      BwdStopSafe(nodes, min, tab, pg, a);
    }
  }

  lemma PrefixTrans<T>(x: seq<T>, y: seq<T>, z: seq<T>)
    requires x <= y && y <= z
    ensures x <= z
  {
    assert x == y[..|x|] && y == z[..|y|];
    assert z[..|y|][..|x|] == z[..|x|];
  }

  lemma PrefixAppend<T>(x: seq<T>, y: seq<T>)
    ensures x <= x + y
  {
    assert (x + y)[..|x|] == x;
  }

  /** The prefix step of SearchCut, on plain sequences: a page adds a
      leading part b of g to what is held, and the rest of the scan from b
      on adds a leading part of w. */
  lemma CutStep(av: seq<int64>, g: seq<int64>, w: seq<int64>, bv: seq<int64>, rv: seq<int64>, len: nat)
    requires bv <= av + g && (bv == av + g || |bv| >= len)
    requires bv == av + g ==> rv <= bv + w && (rv == bv + w || |rv| >= len)
    requires bv != av + g ==> rv == bv
    ensures rv <= av + (g + w) && (rv == av + (g + w) || |rv| >= len)
  {
    assert av + (g + w) == (av + g) + w;
    if bv != av + g {
      PrefixAppend(av + g, w);
      PrefixTrans(bv, av + g, av + (g + w));
    }
  }

  lemma PageCutAt(nodes: map<nat, Bottom>, min: int64, tab: map<nat, Res>, chain: seq<InnerPage>, k: nat, len: nat, a: Acc)
    requires Tabulates(nodes, min, tab) && k < |chain| && LinkedAll(nodes, chain) && SeparatedAll(nodes, chain)
    ensures var r := PageScan(tab, chain[k], min, len, 0, a);
      var g := a.vals + Gathered(tab, PageOrder(chain[k]));
      r.vals <= g && (r.vals == g || |r.vals| >= len)
  {
    assert Separated(nodes, chain[k]) && Linked(nodes, chain[k]);
    PageCut(nodes, min, tab, chain[k], len, a);
  }

  /** With the backward read taken from lo = 0, the scan from page k on
      adds to what it holds the leading part of WantFrom: all of it, or a
      part that brings the values held to at least len. */
  lemma {:induction false} SearchCut(nodes: map<nat, Bottom>, min: int64, tab: map<nat, Res>, chain: seq<InnerPage>, k: nat, len: nat, a: Acc)
    requires Tabulates(nodes, min, tab) && k <= |chain| && LinkedAll(nodes, chain) && SeparatedAll(nodes, chain)
    ensures var r, w := SearchFrom(tab, chain, k, min, len, 0, a), a.vals + WantFrom(tab, chain, k);
      r.vals <= w && (r.vals == w || |r.vals| >= len)
    decreases |chain| - k
  {
    var w := WantFrom(tab, chain, k);
    var r := SearchFrom(tab, chain, k, min, len, 0, a);
    PrefixAppend(a.vals, w);
    if k == |chain| {
      assert r == a && w == [];
      assert a.vals + w == a.vals;
    } else if |a.vals| >= len {
      assert r == a;
    } else {
      var pg := chain[k];
      var b := PageScan(tab, pg, min, len, 0, a);
      assert r == SearchFrom(tab, chain, k + 1, min, len, 0, b);
      PageCutAt(nodes, min, tab, chain, k, len, a);
      var g, w' := Gathered(tab, PageOrder(pg)), WantFrom(tab, chain, k + 1);
      assert w == g + w';
      if b.vals == a.vals + g {
        SearchCut(nodes, min, tab, chain, k + 1, len, b);
      } else {
        assert |b.vals| >= len;
      }
      CutStep(a.vals, g, w', b.vals, r.vals, len);
    }
  }

  /** The corrected scan, under the separator invariant: the leading part
      of WantFrom, all of it unless len values are held. */
  lemma SearchSound(nodes: map<nat, Bottom>, min: int64, tab: map<nat, Res>, chain: seq<InnerPage>, len: nat)
    requires Tabulates(nodes, min, tab) && LinkedAll(nodes, chain)
    ensures var r, w := Search(tab, chain, min, len, 0).vals, WantFrom(tab, chain, 0);
      SeparatedAll(nodes, chain) ==> r <= w && (r == w || |r| >= len)
  {
    if SeparatedAll(nodes, chain) {
      SearchCut(nodes, min, tab, chain, 0, len, Acc([], false));
      assert [] + WantFrom(tab, chain, 0) == WantFrom(tab, chain, 0);
    }
  }

  // ------------------------------------------------ the read, step by step

  /** Every child of pg is NULL or a bottom node of nodes, and the page
      ends with a sentinel. */
  ghost predicate Linked(nodes: map<nat, Bottom>, pg: InnerPage)
  {
    Live(pg.rs) < |pg.rs| &&
    (pg.lm == NULL || IsNode(nodes, pg.lm)) &&
    forall i :: 0 <= i < Live(pg.rs) ==> IsNode(nodes, pg.rs[i].ptr)
  }

  /** `get_range_key_from_lnode(p, ...)` with no writer running: nothing
      for NULL, else the node's two loops. */
  method VisitNode(nodes: map<nat, Bottom>, p: nat, min: int64, a: Acc, ghost tab: map<nat, Res>) returns (r: Acc)
    requires Tabulates(nodes, min, tab) && (p == NULL || IsNode(nodes, p))
    ensures r == Visit(tab, p, a)
  {
    if p == NULL {
      return a;
    }
    var b := nodes[p];
    ghost var res := NodeRes(nodes, p, min);
    assert tab[p] == res;
    var vals, small := BN.CollectRange(b.cache, b.counter, b.im, min);
    r := Acc(a.vals + vals, small);
  }

  /** Once the forward read holds len values, later targets change
      nothing. */
  lemma {:induction false} FwdRest(tab: map<nat, Res>, p: seq<nat>, ts: seq<nat>, len: nat, a: Acc)
    requires p <= ts && |FwdWalk(tab, p, len, a).vals| >= len
    ensures FwdWalk(tab, ts, len, a) == FwdWalk(tab, p, len, a)
  {
    if |ts| > |p| {
      FwdRest(tab, p, ts[..|ts| - 1], len, a);
    } else {
      assert ts == p;
    }
  }

  /** Once a visit of the backward read has set the flag, later targets
      change nothing. */
  lemma {:induction false} BwdRest(tab: map<nat, Res>, p: seq<nat>, ts: seq<nat>, a: Acc)
    requires p <= ts && p != [] && BwdWalk(tab, p, a).small
    ensures BwdWalk(tab, ts, a) == BwdWalk(tab, p, a)
  {
    if |ts| > |p| {
      BwdRest(tab, p, ts[..|ts| - 1], a);
    } else {
      assert ts == p;
    }
  }

  lemma {:induction false} ChildrenPrefix(rs: seq<Rec>, i: nat, j: nat, min: int64)
    requires i <= j < |rs|
    ensures Children(rs, i, min) <= Children(rs, j, min)
  {
    if i < j {
      ChildrenPrefix(rs, i, j - 1, min);
    }
  }

  lemma {:induction false} DownSnoc(rs: seq<Rec>, n: nat, i: nat)
    requires i < n <= |rs|
    ensures Down(rs, n, i) == Down(rs, n, i + 1) + [rs[i].ptr]
  {
    if n > i + 1 {
      DownSnoc(rs, n - 1, i);
    }
  }

  lemma {:induction false} DownPrefix(rs: seq<Rec>, n: nat, i: nat, lo: nat)
    requires lo <= i && n <= |rs|
    ensures Down(rs, n, i) <= Down(rs, n, lo)
    decreases i - lo
  {
    if lo < i && lo < n {
      DownPrefix(rs, n, i, lo + 1);
      DownSnoc(rs, n, lo);
    } else if lo < i {
      assert Down(rs, n, i) == [] == Down(rs, n, lo);
    }
  }

  /** The forward read of a page: the leftmost child when record 0's key
      is above min, then `for (i = 0; records[i].ptr != NULL; ++i)`,
      skipping a child whose right neighbour's key is below min; `off >=
      len` ends the page. */
  method FwdRead(nodes: map<nat, Bottom>, pg: InnerPage, min: int64, len: nat, a: Acc, ghost tab: map<nat, Res>)
    returns (r: Acc)
    requires Tabulates(nodes, min, tab) && Linked(nodes, pg) && |a.vals| < len
    ensures r == FwdWalk(tab, FwdTargets(pg.rs, pg.lm, min), len, a)
  {
    ghost var ts := FwdTargets(pg.rs, pg.lm, min);
    ghost var pre: seq<nat> := [];
    r := a;
    if pg.rs[0].key > min {
      r := VisitNode(nodes, pg.lm, min, r, tab);
      pre := [pg.lm];
      assert pre[..0] == [];
      if |r.vals| >= len {
        ChildrenPrefix(pg.rs, 0, Live(pg.rs), min);
        FwdRest(tab, pre, ts, len, a);
        return;
      }
    }
    r := FwdLoop(nodes, pg, min, len, a, tab, pre, r);
  }

  /** One more target of the forward read: visited unless len values
      are already held. */
  lemma FwdSnoc(tab: map<nat, Res>, s: seq<nat>, p: nat, len: nat, a: Acc)
    requires |FwdWalk(tab, s, len, a).vals| < len
    ensures FwdWalk(tab, s + [p], len, a) == Visit(tab, p, FwdWalk(tab, s, len, a))
  {
    assert (s + [p])[..|s|] == s;
  }

  /** Children, one record further. */
  lemma ChildrenStep(pre: seq<nat>, rs: seq<Rec>, i: nat, min: int64)
    requires i + 1 < |rs|
    ensures rs[i + 1].key < min ==> pre + Children(rs, i + 1, min) == pre + Children(rs, i, min)
    ensures rs[i + 1].key >= min ==> pre + Children(rs, i + 1, min) == (pre + Children(rs, i, min)) + [rs[i].ptr]
  {
    var c := Children(rs, i, min);
    if rs[i + 1].key < min {
      assert Children(rs, i + 1, min) == c + [];
      assert c + [] == c;
    } else {
      assert Children(rs, i + 1, min) == c + [rs[i].ptr];
    }
  }

  /** Prefixes stay prefixes behind a common head. */
  lemma PrefixBehind<T>(pre: seq<T>, x: seq<T>, y: seq<T>)
    requires x <= y
    ensures pre + x <= pre + y
  {
    assert (pre + y)[..|pre + x|] == pre + x;
  }

  /** The loop of the forward read, after the leftmost child. */
  method FwdLoop(nodes: map<nat, Bottom>, pg: InnerPage, min: int64, len: nat, ghost a: Acc, ghost tab: map<nat, Res>,
                 ghost pre: seq<nat>, r0: Acc)
    returns (r: Acc)
    requires Tabulates(nodes, min, tab) && Linked(nodes, pg)
    requires r0 == FwdWalk(tab, pre, len, a) && |r0.vals| < len
    ensures r == FwdWalk(tab, pre + Children(pg.rs, Live(pg.rs), min), len, a)
  {
    var rs := pg.rs;
    ghost var L := Live(rs);
    r := r0;
    assert pre + Children(rs, 0, min) == pre;
    var i := 0;
    while rs[i].ptr != NULL
      invariant i <= L && r == FwdWalk(tab, pre + Children(rs, i, min), len, a) && |r.vals| < len
      decreases L - i
    {
      ghost var before := pre + Children(rs, i, min);
      ChildrenStep(pre, rs, i, min);
      if rs[i + 1].key >= min {
        FwdSnoc(tab, before, rs[i].ptr, len, a);
        r := VisitNode(nodes, rs[i].ptr, min, r, tab);
        if |r.vals| >= len {
          ChildrenPrefix(rs, i + 1, L, min);
          PrefixBehind(pre, Children(rs, i + 1, min), Children(rs, L, min));
          FwdRest(tab, pre + Children(rs, i + 1, min), pre + Children(rs, L, min), len, a);
          return;
        }
      }
      i := i + 1;
    }
  }

  /** The backward read of a page: `for (i = count() - 1; i >= lo; --i)`,
      then the leftmost child; a visit that sets the flag ends the page. */
  method BwdRead(nodes: map<nat, Bottom>, pg: InnerPage, min: int64, lo: nat, a: Acc, ghost tab: map<nat, Res>)
    returns (r: Acc)
    requires Tabulates(nodes, min, tab) && Linked(nodes, pg)
    ensures r == BwdWalk(tab, BwdTargets(pg.rs, pg.lm, lo), a)
  {
    var rs := pg.rs;
    var c := Live(rs);
    ghost var ts := BwdTargets(rs, pg.lm, lo);
    r := a;
    var i: int := c - 1;
    while i >= lo
      invariant (lo <= i + 1 && i < c) || (i == c - 1 && c <= lo)
      invariant r == BwdWalk(tab, Down(rs, c, i + 1), a)
      invariant Down(rs, c, i + 1) == [] || !r.small
      decreases i
    {
      DownSnoc(rs, c, i);
      r := VisitNode(nodes, rs[i].ptr, min, r, tab);
      if r.small {
        DownPrefix(rs, c, i, lo);
        BwdRest(tab, Down(rs, c, i), ts, a);
        return;
      }
      i := i - 1;
    }
    assert Down(rs, c, i + 1) == Down(rs, c, lo);
    r := VisitNode(nodes, pg.lm, min, r, tab);
  }

  /** One page, in the direction of its switch counter. */
  method ReadInner(nodes: map<nat, Bottom>, pg: InnerPage, min: int64, len: nat, lo: nat, a: Acc, ghost tab: map<nat, Res>)
    returns (r: Acc)
    requires Tabulates(nodes, min, tab) && Linked(nodes, pg) && |a.vals| < len
    ensures r == PageScan(tab, pg, min, len, lo, a)
  {
    if IsForward(pg.sc) {
      r := FwdRead(nodes, pg, min, len, a, tab);
    } else {
      r := BwdRead(nodes, pg, min, lo, a, tab);
    }
  }

  ghost predicate LinkedAll(nodes: map<nat, Bottom>, chain: seq<InnerPage>)
  {
    Paged(chain) && forall j :: 0 <= j < |chain| ==> Linked(nodes, chain[j])
  }

  /** `btree_search_range` from the first page of the lowest inner level
      the descent reaches, with the backward read stopping at record lo. */
  method SearchRange(nodes: map<nat, Bottom>, chain: seq<InnerPage>, min: int64, len: nat, lo: nat, ghost tab: map<nat, Res>)
    returns (vals: seq<int64>)
    requires Tabulates(nodes, min, tab) && LinkedAll(nodes, chain)
    ensures vals == Search(tab, chain, min, len, lo).vals
  {
    var r := Acc([], false);
    var k := 0;
    while k < |chain| && |r.vals| < len
      invariant k <= |chain| && Search(tab, chain, min, len, lo) == SearchFrom(tab, chain, k, min, len, lo, r)
    {
      r := ReadInner(nodes, chain[k], min, len, lo, r, tab);
      k := k + 1;
    }
    vals := r.vals;
  }

  /** `btree_search_range` as written: the backward read stops before
      record 0 (`i > 0`). */
  method BtreeSearchRangeAsWritten(nodes: map<nat, Bottom>, chain: seq<InnerPage>, min: int64, len: nat)
    returns (vals: seq<int64>)
    requires LinkedAll(nodes, chain)
    ensures vals == Search(Table(nodes, min), chain, min, len, 1).vals
  {
    vals := SearchRange(nodes, chain, min, len, 1, Table(nodes, min));
  }

  /** `btree_search_range` with the backward read reaching record 0: under
      the separator invariant it gives the leading part of the values of
      every child of every page, each page in its order, stopping only
      once len values are held. */
  method BtreeSearchRange(nodes: map<nat, Bottom>, chain: seq<InnerPage>, min: int64, len: nat)
    returns (vals: seq<int64>)
    requires LinkedAll(nodes, chain)
    ensures vals == Search(Table(nodes, min), chain, min, len, 0).vals
    ensures SeparatedAll(nodes, chain) ==>
      vals <= WantFrom(Table(nodes, min), chain, 0) &&
      (vals == WantFrom(Table(nodes, min), chain, 0) || |vals| >= len)
  {
    ghost var tab := Table(nodes, min);
    vals := SearchRange(nodes, chain, min, len, 0, tab);
    SearchSound(nodes, min, tab, chain, len);
  }

  // ------------------------------------------------ the backward bound

  /** A bottom node whose cache holds the one entry (k, v) below its
      counter and whose leaf is empty. */
  function Single(k: int64, v: int64): Bottom
  {
    Bottom([LN.Entry(k, v)], 1, EmptyLeaf())
  }

  /** A leaf image with no live slot. */
  function EmptyLeaf(): (im: LM.Image)
    ensures LM.WfImage(im) && forall i :: 0 <= i < LN.SLOTS ==> !im.bm[i]
  {
    LM.Image(seq(LN.SLOTS, i => false), seq(LN.SLOTS, i => 0), seq(LN.SLOTS, i => LN.Entry(0, 0)))
  }

  lemma EmptyLeafRange(min: int64, keys: seq<int64>)
    ensures LM.WfImage(EmptyLeaf()) && BN.LeafRange(EmptyLeaf(), min, keys, LN.SLOTS) == []
  {
    LeafRangeEmpty(EmptyLeaf(), min, keys, LN.SLOTS);
  }

  lemma SingleHolds(k: int64, v: int64, x: int64)
    ensures WfBottom(Single(k, v)) && (Holds(Single(k, v), x) <==> x == k)
  {
    var b := Single(k, v);
    assert b.cache[0].k == k;
  }

  /** A read of Single(k, v) from min emits v when k is at least min. */
  lemma SingleValues(k: int64, v: int64, min: int64)
    ensures var b := Single(k, v);
      WfBottom(b) && BN.ValuesOf(BN.RangeOf(b.cache, 1, b.im, min)) == (if k >= min then [v] else [])
  {
    var b := Single(k, v);
    var cr := BN.CacheRange(b.cache, 1, min);
    assert BN.CacheRange(b.cache, 0, min) == [];
    assert cr == if k >= min then [LN.Entry(k, v)] else [];
    EmptyLeafRange(min, BN.KeysOf(cr));
    assert BN.RangeOf(b.cache, 1, b.im, min) == cr + [] == cr;
    if k >= min {
      assert cr[..0] == [];
    }
  }

  /** A read of Single(k, v) from min sets the small-key flag exactly when
      k is below min. */
  lemma SingleSmall(k: int64, v: int64, min: int64)
    ensures var b := Single(k, v);
      WfBottom(b) && (BN.HasSmall(b.cache, 1, b.im, min, LN.SLOTS) <==> k < min)
  {
    var b := Single(k, v);
    assert b.cache[0].k == k;
    assert !exists i :: 0 <= i < LN.SLOTS && b.im.bm[i];
  }

  lemma SingleRes(nodes: map<nat, Bottom>, min: int64, tab: map<nat, Res>, p: nat, k: int64, v: int64)
    requires Tabulates(nodes, min, tab)
    requires p != NULL && p in nodes && nodes[p] == Single(k, v)
    ensures p in tab && tab[p] == Res(if k >= min then [v] else [], k < min)
  {
    SingleValues(k, v, min);
    SingleSmall(k, v, min);
    assert IsNode(nodes, p);
    assert NodeRes(nodes, p, min) == Res(if k >= min then [v] else [], k < min);
  }

  /** The example of the backward bound: one page, read backward, has
      records with keys 10 and 20 over the nodes 1 and 2 and the leftmost
      child 3; node 1 holds key 15 (value 150), node 2 key 25 (value 250),
      node 3 key 5. */
  const EX_NODES: map<nat, Bottom> := map[1 := Single(15, 150), 2 := Single(25, 250), 3 := Single(5, 50)]
  const EX_PAGE: InnerPage := InnerPage([Rec(10, 1), Rec(20, 2), BLANK, BLANK], 3, 1)

  lemma ExampleShape()
    ensures Live(EX_PAGE.rs) == 2 && Linked(EX_NODES, EX_PAGE) && Separated(EX_NODES, EX_PAGE)
  {
    var rs := EX_PAGE.rs;
    LiveIs(rs, 2);
    SingleHolds(15, 150, 15);
    SingleHolds(25, 250, 25);
    SingleHolds(5, 50, 5);
    assert IsNode(EX_NODES, 1) && IsNode(EX_NODES, 2) && IsNode(EX_NODES, 3);
    forall x ensures (Holds(EX_NODES[1], x) ==> 10 <= x as int < 20) && (Holds(EX_NODES[2], x) ==> 20 <= x as int < LONG_MAX as int)
      && (Holds(EX_NODES[3], x) ==> x as int < 10) {
      SingleHolds(15, 150, x);
      SingleHolds(25, 250, x);
      SingleHolds(5, 50, x);
    }
  }

  lemma ExampleTable(tab: map<nat, Res>)
    requires Tabulates(EX_NODES, 12, tab)
    ensures 1 in tab && 2 in tab && 3 in tab &&
      tab[1] == Res([150], false) && tab[2] == Res([250], false) && tab[3] == Res([], true)
  {
    SingleRes(EX_NODES, 12, tab, 1, 15, 150);
    SingleRes(EX_NODES, 12, tab, 2, 25, 250);
    SingleRes(EX_NODES, 12, tab, 3, 5, 50);
  }

  /** Over the example's table, the backward read from record 1 visits
      node 2 and then node 3, whose key sets the flag; from record 0 it
      also visits node 1 in between. */
  lemma ExampleWalks(tab: map<nat, Res>)
    requires 1 in tab && 2 in tab && 3 in tab
    requires tab[1] == Res([150], false) && tab[2] == Res([250], false) && tab[3] == Res([], true)
    ensures BwdWalk(tab, [2, 3], Acc([], false)).vals == [250]
    ensures BwdWalk(tab, [2, 1, 3], Acc([], false)).vals == [250, 150] == Gathered(tab, [2, 1, 3])
  {
    var a0 := Acc([], false);
    assert [2, 3][..1] == [2] && [2, 1, 3][..2] == [2, 1] && [2, 1][..1] == [2] && [2][..0] == [];
    assert BwdWalk(tab, [2], a0) == Acc([250], false);
    assert BwdWalk(tab, [2, 3], a0) == Acc([250], true);
    assert BwdWalk(tab, [2, 1], a0) == Acc([250, 150], false);
    assert Gathered(tab, [2]) == [250];
    assert Gathered(tab, [2, 1]) == [250, 150];
  }

  /** The scans of the example page over any table with the example's
      entries. */
  lemma ExampleSearch(tab: map<nat, Res>)
    requires 1 in tab && 2 in tab && 3 in tab
    requires tab[1] == Res([150], false) && tab[2] == Res([250], false) && tab[3] == Res([], true)
    ensures Paged([EX_PAGE])
    ensures Search(tab, [EX_PAGE], 12, 10, 1).vals == [250]
    ensures Search(tab, [EX_PAGE], 12, 10, 0).vals == [250, 150] == WantFrom(tab, [EX_PAGE], 0)
  {
    var pg := EX_PAGE;
    var rs := pg.rs;
    LiveIs(rs, 2);
    assert [pg][0] == pg;
    assert Paged([pg]);
    ExampleWalks(tab);
    assert BwdTargets(rs, 3, 1) == [2, 3];
    assert BwdTargets(rs, 3, 0) == [2, 1, 3];
    var a0 := Acc([], false);
    assert Search(tab, [pg], 12, 10, 1) == SearchFrom(tab, [pg], 1, 12, 10, 1, PageScan(tab, pg, 12, 10, 1, a0));
    assert Search(tab, [pg], 12, 10, 0) == SearchFrom(tab, [pg], 1, 12, 10, 0, PageScan(tab, pg, 12, 10, 0, a0));
    assert AllChildren(pg) == [3, 1, 2];
    assert FR.Rev([3, 1, 2]) == [2, 1, 3];
    assert WantFrom(tab, [pg], 0) == [250, 150] + [];
  }

  /** The backward read as written skips the child of record 0: on the
      example, from min 12, the scan gives [250] and loses 150, which the
      read from record 0 gives, as the separator invariant demands. The
      table of the example's nodes is Table(EX_NODES, 12), or any other
      that tabulates them. */
  lemma BackwardSkipsRecordZero(tab: map<nat, Res>)
    requires Tabulates(EX_NODES, 12, tab)
    ensures LinkedAll(EX_NODES, [EX_PAGE]) && SeparatedAll(EX_NODES, [EX_PAGE])
    ensures Search(tab, [EX_PAGE], 12, 10, 1).vals == [250]
    ensures Search(tab, [EX_PAGE], 12, 10, 0).vals == [250, 150] == WantFrom(tab, [EX_PAGE], 0)
  {
    ExampleShape();
    ExampleTable(tab);
    ExampleSearch(tab);
  }
}
