// The two range scans over chains of FAST&FAIR pages.  The fast_fair
// baseline's `page::linear_search_range_2` walks the leaf pages, whose
// records carry the values.  The ff tree's `btree::btree_search_range`
// walks the lowest inner level and reads every bottom node a page points to
// with `get_range_key_from_lnode`.  The pages a walk reaches through
// `sibling` pointers are given, in order, as values.  With no writer
// running every switch-counter check passes, so each page is read once, in
// the direction its switch counter names.

module FairRange {
  import opened Bits
  import opened FairPage

  // ---------------------------------------------------------------------
  // Sequences
  // ---------------------------------------------------------------------

  /** s backwards. */
  function Rev<T>(s: seq<T>): (r: seq<T>)
    ensures |r| == |s| && forall i :: 0 <= i < |s| ==> r[i] == s[|s| - 1 - i]
  {
    if s == [] then [] else Rev(s[1..]) + [s[0]]
  }

  /** Reversing a concatenation reverses the order of the parts. */
  lemma RevAppend<T>(a: seq<T>, b: seq<T>)
    ensures Rev(a + b) == Rev(b) + Rev(a)
  {
    var l, r := Rev(a + b), Rev(b) + Rev(a);
    assert |l| == |r|;
    forall i | 0 <= i < |l| ensures l[i] == r[i] {
      if i < |b| {
        assert r[i] == Rev(b)[i];
      } else {
        assert r[i] == Rev(a)[i - |b|];
      }
    }
  }

  /** The indices 0 up to n - 1. */
  function Up(n: nat): (r: seq<nat>)
    ensures |r| == n && forall i :: 0 <= i < n ==> r[i] == i
  {
    seq(n, i requires 0 <= i < n => i)
  }

  // ---------------------------------------------------------------------
  // linear_search_range_2 (fast_fair)
  // ---------------------------------------------------------------------

  /** `uint64_t max = UINT64_MAX`. */
  const UINT64_MAX: int := 0xFFFF_FFFF_FFFF_FFFF

  /** A bound no key reaches: every `uint64_t` value lies below it. */
  const NO_BOUND: int := 0x1_0000_0000_0000_0000

  /** `tmp_key < max` for an `int64_t` key and a `uint64_t` bound: the key
      is converted to `uint64_t` first. */
  predicate BelowMax(key: int64, max: int)
  {
    (key as int) % 0x1_0000_0000_0000_0000 < max
  }

  /** Against UINT64_MAX every key passes except -1, whose bit pattern is
      all ones; against NO_BOUND every key passes. */
  lemma BelowMaxIs(key: int64)
    ensures BelowMax(key, UINT64_MAX) <==> key != -1
    ensures BelowMax(key, NO_BOUND)
  {
    if key < 0 {
      assert (key as int) % 0x1_0000_0000_0000_0000 == key as int + 0x1_0000_0000_0000_0000;
    }
  }

  /** A leaf page of fast_fair as the scan reads it: its records and its
      switch counter. */
  datatype LeafPage = LeafPage(rs: seq<Rec>, sc: nat)

  /** What reading one record contributes: its pointer, nothing, or the
      end of the whole scan (`goto end`). */
  datatype Step = Emit(ptr: nat) | Pass | End

  /** Record i of the scan above min: a key above min and below max whose
      pointer is not NULL (for record 0) or differs from its left
      neighbour's (for the others) is emitted; a key above min that fails
      the bound ends the scan. */
  function RecStep(rs: seq<Rec>, i: nat, min: int64, max: int): Step
    requires i < |rs|
  {
    if rs[i].key <= min then Pass
    else if !BelowMax(rs[i].key, max) then End
    else if rs[i].ptr != NULL && (i == 0 || rs[i].ptr != rs[i - 1].ptr) then Emit(rs[i].ptr)
    else Pass
  }

  /** The pointers a run of reads emits, and whether it ended the scan. */
  datatype Out = Out(ptrs: seq<nat>, ended: bool)

  ghost predicate InRange(rs: seq<Rec>, idx: seq<nat>)
  {
    forall j :: 0 <= j < |idx| ==> idx[j] < |rs|
  }

  /** Reading the records idx names, in that order, up to the first End. */
  function Run(rs: seq<Rec>, idx: seq<nat>, min: int64, max: int): (o: Out)
    requires InRange(rs, idx)
    ensures |o.ptrs| <= |idx|
  {
    if idx == [] then Out([], false)
    else
      var o := Run(rs, idx[..|idx| - 1], min, max);
      if o.ended then o
      else match RecStep(rs, idx[|idx| - 1], min, max)
        case Emit(p) => Out(o.ptrs + [p], false)
        case Pass => o
        case End => Out(o.ptrs, true)
  }

  /** The forward order: record 0, then records 1 on up to the first NULL
      pointer after it. */
  function FwdOrder(rs: seq<Rec>): (r: seq<nat>)
    requires 1 <= |rs|
  {
    Up(FirstNull(rs, 1))
  }

  /** The backward order from the count c: records c - 1 down to 1, then
      record 0. */
  function BwdOrder(rs: seq<Rec>, c: nat): (r: seq<nat>)
    requires 1 <= |rs| && c <= |rs|
  {
    var m := if c == 0 then 1 else c;
    seq(m, j requires 0 <= j < m => m - 1 - j)
  }

  /** Whose `count()` starts the backward read of a page: the page being
      read (`current`), or the first page of the scan (`this`), whose count
      n then bounds the backward read of every page. */
  datatype CountOf = Current | First(n: nat)

  /** The count the backward read of pg starts from. */
  function BwdCount(pg: LeafPage, cnt: CountOf): nat
  {
    match cnt
    case Current => Live(pg.rs)
    case First(n) => n
  }

  /** One page, read in the direction its switch counter names. */
  function PageOut(pg: LeafPage, min: int64, max: int, cnt: CountOf): Out
    requires 1 <= |pg.rs| && BwdCount(pg, cnt) <= |pg.rs|
  {
    OrdersInRange(pg.rs, BwdCount(pg, cnt));
    Run(pg.rs, if IsForward(pg.sc) then FwdOrder(pg.rs) else BwdOrder(pg.rs, BwdCount(pg, cnt)), min, max)
  }

  lemma OrdersInRange(rs: seq<Rec>, c: nat)
    requires 1 <= |rs| && c <= |rs|
    ensures InRange(rs, FwdOrder(rs)) && InRange(rs, BwdOrder(rs, c))
  {
  }

  /** Every page has a record 0, and the backward read stays inside it. */
  ghost predicate Readable(chain: seq<LeafPage>, cnt: CountOf)
  {
    forall j :: 0 <= j < |chain| ==> 1 <= |chain[j].rs| && BwdCount(chain[j], cnt) <= |chain[j].rs|
  }

  ghost predicate WfLeaves(chain: seq<LeafPage>)
  {
    forall j :: 0 <= j < |chain| ==> Wf(chain[j].rs)
  }

  /** Every page has the `records[cardinality]` of the first. */
  ghost predicate Uniform(chain: seq<LeafPage>)
  {
    forall j :: 0 <= j < |chain| ==> |chain[j].rs| == |chain[0].rs|
  }

  /** The scan over pages whose reads give outs[..k]: a page is read
      whole when fewer than length pointers are held on reaching it, and an
      End stops everything. */
  function Gather(outs: seq<Out>, k: nat, length: nat): Out
    requires k <= |outs|
  {
    if k == 0 then Out([], false)
    else
      var o := Gather(outs, k - 1, length);
      if o.ended || |o.ptrs| >= length then o
      else Out(o.ptrs + outs[k - 1].ptrs, outs[k - 1].ended)
  }

  /** What each page of chain gives when read. */
  function PageOuts(chain: seq<LeafPage>, min: int64, max: int, cnt: CountOf): (r: seq<Out>)
    requires Readable(chain, cnt)
    ensures |r| == |chain|
  {
    seq(|chain|, j requires 0 <= j < |chain| => PageOut(chain[j], min, max, cnt))
  }

  /** `linear_search_range_2` over chain, from its first page. */
  function ScanPages(chain: seq<LeafPage>, min: int64, length: nat, max: int, cnt: CountOf): Out
    requires Readable(chain, cnt)
  {
    Gather(PageOuts(chain, min, max, cnt), |chain|, length)
  }

  // ------------------------------------------------ the reference scan

  /** The pointers of the first n records whose key is above min, in
      record order. */
  function AboveMin(rs: seq<Rec>, n: nat, min: int64): (r: seq<nat>)
    requires n <= |rs|
    ensures |r| <= n
  {
    if n == 0 then [] else AboveMin(rs, n - 1, min) + (if rs[n - 1].key > min then [rs[n - 1].ptr] else [])
  }

  /** What a page should give: its live pointers above min, in record
      order when read forward and reversed when read backward. */
  function PageWant(pg: LeafPage, min: int64): seq<nat>
  {
    var a := AboveMin(pg.rs, Live(pg.rs), min);
    if IsForward(pg.sc) then a else Rev(a)
  }

  /** What the scan over chain should give: each page's PageWant, while
      fewer than length pointers are held. */
  function Want(chain: seq<LeafPage>, min: int64, length: nat): seq<nat>
  {
    Gather(seq(|chain|, j requires 0 <= j < |chain| => Out(PageWant(chain[j], min), false)), |chain|, length).ptrs
  }

  /** No record the scan reads has a key above min that fails the bound. */
  ghost predicate NoEnd(rs: seq<Rec>, min: int64, max: int)
  {
    forall i :: 0 <= i < |rs| && (i == 0 || i < Live(rs)) && rs[i].key > min ==> BelowMax(rs[i].key, max)
  }

  /** Pages whose neighbouring live pointers differ, so that no record is
      skipped as a repeat, and which contain no key that ends the scan. */
  ghost predicate Clean(chain: seq<LeafPage>, min: int64, max: int)
  {
    forall j :: 0 <= j < |chain| ==>
      NeighboursDiffer(chain[j].rs, Live(chain[j].rs)) && NoEnd(chain[j].rs, min, max)
  }

  /** The non-NULL pointers of the records idx names whose key is above
      min, in the order of idx. */
  function Kept(rs: seq<Rec>, idx: seq<nat>, min: int64): seq<nat>
    requires InRange(rs, idx)
  {
    if idx == [] then []
    else Kept(rs, idx[..|idx| - 1], min) + Cell(rs, idx[|idx| - 1], min)
  }

  function Cell(rs: seq<Rec>, i: nat, min: int64): seq<nat>
    requires i < |rs|
  {
    if rs[i].key > min && rs[i].ptr != NULL then [rs[i].ptr] else []
  }

  lemma {:induction false} KeptAppend(rs: seq<Rec>, a: seq<nat>, b: seq<nat>, min: int64)
    requires InRange(rs, a) && InRange(rs, b)
    ensures InRange(rs, a + b) && Kept(rs, a + b, min) == Kept(rs, a, min) + Kept(rs, b, min)
  {
    assert InRange(rs, a + b) by {
      forall j | 0 <= j < |a + b| ensures (a + b)[j] < |rs| {
        if j < |a| { assert (a + b)[j] == a[j]; } else { assert (a + b)[j] == b[j - |a|]; }
      }
    }
    if b == [] {
      assert a + b == a;
    } else {
      var b' := b[..|b| - 1];
      assert InRange(rs, b') by {
        forall j | 0 <= j < |b'| ensures b'[j] < |rs| { assert b'[j] == b[j]; }
      }
      KeptAppend(rs, a, b', min);
      assert (a + b)[..|a + b| - 1] == a + b';
      assert (a + b)[|a + b| - 1] == b[|b| - 1];
    }
  }

  /** Filtering the reversed indices gives the reversed filter. */
  lemma {:induction false} KeptRev(rs: seq<Rec>, idx: seq<nat>, min: int64)
    requires InRange(rs, idx)
    ensures InRange(rs, Rev(idx)) && Kept(rs, Rev(idx), min) == Rev(Kept(rs, idx, min))
  {
    if idx != [] {
      var f, x := idx[..|idx| - 1], idx[|idx| - 1];
      assert idx == f + [x];
      KeptRev(rs, f, min);
      RevAppend(f, [x]);
      assert Rev([x]) == [x];
      KeptAppend(rs, [x], Rev(f), min);
      assert Kept(rs, [x], min) == Cell(rs, x, min) by {
        assert [x][..0] == [];
      }
      RevAppend(Kept(rs, f, min), Cell(rs, x, min));
      assert Rev(Cell(rs, x, min)) == Cell(rs, x, min);
    }
  }

  /** Reading records that are live or NULL-pointed, in a page whose
      neighbouring live pointers differ and with no key that ends the
      scan, emits exactly their non-NULL pointers above min. */
  lemma {:induction false} RunIsKept(rs: seq<Rec>, idx: seq<nat>, min: int64, max: int)
    requires InRange(rs, idx) && NeighboursDiffer(rs, Live(rs)) && Live(rs) <= |rs|
    requires forall j :: 0 <= j < |idx| ==> idx[j] < Live(rs) || rs[idx[j]].ptr == NULL
    requires forall j :: 0 <= j < |idx| && rs[idx[j]].key > min ==> BelowMax(rs[idx[j]].key, max)
    ensures Run(rs, idx, min, max) == Out(Kept(rs, idx, min), false)
  {
    if idx != [] {
      var x := idx[|idx| - 1];
      RunIsKept(rs, idx[..|idx| - 1], min, max);
      assert x < Live(rs) || rs[x].ptr == NULL;
      if rs[x].ptr != NULL && x > 0 {
        assert rs[x - 1].ptr != rs[x].ptr;
      }
    }
  }

  /** Below the live count, every record has a pointer, so keeping the
      non-NULL ones above min is AboveMin. */
  lemma {:induction false} KeptUp(rs: seq<Rec>, n: nat, min: int64)
    requires n <= Live(rs) && Live(rs) <= |rs|
    ensures InRange(rs, Up(n)) && Kept(rs, Up(n), min) == AboveMin(rs, n, min)
  {
    if n > 0 {
      KeptUp(rs, n - 1, min);
      assert Up(n)[..n - 1] == Up(n - 1);
      assert rs[n - 1].ptr != NULL;
    }
  }

  /** What the reads of a page rely on: a NULL pointer ends the live
      records inside the page, and an empty page has a NULL in its second
      slot too; the part of Wf that leaves out the order of the keys. */
  ghost predicate Shaped(rs: seq<Rec>)
  {
    |rs| >= 2 && Live(rs) < |rs| && (Live(rs) == 0 ==> rs[1].ptr == NULL)
  }

  /** A page whose neighbouring live pointers differ and which holds no key
      that ends the scan gives exactly what it should: its live pointers
      above min, in record order forward and reversed backward. */
  lemma PageExact(pg: LeafPage, min: int64, max: int)
    requires Shaped(pg.rs) && NeighboursDiffer(pg.rs, Live(pg.rs)) && NoEnd(pg.rs, min, max)
    ensures PageOut(pg, min, max, Current) == Out(PageWant(pg, min), false)
  {
    var rs, L := pg.rs, Live(pg.rs);
    if L == 0 {
      assert FwdOrder(rs) == [0] && BwdOrder(rs, 0) == [0];
      assert rs[0].ptr == NULL;
      RunIsKept(rs, [0], min, max);
      assert Kept(rs, [0], min) == [] by {
        assert [0][..0] == [];
      }
    } else {
      LiveExact(rs, min, max);
    }
  }

  /** PageExact for a page with live records: forward reads Up(L),
      backward reads its reverse. */
  lemma LiveExact(rs: seq<Rec>, min: int64, max: int)
    requires Shaped(rs) && NeighboursDiffer(rs, Live(rs)) && NoEnd(rs, min, max) && Live(rs) > 0
    ensures Run(rs, FwdOrder(rs), min, max) == Out(AboveMin(rs, Live(rs), min), false)
    ensures Run(rs, BwdOrder(rs, Live(rs)), min, max) == Out(Rev(AboveMin(rs, Live(rs), min)), false)
  {
    var L := Live(rs);
    assert FirstNull(rs, 1) == L;
    BwdUp(rs, L);
    KeptUp(rs, L, min);
    KeptRev(rs, Up(L), min);
    RunIsKept(rs, Up(L), min, max);
    RunIsKept(rs, Rev(Up(L)), min, max);
  }

  /** Read backward from a positive count c, the records are Up(c)
      reversed. */
  lemma BwdUp(rs: seq<Rec>, c: nat)
    requires 1 <= c <= |rs|
    ensures BwdOrder(rs, c) == Rev(Up(c))
  {
    var b, r := BwdOrder(rs, c), Rev(Up(c));
    assert |b| == |r|;
    forall i | 0 <= i < c ensures b[i] == r[i] {
    }
  }

  ghost predicate ShapedLeaves(chain: seq<LeafPage>)
  {
    forall j :: 0 <= j < |chain| ==> Shaped(chain[j].rs)
  }

  lemma WfShaped(chain: seq<LeafPage>)
    requires WfLeaves(chain)
    ensures ShapedLeaves(chain)
  {
    forall j | 0 <= j < |chain| ensures Shaped(chain[j].rs) {
      assert Wf(chain[j].rs);
    }
  }

  /** Each page's own count lies inside it. */
  lemma ShapedReadable(chain: seq<LeafPage>)
    requires ShapedLeaves(chain)
    ensures Readable(chain, Current)
  {
    forall j | 0 <= j < |chain| ensures 1 <= |chain[j].rs| && BwdCount(chain[j], Current) <= |chain[j].rs| {
      assert Shaped(chain[j].rs);
    }
  }

  /** Pages of the first page's size can be read backward from its count. */
  lemma UniformReadable(chain: seq<LeafPage>)
    requires ShapedLeaves(chain) && Uniform(chain) && chain != []
    ensures Readable(chain, First(Live(chain[0].rs)))
  {
    assert Shaped(chain[0].rs);
    forall j | 0 <= j < |chain|
      ensures 1 <= |chain[j].rs| && BwdCount(chain[j], First(Live(chain[0].rs))) <= |chain[j].rs|
    {
      assert |chain[j].rs| == |chain[0].rs|;
    }
  }

  /** The whole scan over clean pages, each read backward from its own
      count, gives Want. */
  lemma ScanExact(chain: seq<LeafPage>, min: int64, length: nat, max: int)
    requires ShapedLeaves(chain) && Clean(chain, min, max)
    ensures Readable(chain, Current)
    ensures ScanPages(chain, min, length, max, Current) == Out(Want(chain, min, length), false)
  {
    ShapedReadable(chain);
    var outs := PageOuts(chain, min, max, Current);
    var wants := seq(|chain|, j requires 0 <= j < |chain| => Out(PageWant(chain[j], min), false));
    forall j | 0 <= j < |chain| ensures outs[j] == wants[j] {
      PageClean(chain, j, min, max);
    }
    assert outs == wants;
    GatherNoEnd(wants, |chain|, length);
  }

  /** A scan over pages none of which ends it does not end. */
  lemma {:induction false} GatherNoEnd(outs: seq<Out>, k: nat, length: nat)
    requires k <= |outs| && forall j :: 0 <= j < |outs| ==> !outs[j].ended
    ensures !Gather(outs, k, length).ended
  {
    if k > 0 {
      GatherNoEnd(outs, k - 1, length);
    }
  }

  /** Page j of a clean chain gives what it should. */
  lemma PageClean(chain: seq<LeafPage>, j: nat, min: int64, max: int)
    requires j < |chain| && ShapedLeaves(chain) && Clean(chain, min, max)
    ensures Shaped(chain[j].rs)
    ensures PageOut(chain[j], min, max, Current) == Out(PageWant(chain[j], min), false)
  {
    var pg := chain[j];
    assert Shaped(pg.rs) && NeighboursDiffer(pg.rs, Live(pg.rs)) && NoEnd(pg.rs, min, max);
    PageExact(pg, min, max);
  }

  /** Without a bound and reading each page backward from its own count,
      the scan over pages whose neighbouring live pointers differ gives
      Want. */
  lemma ScanUnbounded(chain: seq<LeafPage>, min: int64, length: nat)
    requires WfLeaves(chain)
    requires forall j :: 0 <= j < |chain| ==> NeighboursDiffer(chain[j].rs, Live(chain[j].rs))
    ensures Readable(chain, Current)
    ensures ScanPages(chain, min, length, NO_BOUND, Current) == Out(Want(chain, min, length), false)
  {
    forall j, i | 0 <= j < |chain| && 0 <= i < |chain[j].rs|
      ensures BelowMax(chain[j].rs[i].key, NO_BOUND)
    {
      BelowMaxIs(chain[j].rs[i].key);
    }
    WfShaped(chain);
    ScanExact(chain, min, length, NO_BOUND);
  }

  /** As written, a record with key -1 above min ends the scan: on one page
      holding (-1, 5) and (3, 6), the scan from -5 returns nothing, while
      both records lie in the range. */
  lemma ScanStopsAtMinusOne()
    ensures var chain := [LeafPage([Rec(-1, 5), Rec(3, 6), BLANK, BLANK], 0)];
      WfLeaves(chain) && Readable(chain, First(2)) && Live(chain[0].rs) == 2 &&
      ScanPages(chain, -5, 10, UINT64_MAX, First(2)) == Out([], true) &&
      Want(chain, -5, 10) == [5, 6]
  {
    var rs := [Rec(-1, 5), Rec(3, 6), BLANK, BLANK];
    var chain := [LeafPage(rs, 0)];
    LiveIs(rs, 2);
    assert Wf(rs);
    assert FirstNull(rs, 1) == 2;
    assert FwdOrder(rs) == [0, 1];
    BelowMaxIs(-1);
    assert [0, 1][..1] == [0];
    assert [0][..0] == [];
    assert Run(rs, [0], -5, UINT64_MAX) == Out([], true);
    assert Run(rs, [0, 1], -5, UINT64_MAX) == Out([], true);
    assert PageOut(chain[0], -5, UINT64_MAX, First(2)) == Out([], true);
    var outs := PageOuts(chain, -5, UINT64_MAX, First(2));
    assert outs == [Out([], true)];
    assert Gather(outs, 1, 10) == Out([], true);
    assert AboveMin(rs, 2, -5) == [5, 6];
    assert PageWant(chain[0], -5) == [5, 6];
    var wants := seq(|chain|, j requires 0 <= j < |chain| => Out(PageWant(chain[j], -5), false));
    assert wants == [Out([5, 6], false)];
    assert Gather(wants, 1, 10) == Out([5, 6], false);
  }

  /** Every page read backward has n live records. */
  ghost predicate CountsAgree(chain: seq<LeafPage>, n: nat)
  {
    forall j :: 0 <= j < |chain| && !IsForward(chain[j].sc) ==> Live(chain[j].rs) == n
  }

  /** Starting every backward read from the count n gives the same scan as
      starting it from each page's own count exactly when the pages read
      backward have n live records; the first page is read the same way in
      both. */
  lemma FirstCountAgrees(chain: seq<LeafPage>, min: int64, length: nat, max: int, n: nat)
    requires Readable(chain, First(n)) && Readable(chain, Current) && CountsAgree(chain, n)
    ensures PageOuts(chain, min, max, First(n)) == PageOuts(chain, min, max, Current)
    ensures ScanPages(chain, min, length, max, First(n)) == ScanPages(chain, min, length, max, Current)
  {
    var a, b := PageOuts(chain, min, max, First(n)), PageOuts(chain, min, max, Current);
    forall j | 0 <= j < |chain| ensures a[j] == b[j] {
      if !IsForward(chain[j].sc) {
        assert BwdCount(chain[j], First(n)) == BwdCount(chain[j], Current);
      }
    }
  }

  /** As written, the backward read of a later page starts from the first
      page's count: after a page with one record, a page with three records
      read backward gives only its record 0, while Want holds all three. */
  lemma BackwardUsesFirstCount()
    ensures var chain := [LeafPage([Rec(1, 10), BLANK, BLANK, BLANK], 0),
                          LeafPage([Rec(2, 20), Rec(3, 30), Rec(4, 40), BLANK], 1)];
      WfLeaves(chain) && Uniform(chain) && Live(chain[0].rs) == 1 &&
      Readable(chain, First(1)) &&
      ScanPages(chain, 0, 10, UINT64_MAX, First(1)) == Out([10, 20], false) &&
      Want(chain, 0, 10) == [10, 40, 30, 20]
  {
    var r0 := [Rec(1, 10), BLANK, BLANK, BLANK];
    var r1 := [Rec(2, 20), Rec(3, 30), Rec(4, 40), BLANK];
    var chain := [LeafPage(r0, 0), LeafPage(r1, 1)];
    LiveIs(r0, 1);
    LiveIs(r1, 3);
    assert Wf(r0) && Wf(r1);
    ExamplePages(r0, r1);
    var outs := PageOuts(chain, 0, UINT64_MAX, First(1));
    assert outs == [Out([10], false), Out([20], false)];
    assert Gather(outs, 1, 10) == Out([10], false);
    assert Gather(outs, 2, 10) == Out([10, 20], false);
    ExampleWants(r0, r1);
    var wants := seq(|chain|, j requires 0 <= j < |chain| => Out(PageWant(chain[j], 0), false));
    assert wants == [Out([10], false), Out([40, 30, 20], false)];
    assert Gather(wants, 1, 10) == Out([10], false);
    assert Gather(wants, 2, 10) == Out([10, 40, 30, 20], false);
  }

  /** The pages of BackwardUsesFirstCount, each read from the count 1. */
  lemma ExamplePages(r0: seq<Rec>, r1: seq<Rec>)
    requires r0 == [Rec(1, 10), BLANK, BLANK, BLANK] && r1 == [Rec(2, 20), Rec(3, 30), Rec(4, 40), BLANK]
    ensures PageOut(LeafPage(r0, 0), 0, UINT64_MAX, First(1)) == Out([10], false)
    ensures PageOut(LeafPage(r1, 1), 0, UINT64_MAX, First(1)) == Out([20], false)
  {
    assert FirstNull(r0, 1) == 1;
    assert FwdOrder(r0) == [0] && BwdOrder(r1, 1) == [0];
    assert [0][..0] == [];
    BelowMaxIs(1);
    BelowMaxIs(2);
    assert Run(r0, [0], 0, UINT64_MAX) == Out([10], false);
    assert Run(r1, [0], 0, UINT64_MAX) == Out([20], false);
  }

  /** What the pages of BackwardUsesFirstCount should give. */
  lemma ExampleWants(r0: seq<Rec>, r1: seq<Rec>)
    requires r0 == [Rec(1, 10), BLANK, BLANK, BLANK] && r1 == [Rec(2, 20), Rec(3, 30), Rec(4, 40), BLANK]
    requires Live(r0) == 1 && Live(r1) == 3
    ensures PageWant(LeafPage(r0, 0), 0) == [10]
    ensures PageWant(LeafPage(r1, 1), 0) == [40, 30, 20]
  {
    assert AboveMin(r0, 1, 0) == [10];
    assert AboveMin(r1, 1, 0) == [20];
    assert AboveMin(r1, 2, 0) == [20, 30];
    assert AboveMin(r1, 3, 0) == [20, 30, 40];
    assert Rev([20, 30, 40]) == [40, 30, 20];
  }

  /** Once the scan has ended or holds length pointers, later pages change
      nothing. */
  lemma {:induction false} GatherRest(outs: seq<Out>, k: nat, k': nat, length: nat)
    requires k <= k' <= |outs|
    requires Gather(outs, k, length).ended || |Gather(outs, k, length).ptrs| >= length
    ensures Gather(outs, k', length) == Gather(outs, k, length)
  {
    if k' > k {
      GatherRest(outs, k, k' - 1, length);
    }
  }

  /** Once a run has ended, further reads change nothing. */
  lemma {:induction false} RunRest(rs: seq<Rec>, idx: seq<nat>, j: nat, min: int64, max: int)
    requires InRange(rs, idx) && j <= |idx| && Run(rs, idx[..j], min, max).ended
    ensures Run(rs, idx, min, max) == Run(rs, idx[..j], min, max)
  {
    if j < |idx| {
      var f := idx[..|idx| - 1];
      assert f[..j] == idx[..j];
      RunRest(rs, f, j, min, max);
    } else {
      assert idx[..j] == idx;
    }
  }

  /** The forward read of a page: record 0, then `for (i = 1;
      records[i].ptr != NULL; ++i)`. */
  method ScanFwd(rs: seq<Rec>, min: int64, max: int) returns (out: seq<nat>, ended: bool)
    requires Shaped(rs)
    ensures Out(out, ended) == Run(rs, FwdOrder(rs), min, max)
  {
    ghost var n := FirstNull(rs, 1);
    assert n < |rs| by {
      if Live(rs) > 0 { assert FirstNull(rs, 1) == Live(rs); }
    }
    out, ended := [], false;
    assert Up(1)[..0] == [];
    if rs[0].key > min {
      if BelowMax(rs[0].key, max) {
        if rs[0].ptr != NULL {
          out := [rs[0].ptr];
        }
      } else {
        ended := true;
        assert Up(n)[..1] == Up(1);
        RunRest(rs, Up(n), 1, min, max);
        return;
      }
    }
    out, ended := FwdFrom(rs, min, max, out);
  }

  /** The loop of the forward read, from record 1 on, after record 0 gave
      out0. */
  method FwdFrom(rs: seq<Rec>, min: int64, max: int, out0: seq<nat>) returns (out: seq<nat>, ended: bool)
    requires 1 <= |rs| && FirstNull(rs, 1) < |rs|
    requires Out(out0, false) == Run(rs, Up(1), min, max)
    ensures Out(out, ended) == Run(rs, Up(FirstNull(rs, 1)), min, max)
  {
    ghost var n := FirstNull(rs, 1);
    out, ended := out0, false;
    var i := 1;
    while rs[i].ptr != NULL
      invariant 1 <= i <= n && Out(out, false) == Run(rs, Up(i), min, max)
      decreases |rs| - i
    {
      assert Up(i + 1)[..i] == Up(i);
      if rs[i].key > min {
        if BelowMax(rs[i].key, max) {
          if rs[i].ptr != rs[i - 1].ptr {
            out := out + [rs[i].ptr];
          }
        } else {
          ended := true;
          assert Up(n)[..i + 1] == Up(i + 1);
          RunRest(rs, Up(n), i + 1, min, max);
          return;
        }
      }
      i := i + 1;
    }
  }

  /** One more read of a run that has not ended. */
  lemma RunNext(rs: seq<Rec>, idx: seq<nat>, j: nat, min: int64, max: int)
    requires InRange(rs, idx) && j < |idx| && !Run(rs, idx[..j], min, max).ended
    ensures var o := Run(rs, idx[..j], min, max);
      Run(rs, idx[..j + 1], min, max) ==
        match RecStep(rs, idx[j], min, max)
        case Emit(p) => Out(o.ptrs + [p], false)
        case Pass => o
        case End => Out(o.ptrs, true)
  {
    assert idx[..j + 1][..j] == idx[..j];
  }

  /** The backward read of a page from the count c: `for (i = count() - 1;
      i > 0; --i)`, then record 0. */
  method ScanBwd(rs: seq<Rec>, c: nat, min: int64, max: int) returns (out: seq<nat>, ended: bool)
    requires 1 <= |rs| && c <= |rs|
    ensures Out(out, ended) == Run(rs, BwdOrder(rs, c), min, max)
  {
    ghost var order := BwdOrder(rs, c);
    ghost var t := |order| - 1;
    out, ended := BwdLoop(rs, c, min, max);
    if ended {
      RunRest(rs, order, t, min, max);
      return;
    }
    RunNext(rs, order, t, min, max);
    assert order[t] == 0 && order[..t + 1] == order;
    if rs[0].key > min {
      if BelowMax(rs[0].key, max) {
        if rs[0].ptr != NULL {
          out := out + [rs[0].ptr];
        }
      } else {
        ended := true;
      }
    }
  }

  /** The loop of the backward read, records c - 1 down to 1. */
  method BwdLoop(rs: seq<Rec>, c: nat, min: int64, max: int) returns (out: seq<nat>, ended: bool)
    requires 1 <= |rs| && c <= |rs|
    ensures Out(out, ended) == Run(rs, BwdOrder(rs, c)[..|BwdOrder(rs, c)| - 1], min, max)
  {
    ghost var order := BwdOrder(rs, c);
    ghost var head := order[..|order| - 1];
    out, ended := [], false;
    var i: int := c - 1;
    ghost var t: nat := 0;
    assert head[..0] == [];
    while i > 0
      invariant c > 0 ==> 0 <= i < c && t == c - 1 - i
      invariant c == 0 ==> t == 0
      invariant Out(out, false) == Run(rs, head[..t], min, max)
    {
      assert head[t] == i;
      out, ended := BwdNext(rs, min, max, head, t, i, out);
      if ended {
        RunRest(rs, head, t + 1, min, max);
        return;
      }
      i, t := i - 1, t + 1;
    }
    assert head[..t] == head;
  }

  /** One round of the backward loop: record i, read at position t of
      idx. */
  method BwdNext(rs: seq<Rec>, min: int64, max: int, ghost idx: seq<nat>, ghost t: nat, i: nat, out0: seq<nat>)
    returns (out: seq<nat>, ended: bool)
    requires InRange(rs, idx) && t < |idx| && idx[t] == i && 0 < i < |rs|
    requires Out(out0, false) == Run(rs, idx[..t], min, max)
    ensures Out(out, ended) == Run(rs, idx[..t + 1], min, max)
  {
    RunNext(rs, idx, t, min, max);
    out, ended := out0, false;
    if rs[i].key > min {
      if BelowMax(rs[i].key, max) {
        if rs[i].ptr != rs[i - 1].ptr {
          if rs[i].ptr != NULL {
            out := out + [rs[i].ptr];
          }
        }
      } else {
        ended := true;
      }
    }
  }

  /** One page of `linear_search_range_2`, in the direction of its
      switch counter; c is the count a backward read starts from. */
  method ScanPage(pg: LeafPage, c: nat, min: int64, max: int, ghost cnt: CountOf, ghost o: Out)
    returns (out: seq<nat>, ended: bool)
    requires Shaped(pg.rs) && c == BwdCount(pg, cnt) <= |pg.rs| && o == PageOut(pg, min, max, cnt)
    ensures Out(out, ended) == o
  {
    if IsForward(pg.sc) {
      out, ended := ScanFwd(pg.rs, min, max);
    } else {
      out, ended := ScanBwd(pg.rs, c, min, max);
    }
  }

  /** One more page of a scan that has not ended and holds fewer than
      length pointers. */
  lemma GatherNext(outs: seq<Out>, k: nat, length: nat)
    requires k < |outs|
    requires var o := Gather(outs, k, length); !o.ended && |o.ptrs| < length
    ensures Gather(outs, k + 1, length) == Out(Gather(outs, k, length).ptrs + outs[k].ptrs, outs[k].ended)
  {
  }

  /** `linear_search_range_2` from the first page of chain, with the bound
      max and the backward reads starting from the count cnt names:
      `while (current && off < length)` reads one page after another until
      one ends the scan. */
  method ScanRange(chain: seq<LeafPage>, min: int64, length: nat, max: int, cnt: CountOf) returns (buf: seq<nat>)
    requires ShapedLeaves(chain) && Readable(chain, cnt)
    ensures buf == ScanPages(chain, min, length, max, cnt).ptrs
  {
    ghost var outs := PageOuts(chain, min, max, cnt);
    forall j | 0 <= j < |chain| ensures PageIs(chain, outs, j, min, max, cnt) {
      assert Shaped(chain[j].rs);
    }
    buf := ScanLoop(chain, min, length, max, cnt, outs);
  }

  /** Page j of chain gives outs[j]. */
  ghost predicate PageIs(chain: seq<LeafPage>, outs: seq<Out>, j: nat, min: int64, max: int, cnt: CountOf)
  {
    j < |chain| && j < |outs| && Shaped(chain[j].rs) && BwdCount(chain[j], cnt) <= |chain[j].rs| &&
    outs[j] == PageOut(chain[j], min, max, cnt)
  }

  /** The loop of ScanRange, with what each page gives as outs. */
  method ScanLoop(chain: seq<LeafPage>, min: int64, length: nat, max: int, cnt: CountOf, ghost outs: seq<Out>)
    returns (buf: seq<nat>)
    requires |outs| == |chain| && forall j :: 0 <= j < |chain| ==> PageIs(chain, outs, j, min, max, cnt)
    ensures buf == Gather(outs, |chain|, length).ptrs
  {
    buf := [];
    var k, ended := 0, false;
    while k < |chain| && |buf| < length && !ended
      invariant k <= |chain| && Out(buf, ended) == Gather(outs, k, length)
    {
      buf, ended := ScanNext(chain, min, length, max, cnt, outs, k, buf);
      k := k + 1;
    }
    if k < |chain| {
      GatherRest(outs, k, |chain|, length);
    }
  }

  /** One round of ScanLoop: page k is read and its pointers appended. */
  method ScanNext(chain: seq<LeafPage>, min: int64, length: nat, max: int, cnt: CountOf, ghost outs: seq<Out>,
                  k: nat, buf0: seq<nat>)
    returns (buf: seq<nat>, ended: bool)
    requires PageIs(chain, outs, k, min, max, cnt)
    requires Out(buf0, false) == Gather(outs, k, length) && |buf0| < length
    ensures Out(buf, ended) == Gather(outs, k + 1, length)
  {
    GatherNext(outs, k, length);
    var c := BwdCount(chain[k], cnt);
    var out, e := ScanPage(chain[k], c, min, max, cnt, outs[k]);
    buf, ended := buf0 + out, e;
  }

  /** `linear_search_range_2` as written, called on the first page of chain
      (`this`): bounded by UINT64_MAX, and every backward read starts from
      `count()` of that first page.  On pages with no key that ends the scan,
      where every page read backward has the first page's count, it gives
      Want. */
  method LinearSearchRange2AsWritten(chain: seq<LeafPage>, min: int64, length: nat) returns (buf: seq<nat>)
    requires chain != [] && WfLeaves(chain) && Uniform(chain)
    ensures Readable(chain, First(Live(chain[0].rs)))
    ensures buf == ScanPages(chain, min, length, UINT64_MAX, First(Live(chain[0].rs))).ptrs
    ensures Clean(chain, min, UINT64_MAX) && CountsAgree(chain, Live(chain[0].rs)) ==> buf == Want(chain, min, length)
  {
    WfShaped(chain);
    UniformReadable(chain);
    var n := Live(chain[0].rs);
    buf := ScanRange(chain, min, length, UINT64_MAX, First(n));
    if Clean(chain, min, UINT64_MAX) && CountsAgree(chain, n) {
      ScanExact(chain, min, length, UINT64_MAX);
      FirstCountAgrees(chain, min, length, UINT64_MAX, n);
    }
  }

  /** `linear_search_range_2` with no bound and each backward read starting
      from the count of the page being read: over pages whose neighbouring
      live pointers differ, each page gives its live pointers above min,
      forward in record order and backward reversed, while fewer than length
      pointers are held. */
  method LinearSearchRange2(chain: seq<LeafPage>, min: int64, length: nat) returns (buf: seq<nat>)
    requires WfLeaves(chain)
    ensures Readable(chain, Current)
    ensures buf == ScanPages(chain, min, length, NO_BOUND, Current).ptrs
    ensures (forall j :: 0 <= j < |chain| ==> NeighboursDiffer(chain[j].rs, Live(chain[j].rs))) ==>
      buf == Want(chain, min, length)
  {
    WfShaped(chain);
    ShapedReadable(chain);
    buf := ScanRange(chain, min, length, NO_BOUND, Current);
    if forall j :: 0 <= j < |chain| ==> NeighboursDiffer(chain[j].rs, Live(chain[j].rs)) {
      ScanUnbounded(chain, min, length);
    }
  }
}
