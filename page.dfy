// The FAST&FAIR inner page shared by the fast_fair baseline and the ff
// tree: a record array kept sorted by key, whose first NULL pointer is the
// end-of-page sentinel.  Writers shift records one at a time (FAST) and split
// a full page at its middle (FAIR); the parity of the switch counter tells
// readers which way the last writer shifted.
//
// Pointers are abstract addresses, NULL being 0: a record's pointer is a child
// page, a bottom node or (in a fast_fair leaf) a value.  The sibling link is a
// reference to the next page of the same level.

module FairPage {
  import opened Bits

  const NULL: nat := 0

  /** LONG_MAX, the key of a record nobody has written. */
  const LONG_MAX: int64 := 0x7FFF_FFFF_FFFF_FFFF

  /** An entry of a page: a key and the pointer stored beside it. */
  datatype Rec = Rec(key: int64, ptr: nat)

  /** A record fresh from the entry constructor. */
  const BLANK: Rec := Rec(LONG_MAX, NULL)

  /** IS_FORWARD: an even switch counter means the last writer inserted. */
  predicate IsForward(sc: nat)
  {
    sc % 2 == 0
  }

  /** The switch counter after `++switch_counter` on a uint8_t. */
  function Tick(sc: nat): (r: nat)
    requires sc < 256
    ensures r < 256 && r != sc
    ensures IsForward(r) != IsForward(sc)
  {
    (sc + 1) % 256
  }

  // ---------------------------------------------------------------------
  // Record arrays as values
  // ---------------------------------------------------------------------

  /** The index of the first NULL pointer at or after i (|rs| when none). */
  function FirstNull(rs: seq<Rec>, i: nat): (r: nat)
    requires i <= |rs|
    ensures i <= r <= |rs|
    ensures forall j :: i <= j < r ==> rs[j].ptr != NULL
    ensures r < |rs| ==> rs[r].ptr == NULL
    decreases |rs| - i
  {
    if i == |rs| || rs[i].ptr == NULL then i else FirstNull(rs, i + 1)
  }

  /** The number of live records: what count() returns. */
  function Live(rs: seq<Rec>): nat
  {
    FirstNull(rs, 0)
  }

  /** The live count is n when slot n holds the first NULL. */
  lemma LiveIs(rs: seq<Rec>, n: nat)
    requires n < |rs| && rs[n].ptr == NULL
    requires forall j :: 0 <= j < n ==> rs[j].ptr != NULL
    ensures Live(rs) == n
  {
  }

  ghost predicate Sorted(rs: seq<Rec>, n: nat)
    requires n <= |rs|
  {
    forall i, j :: 0 <= i < j < n ==> rs[i].key <= rs[j].key
  }

  /** A well-formed page image: a sentinel NULL ends the live records, which
      are sorted, and an empty page has a NULL in its second slot too, so a
      scan starting at index 1 stops. */
  ghost predicate Wf(rs: seq<Rec>)
  {
    |rs| >= 4 && Live(rs) < |rs| &&
    (Live(rs) == 0 ==> rs[1].ptr == NULL) &&
    Sorted(rs, Live(rs))
  }

  /** The number of leading records whose key is at most key: for sorted
      records, where key belongs. */
  function Rank(rs: seq<Rec>, n: nat, key: int64): (r: nat)
    requires n <= |rs|
    ensures r <= n
    ensures r > 0 ==> rs[r - 1].key <= key
    ensures forall j :: r <= j < n ==> key < rs[j].key
  {
    if n == 0 || rs[n - 1].key <= key then n else Rank(rs, n - 1, key)
  }

  /** The records after insert_key(key, ptr) on n live records: the live ones
      from the insertion point move up one slot, and only the pointer of the
      old sentinel moves into slot n + 1. */
  function Inserted(rs: seq<Rec>, n: nat, key: int64, ptr: nat): (r: seq<Rec>)
    requires n + 1 < |rs|
    ensures |r| == |rs|
  {
    var p := Rank(rs, n, key);
    seq(|rs|, j requires 0 <= j < |rs| =>
      if j < p then rs[j]
      else if j == p then Rec(key, ptr)
      else if j <= n then rs[j - 1]
      else if j == n + 1 then Rec(rs[n + 1].key, rs[n].ptr)
      else rs[j])
  }

  /** The index of the first of the f live records with the key (f if none). */
  function FindKey(rs: seq<Rec>, i: nat, f: nat, key: int64): (r: nat)
    requires i <= f <= |rs|
    ensures i <= r <= f
    ensures forall j :: i <= j < r ==> rs[j].key != key
    ensures r < f ==> rs[r].key == key
    decreases f - i
  {
    if i == f || rs[i].key == key then i else FindKey(rs, i + 1, f, key)
  }

  /** The records after remove_key(key) on f live records: everything from the
      first match up to the sentinel moves down one slot. */
  function Removed(rs: seq<Rec>, f: nat, key: int64): (r: seq<Rec>)
    requires f < |rs|
    ensures |r| == |rs|
  {
    var q := FindKey(rs, 0, f, key);
    if q == f then rs
    else seq(|rs|, j requires 0 <= j < |rs| => if q <= j < f then rs[j + 1] else rs[j])
  }

  /** The child an internal page sends key to when its pointers are distinct:
      leftmost below the first key, else the pointer of the last record whose
      key is at most key. */
  function ChildFor(rs: seq<Rec>, n: nat, lm: nat, key: int64): nat
    requires n <= |rs|
  {
    var b := Rank(rs, n, key);
    if b == 0 then lm else rs[b - 1].ptr
  }

  /** No two of the n live pointers, nor leftmost, coincide. */
  ghost predicate DistinctPtrs(rs: seq<Rec>, n: nat, lm: nat)
    requires n <= |rs|
  {
    (forall i, j :: 0 <= i < j < n ==> rs[i].ptr != rs[j].ptr) &&
    (forall j :: 0 <= j < n ==> rs[j].ptr != lm)
  }

  // ---------------------------------------------------------------------
  // The two scan directions of linear_search, as values
  // ---------------------------------------------------------------------

  /** Left-to-right scan of an internal page from record i on: the pointer
      left of the first key above key whose pointer differs from its left
      neighbour, or the last live pointer. */
  function FwdScan(rs: seq<Rec>, key: int64, i: nat): nat
    requires 1 <= i < |rs| && FirstNull(rs, i) < |rs|
    decreases |rs| - i
  {
    if rs[i].ptr == NULL then rs[i - 1].ptr
    else if key < rs[i].key && rs[i - 1].ptr != rs[i].ptr then rs[i - 1].ptr
    else FwdScan(rs, key, i + 1)
  }

  function FwdChild(rs: seq<Rec>, lm: nat, key: int64): nat
    requires 2 <= |rs| && FirstNull(rs, 1) < |rs|
  {
    if key < rs[0].key && lm != rs[0].ptr then lm else FwdScan(rs, key, 1)
  }

  /** Right-to-left scan of the first n records of an internal page: the
      pointer of the last key at most key that differs from its left
      neighbour (leftmost for record 0), NULL when there is none. */
  function BwdChild(rs: seq<Rec>, lm: nat, key: int64, n: nat): nat
    requires n <= |rs|
  {
    if n == 0 then NULL
    else if key >= rs[n - 1].key &&
            (if n == 1 then lm != rs[0].ptr else rs[n - 2].ptr != rs[n - 1].ptr)
    then rs[n - 1].ptr
    else BwdChild(rs, lm, key, n - 1)
  }

  /** The child the internal-node search settles on before looking at the
      sibling: the scan chosen by the switch counter, leftmost if it found
      nothing. */
  function InnerChoice(rs: seq<Rec>, lm: nat, sc: nat, key: int64): nat
    requires 2 <= |rs| && FirstNull(rs, 1) < |rs| && Live(rs) < |rs|
  {
    var r := if IsForward(sc) then FwdChild(rs, lm, key) else BwdChild(rs, lm, key, Live(rs));
    if r != NULL then r else lm
  }

  /** Left-to-right scan of a fast_fair leaf from record i on. */
  function LeafFwdScan(rs: seq<Rec>, key: int64, i: nat): nat
    requires 1 <= i < |rs| && FirstNull(rs, i) < |rs|
    decreases |rs| - i
  {
    if rs[i].ptr == NULL then NULL
    else if rs[i].key == key && rs[i - 1].ptr != rs[i].ptr then rs[i].ptr
    else LeafFwdScan(rs, key, i + 1)
  }

  function LeafFwd(rs: seq<Rec>, key: int64): nat
    requires 2 <= |rs| && FirstNull(rs, 1) < |rs|
  {
    if rs[0].key == key && rs[0].ptr != NULL then rs[0].ptr else LeafFwdScan(rs, key, 1)
  }

  /** Right-to-left scan of the first n records of a fast_fair leaf. */
  function LeafBwd(rs: seq<Rec>, key: int64, n: nat): nat
    requires 1 <= |rs| && n <= |rs|
  {
    if n <= 1 then (if rs[0].key == key && rs[0].ptr != NULL then rs[0].ptr else NULL)
    else if rs[n - 1].key == key && rs[n - 2].ptr != rs[n - 1].ptr && rs[n - 1].ptr != NULL
    then rs[n - 1].ptr
    else LeafBwd(rs, key, n - 1)
  }

  function LeafChoice(rs: seq<Rec>, sc: nat, key: int64): nat
    requires 2 <= |rs| && FirstNull(rs, 1) < |rs| && Live(rs) < |rs|
  {
    if IsForward(sc) then LeafFwd(rs, key) else LeafBwd(rs, key, Live(rs))
  }

  /** Where a search goes next: down a pointer (NULL when a leaf lacks the
      key) or right to the sibling. */
  datatype Next = Down(ptr: nat) | Right(page: Page)

  // ---------------------------------------------------------------------
  // Facts about insertion and removal
  // ---------------------------------------------------------------------

  lemma InsertedSentinel(rs: seq<Rec>, n: nat, key: int64, ptr: nat)
    requires n == Live(rs) && n + 1 < |rs| && ptr != NULL
    ensures Live(Inserted(rs, n, key, ptr)) == n + 1
  {
    var r := Inserted(rs, n, key, ptr);
    forall j | 0 <= j < n + 1
      ensures r[j].ptr != NULL
    {
    }
    assert r[n + 1].ptr == NULL;
  }

  lemma InsertedSorted(rs: seq<Rec>, n: nat, key: int64, ptr: nat)
    requires n + 1 < |rs| && Sorted(rs, n)
    ensures Sorted(Inserted(rs, n, key, ptr), n + 1)
  {
    var r := Inserted(rs, n, key, ptr);
    var p := Rank(rs, n, key);
    forall i, j | 0 <= i < j < n + 1
      ensures r[i].key <= r[j].key
    {
      if j < p {
      } else if j == p {
        assert r[i] == rs[i];
      } else if i == p {
        assert r[j] == rs[j - 1];
      } else if i < p {
        assert r[i] == rs[i] && r[j] == rs[j - 1];
      } else {
        assert r[i] == rs[i - 1] && r[j] == rs[j - 1];
      }
    }
  }

  /** The live part after insertion is the old live part with the new record
      placed at its rank. */
  lemma InsertedLive(rs: seq<Rec>, n: nat, key: int64, ptr: nat)
    requires n + 1 < |rs|
    ensures Inserted(rs, n, key, ptr)[..n + 1] ==
            rs[..Rank(rs, n, key)] + [Rec(key, ptr)] + rs[Rank(rs, n, key)..n]
    ensures multiset(Inserted(rs, n, key, ptr)[..n + 1]) == multiset(rs[..n]) + multiset{Rec(key, ptr)}
  {
    var r := Inserted(rs, n, key, ptr);
    var p := Rank(rs, n, key);
    var s := rs[..p] + [Rec(key, ptr)] + rs[p..n];
    assert |s| == n + 1;
    forall j | 0 <= j < n + 1
      ensures r[j] == s[j]
    {
      if j < p {
      } else if j == p {
      } else {
        assert s[j] == rs[p..n][j - p - 1];
      }
    }
    assert r[..n + 1] == s;
    calc {
      multiset(s);
      multiset(rs[..p] + [Rec(key, ptr)]) + multiset(rs[p..n]);
      multiset(rs[..p]) + multiset{Rec(key, ptr)} + multiset(rs[p..n]);
      { assert rs[..n] == rs[..p] + rs[p..n]; }
      multiset(rs[..n]) + multiset{Rec(key, ptr)};
    }
  }

  /** insert_key keeps a well-formed page well formed with one more record. */
  lemma InsertedWf(rs: seq<Rec>, n: nat, key: int64, ptr: nat)
    requires Wf(rs) && n == Live(rs) && n + 1 < |rs| && ptr != NULL
    ensures Wf(Inserted(rs, n, key, ptr))
    ensures Live(Inserted(rs, n, key, ptr)) == n + 1
  {
    InsertedSentinel(rs, n, key, ptr);
    InsertedSorted(rs, n, key, ptr);
  }

  lemma RemovedWf(rs: seq<Rec>, key: int64)
    requires Wf(rs)
    ensures Wf(Removed(rs, Live(rs), key))
    ensures Live(Removed(rs, Live(rs), key)) ==
            if FindKey(rs, 0, Live(rs), key) < Live(rs) then Live(rs) - 1 else Live(rs)
  {
    var f := Live(rs);
    var q := FindKey(rs, 0, f, key);
    var r := Removed(rs, f, key);
    if q < f {
      forall j | 0 <= j < f - 1
        ensures r[j].ptr != NULL
      {
        assert r[j] == (if q <= j then rs[j + 1] else rs[j]);
      }
      assert r[f - 1] == rs[f];
      assert Live(r) == f - 1;
      forall i, j | 0 <= i < j < f - 1
        ensures r[i].key <= r[j].key
      {
        assert r[i] == (if q <= i then rs[i + 1] else rs[i]);
        assert r[j] == (if q <= j then rs[j + 1] else rs[j]);
      }
      if f - 1 == 0 {
        assert r[1] == rs[1];
      }
    }
  }

  /** FindKey finds a record iff one of the f records has the key. */
  lemma FoundIff(rs: seq<Rec>, f: nat, key: int64)
    requires f <= |rs|
    ensures FindKey(rs, 0, f, key) < f <==> exists j :: 0 <= j < f && rs[j].key == key
  {
    if exists j :: 0 <= j < f && rs[j].key == key {
      var j :| 0 <= j < f && rs[j].key == key;
      assert FindKey(rs, 0, f, key) <= j;
    }
  }

  /** remove_key: the live part loses exactly its first record with the key,
      and the ones after it move down one slot; the key is found iff it is
      among the live keys. */
  lemma RemovedLive(rs: seq<Rec>, f: nat, key: int64)
    requires f < |rs|
    ensures var q := FindKey(rs, 0, f, key);
      q < f ==> Removed(rs, f, key)[..f - 1] == rs[..q] + rs[q + 1..f] &&
                multiset(Removed(rs, f, key)[..f - 1]) + multiset{rs[q]} == multiset(rs[..f])
    ensures FindKey(rs, 0, f, key) == f ==> Removed(rs, f, key) == rs
  {
    var q := FindKey(rs, 0, f, key);
    if q < f {
      CloseGap(rs, Removed(rs, f, key), q, f);
    }
  }

  /** Closing the gap at q in the first f records leaves the others in order,
      one record short. */
  lemma CloseGap(rs: seq<Rec>, r: seq<Rec>, q: nat, f: nat)
    requires q < f < |rs| == |r|
    requires forall j {:trigger r[j]} :: 0 <= j < |rs| ==> r[j] == if q <= j < f then rs[j + 1] else rs[j]
    ensures r[..f - 1] == rs[..q] + rs[q + 1..f]
    ensures multiset(r[..f - 1]) + multiset{rs[q]} == multiset(rs[..f])
  {
    var s := rs[..q] + rs[q + 1..f];
    forall j | 0 <= j < f - 1
      ensures r[j] == s[j]
    {
      if j >= q {
        assert s[j] == rs[q + 1..f][j - q];
      }
    }
    assert r[..f - 1] == s;
    assert rs[..f] == rs[..q] + [rs[q]] + rs[q + 1..f];
  }

  // ---------------------------------------------------------------------
  // The search directions agree with ChildFor
  // ---------------------------------------------------------------------

  lemma {:induction false} FwdScanIsChildFor(rs: seq<Rec>, lm: nat, key: int64, i: nat)
    requires Wf(rs) && 1 <= i <= Live(rs) && DistinctPtrs(rs, Live(rs), lm)
    requires forall j :: 0 <= j < i ==> rs[j].key <= key
    ensures FwdScan(rs, key, i) == ChildFor(rs, Live(rs), lm, key)
    decreases |rs| - i
  {
    var f := Live(rs);
    assert FirstNull(rs, i) == f;
    if i == f {
      RankAt(rs, f, key, f);
    } else if key < rs[i].key {
      assert rs[i - 1].ptr != rs[i].ptr;
      RankAt(rs, f, key, i);
    } else {
      FwdScanIsChildFor(rs, lm, key, i + 1);
    }
  }

  /** Rank is the b whose left neighbour is at most key and from which on
      every key is above it. */
  lemma {:induction false} RankAt(rs: seq<Rec>, n: nat, key: int64, b: nat)
    requires b <= n <= |rs| && (b > 0 ==> rs[b - 1].key <= key)
    requires forall j :: b <= j < n ==> key < rs[j].key
    ensures Rank(rs, n, key) == b
    decreases n
  {
    if n > b {
      RankAt(rs, n - 1, key, b);
    }
  }

  /** The forward scan of a well-formed internal page with distinct pointers
      picks the child ChildFor names. */
  lemma FwdIsChildFor(rs: seq<Rec>, lm: nat, key: int64)
    requires Wf(rs) && lm != NULL && DistinctPtrs(rs, Live(rs), lm)
    ensures InnerChoice(rs, lm, 0, key) == ChildFor(rs, Live(rs), lm, key)
  {
    var f := Live(rs);
    if f == 0 {
      assert FwdScan(rs, key, 1) == NULL;
    } else if key < rs[0].key {
      RankAt(rs, f, key, 0);
    } else {
      FwdScanIsChildFor(rs, lm, key, 1);
      assert rs[Rank(rs, f, key) - 1].ptr != NULL;
    }
  }

  lemma {:induction false} BwdScanIsChildFor(rs: seq<Rec>, lm: nat, key: int64, n: nat)
    requires Wf(rs) && n <= Live(rs) && DistinctPtrs(rs, Live(rs), lm)
    requires forall j :: n <= j < Live(rs) ==> key < rs[j].key
    ensures BwdChild(rs, lm, key, n) == if Rank(rs, Live(rs), key) == 0 then NULL else rs[Rank(rs, Live(rs), key) - 1].ptr
  {
    var f := Live(rs);
    if n == 0 {
      RankAt(rs, f, key, 0);
    } else if key >= rs[n - 1].key {
      RankAt(rs, f, key, n);
    } else {
      BwdScanIsChildFor(rs, lm, key, n - 1);
    }
  }

  /** The backward scan agrees with the forward one on a well-formed internal
      page with distinct pointers: both are ChildFor. */
  lemma BwdIsChildFor(rs: seq<Rec>, lm: nat, key: int64)
    requires Wf(rs) && lm != NULL && DistinctPtrs(rs, Live(rs), lm)
    ensures InnerChoice(rs, lm, 1, key) == ChildFor(rs, Live(rs), lm, key)
  {
    BwdScanIsChildFor(rs, lm, key, Live(rs));
  }

  /** Keys strictly increase over the live records (store rejects
      duplicates in fast_fair). */
  ghost predicate StrictlySorted(rs: seq<Rec>, n: nat)
    requires n <= |rs|
  {
    forall i, j :: 0 <= i < j < n ==> rs[i].key < rs[j].key
  }

  /** Neighbouring live pointers differ (and differ from NULL). */
  ghost predicate NeighboursDiffer(rs: seq<Rec>, n: nat)
    requires n <= |rs|
  {
    forall j :: 1 <= j < n ==> rs[j - 1].ptr != rs[j].ptr
  }

  /** What a leaf holds for key: the pointer of its record, NULL if none. */
  function LeafValue(rs: seq<Rec>, key: int64): nat
    requires Live(rs) <= |rs|
  {
    var q := FindKey(rs, 0, Live(rs), key);
    if q < Live(rs) then rs[q].ptr else NULL
  }

  lemma {:induction false} LeafFwdScanFinds(rs: seq<Rec>, key: int64, i: nat)
    requires Wf(rs) && 1 <= i <= Live(rs) && NeighboursDiffer(rs, Live(rs))
    requires forall j :: 0 <= j < i ==> rs[j].key != key
    ensures LeafFwdScan(rs, key, i) == LeafValue(rs, key)
    decreases |rs| - i
  {
    var f := Live(rs);
    assert FirstNull(rs, i) == f;
    if i == f {
    } else if rs[i].key == key {
      assert FindKey(rs, 0, f, key) == i;
    } else {
      LeafFwdScanFinds(rs, key, i + 1);
    }
  }

  lemma {:induction false} LeafBwdFinds(rs: seq<Rec>, key: int64, n: nat)
    requires Wf(rs) && n <= Live(rs) && NeighboursDiffer(rs, Live(rs)) && StrictlySorted(rs, Live(rs))
    requires forall j :: n <= j < Live(rs) ==> rs[j].key != key
    ensures n >= 1 ==> LeafBwd(rs, key, n) == LeafValue(rs, key)
  {
    var f := Live(rs);
    if n <= 1 {
      if n == 1 && rs[0].key != key {
        assert FindKey(rs, 0, f, key) == f;
      }
    } else if rs[n - 1].key == key {
      assert FindKey(rs, 0, f, key) == n - 1;
    } else {
      LeafBwdFinds(rs, key, n - 1);
    }
  }

  /** Both directions of the leaf search return the value of the key when
      keys are unique and neighbouring values differ. */
  lemma LeafSearchFinds(rs: seq<Rec>, sc: nat, key: int64)
    requires Wf(rs) && NeighboursDiffer(rs, Live(rs)) && StrictlySorted(rs, Live(rs))
    ensures LeafChoice(rs, sc, key) == LeafValue(rs, key)
  {
    var f := Live(rs);
    if IsForward(sc) {
      if f == 0 {
        assert LeafFwdScan(rs, key, 1) == NULL;
      } else if rs[0].key != key {
        LeafFwdScanFinds(rs, key, 1);
      }
    } else if f == 0 {
    } else {
      LeafBwdFinds(rs, key, f);
    }
  }

  /** The pointer-inequality test the readers use to skip records under
      shift also hides a key whose value equals its left neighbour's. */
  lemma LeafSearchSkipsRepeatedValue()
    ensures var rs := [Rec(1, 7), Rec(2, 7), BLANK, BLANK];
      Wf(rs) && LeafValue(rs, 2) == 7 && LeafChoice(rs, 0, 2) == NULL
  {
    var rs := [Rec(1, 7), Rec(2, 7), BLANK, BLANK];
    LiveIs(rs, 2);
    assert FindKey(rs, 0, 2, 2) == 1;
    assert LeafFwdScan(rs, 2, 2) == NULL;
  }

  // ---------------------------------------------------------------------
  // Splitting a full page
  // ---------------------------------------------------------------------

  /** The fresh sibling after the records rs[from..to) were inserted into it
      one by one. */
  function Moved(rs: seq<Rec>, from: nat, to: nat, len: nat): (r: seq<Rec>)
    requires from <= to <= |rs|
    ensures |r| == len
  {
    seq(len, j requires 0 <= j < len => if j < to - from then rs[from + j] else BLANK)
  }

  /** The page after `records[m].ptr = NULL`: m live records remain. */
  function Cut(rs: seq<Rec>, m: nat): (r: seq<Rec>)
    requires m < |rs|
    ensures |r| == |rs|
  {
    rs[m := Rec(rs[m].key, NULL)]
  }

  /** Inserting the next record of a sorted run into the sibling appends it. */
  lemma MovedStep(rs: seq<Rec>, from: nat, i: nat, len: nat)
    requires from <= i < Live(rs) <= |rs| && Sorted(rs, Live(rs)) && i - from + 1 < len
    ensures Live(Moved(rs, from, i, len)) == i - from
    ensures Wf(Moved(rs, from, i, len)) || len < 4
    ensures Inserted(Moved(rs, from, i, len), i - from, rs[i].key, rs[i].ptr) == Moved(rs, from, i + 1, len)
  {
    var s := Moved(rs, from, i, len);
    var n := i - from;
    assert s[n] == BLANK;
    assert Live(s) == n;
    if n > 0 {
      assert s[n - 1] == rs[i - 1];
    }
    assert Rank(s, n, rs[i].key) == n;
    var t := Inserted(s, n, rs[i].key, rs[i].ptr);
    var u := Moved(rs, from, i + 1, len);
    forall j | 0 <= j < len
      ensures t[j] == u[j]
    {
    }
    assert t == u;
    if len >= 4 && n == 0 {
      assert s[1] == BLANK;
    }
  }

  lemma CutWf(rs: seq<Rec>, m: nat)
    requires Wf(rs) && 1 <= m < Live(rs)
    ensures Wf(Cut(rs, m)) && Live(Cut(rs, m)) == m
  {
    var r := Cut(rs, m);
    assert forall j :: 0 <= j < m ==> r[j] == rs[j];
    LiveIs(r, m);
  }

  /** The two halves of a split of the live records at m: the left page keeps
      the records below m, the sibling receives those from `from` on (m for a
      leaf, m + 1 for an internal page, which moves rs[m] up as the split
      key). */
  lemma SplitHalves(rs: seq<Rec>, m: nat, from: nat, len: nat)
    requires Wf(rs) && 1 <= m < Live(rs) && (from == m || from == m + 1) && Live(rs) - from + 1 < len
    ensures Cut(rs, m)[..m] == rs[..m]
    ensures Moved(rs, from, Live(rs), len)[..Live(rs) - from] == rs[from..Live(rs)]
  {
    var f := Live(rs);
    var mv := Moved(rs, from, f, len);
    assert forall j :: 0 <= j < f - from ==> mv[j] == rs[from + j];
  }

  /** Every live key of the left half is at most the split key rs[m].key and
      every one of the right half at least. */
  lemma SplitKeyBounds(rs: seq<Rec>, m: nat, from: nat)
    requires Wf(rs) && 1 <= m < Live(rs) && (from == m || from == m + 1)
    ensures forall j :: 0 <= j < m ==> rs[j].key <= rs[m].key
    ensures forall j :: from <= j < Live(rs) ==> rs[m].key <= rs[j].key
  {
  }

  /** The halves hold exactly the old live records, with rs[m] counted once
      more when an internal page moves it up. */
  lemma SplitConserves(rs: seq<Rec>, m: nat, from: nat, f: nat)
    requires m < f <= |rs| && (from == m || from == m + 1)
    ensures from == m ==> multiset(rs[..m]) + multiset(rs[from..f]) == multiset(rs[..f])
    ensures from == m + 1 ==> multiset(rs[..m]) + multiset{rs[m]} + multiset(rs[from..f]) == multiset(rs[..f])
  {
    assert rs[..f] == rs[..m] + rs[m..f];
    assert rs[m..f] == [rs[m]] + rs[m + 1..f];
  }

  // ---------------------------------------------------------------------
  // The page object
  // ---------------------------------------------------------------------

  /** Which tree a page belongs to: the two page classes differ only in
      store (and ff's sibling minimum key). */
  datatype Flavour = FastFair | Ccl

  /** What store did. */
  datatype Stored =
    | Gone                               // the page was deleted
    | Forwarded(to: Page)                   // the key belongs to the sibling
    | Kept(at: Page)                        // updated or inserted in place
    | Divided(at: Page, splitKey: int64, right: Page, newRoot: Page?)
        // split: the key went to `at`; the caller inserts (splitKey, right)
        // into the parent unless newRoot is the grown root

  class Page {
    /** This page's own address, as other pages' records point to it. */
    const addr: nat
    var leftmost: nat
    var sibling: Page?
    var level: nat
    var switchCounter: nat
    var lastIndex: int
    var isDeleted: bool
    /** ff only: the smallest key the page may hold. */
    var minKey: int64
    const records: array<Rec>

    ghost predicate Valid()
      reads this, records
    {
      Wf(records[..]) && switchCounter < 256 && lastIndex == Live(records[..]) - 1
    }

    /** page(level): an empty page of the given cardinality. */
    constructor (lev: nat, cardinality: nat, a: nat)
      requires cardinality >= 4
      ensures Valid() && fresh(records)
      ensures records[..] == seq(cardinality, _ => BLANK) && addr == a
      ensures leftmost == NULL && sibling == null && level == lev && switchCounter == 0
      ensures !isDeleted && minKey == 0
    {
      addr := a;
      leftmost := NULL;
      sibling := null;
      level := lev;
      switchCounter := 0;
      lastIndex := -1;
      isDeleted := false;
      minKey := 0;
      records := new Rec[cardinality](_ => BLANK);
      new;
      assert records[..][0] == BLANK && records[..][1] == BLANK;
    }

    /** page(left, key, right, level): the root grown over a split, one
        record wide. */
    constructor Grow(left: nat, key: int64, right: nat, lev: nat, cardinality: nat, a: nat)
      requires cardinality >= 4 && right != NULL
      ensures Valid() && fresh(records) && Live(records[..]) == 1
      ensures leftmost == left && records[0] == Rec(key, right) && level == lev && addr == a
      ensures sibling == null && switchCounter == 0 && !isDeleted
    {
      addr := a;
      leftmost := left;
      sibling := null;
      level := lev;
      switchCounter := 0;
      lastIndex := 0;
      isDeleted := false;
      minKey := 0;
      var rs := new Rec[cardinality](_ => BLANK);
      rs[0] := Rec(key, right);
      rs[1] := Rec(rs[1].key, NULL);
      records := rs;
      new;
      assert records[..][1].ptr == NULL;
      assert Live(records[..]) == 1;
    }

    /** count(): with no writer in between, the index of the first NULL
        pointer, whichever way the switch counter points, provided
        last_index + 1 does not lie past it. */
    method Count() returns (r: nat)
      requires -1 <= lastIndex && lastIndex + 1 <= Live(records[..]) < records.Length
      ensures r == Live(records[..])
    {
      ghost var f := Live(records[..]);
      var c: int := lastIndex + 1;
      while c >= 0 && records[c].ptr != NULL
        invariant -1 <= c <= f
        invariant IsForward(switchCounter) ==> 0 <= c
        decreases if IsForward(switchCounter) then f - c else c + 1
      {
        if IsForward(switchCounter) {
          c := c + 1;
        } else {
          c := c - 1;
        }
      }
      if c < 0 {
        c := 0;
        while records[c].ptr != NULL
          invariant 0 <= c <= f
          decreases f - c
        {
          c := c + 1;
        }
      }
      r := c;
    }

    /** insert_key(key, ptr, &num): shift the larger records up from the
        back and drop the new one into the gap. */
    method InsertKey(key: int64, ptr: nat, num: nat) returns (num': nat)
      requires Valid() && num == Live(records[..]) && num + 1 < records.Length && ptr != NULL
      modifies this`switchCounter, this`lastIndex, records
      ensures Valid()
      ensures records[..] == Inserted(old(records[..]), num, key, ptr)
      ensures lastIndex == num && num' == num + 1
      ensures switchCounter == if IsForward(old(switchCounter)) then old(switchCounter) else Tick(old(switchCounter))
      ensures leftmost == old(leftmost) && sibling == old(sibling) && level == old(level)
      ensures isDeleted == old(isDeleted) && minKey == old(minKey)
    {
      if !IsForward(switchCounter) {
        switchCounter := Tick(switchCounter);
      }
      InsertedWf(records[..], num, key, ptr);
      ShiftIn(records, num, key, ptr);
      lastIndex := num;
      num' := num + 1;
    }

    /** remove_key(key): close the gap left by the first record with the
        key; returns whether there was one. */
    method RemoveKey(key: int64) returns (found: bool)
      requires Valid()
      modifies this, records
      ensures Valid()
      ensures records[..] == Removed(old(records[..]), old(Live(records[..])), key)
      ensures found <==> exists j :: 0 <= j < old(Live(records[..])) && old(records[j].key) == key
      ensures lastIndex == if found then old(lastIndex) - 1 else old(lastIndex)
      ensures switchCounter == if IsForward(old(switchCounter)) then Tick(old(switchCounter)) else old(switchCounter)
      ensures leftmost == old(leftmost) && sibling == old(sibling) && level == old(level)
      ensures isDeleted == old(isDeleted) && minKey == old(minKey)
    {
      if IsForward(switchCounter) {
        switchCounter := Tick(switchCounter);
      }
      ghost var rs := records[..];
      FoundIff(rs, Live(rs), key);
      RemovedWf(rs, key);
      found := ShiftOut(records, key);
      if found {
        lastIndex := lastIndex - 1;
      }
    }

    /** linear_search(key): in a fast_fair leaf (no leftmost) the pointer
        stored with key, else the sibling if key reaches its first key, else
        NULL; in an internal page the sibling if key reaches its first key,
        else the child chosen by the scan the switch counter selects. */
    method LinearSearch(key: int64) returns (r: Next)
      requires Valid() && (sibling != null ==> sibling.records.Length > 0)
      ensures leftmost == NULL ==>
        r == (if LeafChoice(records[..], switchCounter, key) != NULL
              then Down(LeafChoice(records[..], switchCounter, key))
              else if sibling != null && key >= sibling.records[0].key then Right(sibling)
              else Down(NULL))
      ensures leftmost != NULL ==>
        r == (if sibling != null && key >= sibling.records[0].key then Right(sibling)
              else Down(InnerChoice(records[..], leftmost, switchCounter, key)))
    {
      var c := 0;
      if !IsForward(switchCounter) {
        c := Count();
      }
      if leftmost == NULL {
        var t := ScanLeaf(records, key, IsForward(switchCounter), c);
        if t != NULL {
          r := Down(t);
        } else if sibling != null && key >= sibling.records[0].key {
          r := Right(sibling);
        } else {
          r := Down(NULL);
        }
      } else {
        var t := ScanInner(records, leftmost, key, IsForward(switchCounter), c);
        if sibling != null && key >= sibling.records[0].key {
          r := Right(sibling);
        } else if t != NULL {
          r := Down(t);
        } else {
          r := Down(leftmost);
        }
      }
    }

    /** store(key, right) of the given flavour; a page that is full splits.
        fast_fair: an existing key keeps its entry (its pointer replaced when
        update), and a key above the sibling's first key is forwarded.  ff:
        no duplicate check, a key at or above the sibling's minkey is
        forwarded, and pages are never leaves.  The split of a root grows a
        new root at rootAddr; sibAddr is the new sibling's address. */
    method Store(fl: Flavour, key: int64, right: nat, update: bool, isRoot: bool, sibAddr: nat, rootAddr: nat)
      returns (res: Stored)
      requires Valid() && right != NULL && sibAddr != NULL
      requires sibling != null ==> sibling.records.Length > 0
      requires fl == Ccl ==> leftmost != NULL
      modifies this, records
      ensures res.Gone? <==> old(isDeleted)
      ensures res.Gone? || res.Forwarded? ==> unchanged(this) && unchanged(records)
      ensures !old(isDeleted) && old(sibling) != null &&
              (if fl == FastFair then key > old(sibling.records[0].key) else key >= old(sibling.minKey))
              <==> res.Forwarded?
      ensures res.Forwarded? ==> res.to == sibling
      ensures res.Kept? ==> res.at == this && Valid() && leftmost == old(leftmost) && sibling == old(sibling)
      ensures res.Kept? && fl == FastFair && FindKey(old(records[..]), 0, old(Live(records[..])), key) < old(Live(records[..])) ==>
              var q := FindKey(old(records[..]), 0, old(Live(records[..])), key);
              records[..] == (if update then old(records[..])[q := Rec(key, right)] else old(records[..])) &&
              lastIndex == old(lastIndex) && switchCounter == old(switchCounter)
      ensures res.Kept? && old(Live(records[..])) < records.Length - 1 &&
              (fl == Ccl || FindKey(old(records[..]), 0, old(Live(records[..])), key) == old(Live(records[..]))) ==>
              records[..] == Inserted(old(records[..]), old(Live(records[..])), key, right) &&
              lastIndex == old(lastIndex) + 1
      ensures res.Divided? ==>
              (fl == FastFair ==> FindKey(old(records[..]), 0, old(Live(records[..])), key) == old(Live(records[..]))) &&
              old(Live(records[..])) == records.Length - 1 && res.splitKey == old(records[(records.Length - 1) / 2].key) &&
              fresh(res.right) && fresh(res.right.records) && res.right.Valid() && Valid() &&
              res.right.addr == sibAddr && sibling == res.right && res.right.sibling == old(sibling) &&
              (res.at == this <==> key < res.splitKey) && (res.at == this || res.at == res.right) &&
              (isRoot <==> res.newRoot != null)
      ensures res.Divided? && isRoot ==>
              fresh(res.newRoot) && res.newRoot.Valid() && res.newRoot.addr == rootAddr &&
              res.newRoot.leftmost == addr && res.newRoot.records[0] == Rec(res.splitKey, sibAddr) &&
              res.newRoot.level == old(level) + 1 && Live(res.newRoot.records[..]) == 1
    {
      if isDeleted {
        return Gone;
      }
      if sibling != null {
        var forward := if fl == FastFair then key > sibling.records[0].key else key >= sibling.minKey;
        if forward {
          return Forwarded(sibling);
        }
      }
      var num := Count();
      if fl == FastFair {
        var q := FindFirst(records, num, key);
        if q < num {
          if update {
            Overwrite(q, right);
          }
          return Kept(this);
        }
      }
      if num < records.Length - 1 {
        num := InsertKey(key, right, num);
        return Kept(this);
      }
      var at, sib, splitKey := Split(fl, key, right, sibAddr);
      var root: Page? := null;
      if isRoot {
        root := new Page.Grow(addr, splitKey, sibAddr, level + 1, records.Length, rootAddr);
      }
      res := Divided(at, splitKey, sib, root);
    }

    /** Overwrite the pointer of live record q (store with update on an
        existing key). */
    method Overwrite(q: nat, right: nat)
      requires Valid() && q < Live(records[..]) && right != NULL
      modifies records
      ensures Valid()
      ensures records[..] == old(records[..])[q := Rec(old(records[q].key), right)]
    {
      ghost var rs := records[..];
      records[q] := Rec(records[q].key, right);
      LiveIs(records[..], Live(rs));
    }

    /** The FAIR half of store on a full page: divide it at m, then insert
        the key on its side of the split key. */
    method Split(fl: Flavour, key: int64, right: nat, sibAddr: nat) returns (at: Page, sib: Page, splitKey: int64)
      requires Valid() && right != NULL && Live(records[..]) == records.Length - 1
      requires fl == Ccl ==> leftmost != NULL
      modifies this, records
      ensures fresh(sib) && fresh(sib.records) && sib.Valid() && Valid()
      ensures sib.addr == sibAddr && sib.level == level && sib.sibling == old(sibling) && sibling == sib
      ensures leftmost == old(leftmost) && level == old(level) && isDeleted == old(isDeleted) && minKey == old(minKey)
      ensures !sib.isDeleted && sib.records.Length == records.Length
      ensures var n := records.Length - 1; var m := n / 2;
        var from := if old(leftmost) == NULL then m else m + 1;
        splitKey == old(records[m].key) &&
        (sib.leftmost == if old(leftmost) == NULL then NULL else old(records[m].ptr)) &&
        (sib.minKey == if fl == Ccl then old(records[m].key) else 0)
      ensures at == this <==> key < splitKey
      ensures var m := (records.Length - 1) / 2;
        key < splitKey ==> records[..] == Inserted(Cut(old(records[..]), m), m, key, right)
      ensures var n := records.Length - 1; var m := n / 2;
        var from := if old(leftmost) == NULL then m else m + 1;
        key < splitKey ==> sib.records[..] == Moved(old(records[..]), from, n, records.Length)
      ensures var m := (records.Length - 1) / 2;
        key >= splitKey ==> at == sib && records[..] == Cut(old(records[..]), m)
      ensures var n := records.Length - 1; var m := n / 2;
        var from := if old(leftmost) == NULL then m else m + 1;
        key >= splitKey ==> sib.records[..] == Inserted(Moved(old(records[..]), from, n, records.Length), n - from, key, right)
    {
      var cnt;
      sib, splitKey, cnt := Divide(fl, sibAddr);
      if key < splitKey {
        var _ := InsertKey(key, right, (records.Length - 1) / 2);
        at := this;
      } else {
        var _ := sib.InsertKey(key, right, cnt);
        at := sib;
      }
    }

    /** Everything store's split does before inserting the key: move the upper
        half into a fresh sibling (a leaf keeps records[m] on the right, an
        internal page makes its pointer the sibling's leftmost, and ff records
        its key as the sibling's minkey), link the sibling in, move the switch
        counter to an even value and cut this page at m. */
    method Divide(fl: Flavour, sibAddr: nat) returns (sib: Page, splitKey: int64, cnt: nat)
      requires Valid() && Live(records[..]) == records.Length - 1
      requires fl == Ccl ==> leftmost != NULL
      modifies this, records
      ensures fresh(sib) && fresh(sib.records) && sib.Valid() && Valid()
      ensures sib.addr == sibAddr && sib.level == level && sib.sibling == old(sibling) && sibling == sib
      ensures leftmost == old(leftmost) && level == old(level) && isDeleted == old(isDeleted) && minKey == old(minKey)
      ensures !sib.isDeleted && sib.records.Length == records.Length && sib.switchCounter == 0
      ensures IsForward(switchCounter) && switchCounter != old(switchCounter)
      ensures var n := records.Length - 1; var m := n / 2;
        var from := if old(leftmost) == NULL then m else m + 1;
        splitKey == old(records[m].key) && cnt == n - from && Live(sib.records[..]) == cnt &&
        Live(records[..]) == m && m == (records.Length - 1) / 2 &&
        (sib.leftmost == if old(leftmost) == NULL then NULL else old(records[m].ptr)) &&
        (sib.minKey == if fl == Ccl then old(records[m].key) else 0) &&
        records[..] == Cut(old(records[..]), m) &&
        sib.records[..] == Moved(old(records[..]), from, n, records.Length)
    {
      var m := (records.Length - 1) / 2;
      splitKey := records[m].key;
      sib, cnt := MakeSibling(fl, sibAddr);
      sib.sibling := sibling;
      sibling := sib;
      CutAt(m);
    }

    /** The fresh sibling of a split, holding the upper half of this page. */
    method MakeSibling(fl: Flavour, sibAddr: nat) returns (sib: Page, cnt: nat)
      requires Valid() && Live(records[..]) == records.Length - 1
      requires fl == Ccl ==> leftmost != NULL
      ensures fresh(sib) && fresh(sib.records) && sib.Valid()
      ensures sib.addr == sibAddr && sib.level == level && sib.sibling == null
      ensures !sib.isDeleted && sib.records.Length == records.Length && sib.switchCounter == 0
      ensures var n := records.Length - 1; var m := n / 2;
        var from := if leftmost == NULL then m else m + 1;
        cnt == n - from && Live(sib.records[..]) == cnt &&
        (sib.leftmost == if leftmost == NULL then NULL else records[m].ptr) &&
        (sib.minKey == if fl == Ccl then records[m].key else 0) &&
        sib.records[..] == Moved(records[..], from, n, records.Length)
    {
      var n := records.Length - 1;
      var m := n / 2;
      sib := new Page(level, records.Length, sibAddr);
      var from := if leftmost == NULL then m else m + 1;
      cnt := Migrate(sib, from, n);
      if leftmost != NULL {
        sib.leftmost := records[m].ptr;
        if fl == Ccl {
          sib.minKey := records[m].key;
        }
      }
    }

    /** The end of store's split on this page: move the switch counter on to
        an even value, end the live records at m with a NULL pointer and set
        last_index to m - 1. */
    method CutAt(m: nat)
      requires Valid() && 1 <= m < Live(records[..])
      modifies this, records
      ensures Valid() && records[..] == Cut(old(records[..]), m) && Live(records[..]) == m
      ensures IsForward(switchCounter) && switchCounter != old(switchCounter)
      ensures leftmost == old(leftmost) && sibling == old(sibling) && level == old(level)
      ensures isDeleted == old(isDeleted) && minKey == old(minKey)
    {
      if IsForward(switchCounter) {
        switchCounter := (switchCounter + 2) % 256;
      } else {
        switchCounter := Tick(switchCounter);
      }
      CutWf(records[..], m);
      records[m] := Rec(records[m].key, NULL);
      lastIndex := m - 1;
    }

    /** The migration loop of store's split: insert records[from..n) one by one
        into the fresh sibling. */
    method Migrate(sib: Page, from: nat, n: nat) returns (cnt: nat)
      requires Valid() && sib.Valid() && sib != this && sib.records != records
      requires sib.records[..] == seq(sib.records.Length, _ => BLANK) && sib.lastIndex == -1 && sib.switchCounter == 0
      requires 1 <= from <= n == Live(records[..]) && n - from + 1 < sib.records.Length
      modifies sib, sib.records
      ensures sib.Valid() && cnt == n - from && Live(sib.records[..]) == cnt
      ensures sib.records[..] == Moved(records[..], from, n, sib.records.Length)
      ensures sib.leftmost == old(sib.leftmost) && sib.sibling == old(sib.sibling) && sib.level == old(sib.level)
      ensures sib.isDeleted == old(sib.isDeleted) && sib.minKey == old(sib.minKey) && sib.switchCounter == 0
    {
      ghost var len := sib.records.Length;
      assert sib.records[..] == Moved(records[..], from, from, len);
      cnt := 0;
      var i := from;
      while i < n
        invariant from <= i <= n && cnt == i - from
        invariant sib.records[..] == Moved(records[..], from, i, len)
        invariant sib.Valid() && Live(sib.records[..]) == cnt
        invariant sib.leftmost == old(sib.leftmost) && sib.sibling == old(sib.sibling) && sib.level == old(sib.level)
        invariant sib.isDeleted == old(sib.isDeleted) && sib.minKey == old(sib.minKey) && sib.switchCounter == 0
      {
        MovedStep(records[..], from, i, len);
        cnt := sib.InsertKey(records[i].key, records[i].ptr, cnt);
        i := i + 1;
      }
    }
  }

  /** The shifting loop of insert_key on num live records. */
  method ShiftIn(records: array<Rec>, num: nat, key: int64, ptr: nat)
    requires num == Live(records[..]) && num + 1 < records.Length
    modifies records
    ensures records[..] == Inserted(old(records[..]), num, key, ptr)
  {
    ghost var rs := records[..];
    if num == 0 {
      records[0] := Rec(key, ptr);
      records[1] := Rec(records[1].key, NULL);
      assert records[..] == Inserted(rs, num, key, ptr);
      return;
    }
    records[num + 1] := Rec(records[num + 1].key, records[num].ptr);
    var i: int := num - 1;
    while i >= 0
      invariant -1 <= i < num
      invariant forall j {:trigger records[j]} :: 0 <= j < records.Length ==>
        records[j] == (if j <= i + 1 then rs[j]
                       else if j <= num then rs[j - 1]
                       else if j == num + 1 then Rec(rs[num + 1].key, rs[num].ptr)
                       else rs[j])
      invariant forall j :: i < j < num ==> key < rs[j].key
    {
      if key < records[i].key {
        records[i + 1] := records[i];
        i := i - 1;
      } else {
        records[i + 1] := Rec(key, ptr);
        InsertedIs(rs, records[..], num, key, ptr, i + 1);
        return;
      }
    }
    records[0] := Rec(key, ptr);
    InsertedIs(rs, records[..], num, key, ptr, 0);
  }

  /** Records laid out as insert_key leaves them with the new record at p,
      where p is the rank of its key, are Inserted. */
  lemma InsertedIs(rs: seq<Rec>, a: seq<Rec>, n: nat, key: int64, ptr: nat, p: nat)
    requires n + 1 < |rs| == |a| && p <= n
    requires (p > 0 ==> rs[p - 1].key <= key) && forall j :: p <= j < n ==> key < rs[j].key
    requires forall j {:trigger a[j]} :: 0 <= j < |rs| ==>
      a[j] == (if j < p then rs[j]
               else if j == p then Rec(key, ptr)
               else if j <= n then rs[j - 1]
               else if j == n + 1 then Rec(rs[n + 1].key, rs[n].ptr)
               else rs[j])
    ensures a == Inserted(rs, n, key, ptr)
  {
    RankAt(rs, n, key, p);
  }

  /** The shifting loop of remove_key; returns whether the key was found. */
  method ShiftOut(records: array<Rec>, key: int64) returns (shift: bool)
    requires Wf(records[..])
    modifies records
    ensures records[..] == Removed(old(records[..]), old(Live(records[..])), key)
    ensures shift <==> FindKey(old(records[..]), 0, old(Live(records[..])), key) < old(Live(records[..]))
  {
    ghost var rs := records[..];
    ghost var f := Live(rs);
    ghost var q := FindKey(rs, 0, f, key);
    shift := false;
    var i := 0;
    while records[i].ptr != NULL
      invariant 0 <= i <= f
      invariant shift <==> q < i
      invariant forall j {:trigger records[j]} :: 0 <= j < records.Length ==>
        records[j] == if shift && q <= j < i then rs[j + 1] else rs[j]
      decreases f - i
    {
      assert records[i] == rs[i] && records[i + 1] == rs[i + 1];
      if !shift && records[i].key == key {
        shift := true;
      }
      if shift {
        records[i] := records[i + 1];
      }
      i := i + 1;
    }
    assert i == f;
    assert records[..] == Removed(rs, f, key);
  }

  /** The index of the first of the first n records with the key (n if
      none), as store's duplicate check scans. */
  method FindFirst(records: array<Rec>, n: nat, key: int64) returns (q: nat)
    requires n <= records.Length
    ensures q == FindKey(records[..], 0, n, key)
  {
    q := 0;
    while q < n && records[q].key != key
      invariant q <= n && FindKey(records[..], 0, n, key) == FindKey(records[..], q, n, key)
    {
      q := q + 1;
    }
  }

  /** The two scan loops of the internal-node search; c is count() when
      scanning backwards. */
  method ScanInner(records: array<Rec>, lm: nat, key: int64, forward: bool, c: nat) returns (t: nat)
    requires Wf(records[..]) && (!forward ==> c == Live(records[..]))
    ensures (if t != NULL then t else lm) ==
            InnerChoice(records[..], lm, if forward then 0 else 1, key)
  {
    ghost var rs := records[..];
    if forward {
      if key < records[0].key && lm != records[0].ptr {
        return lm;
      }
      var i := 1;
      assert FirstNull(rs, 1) < |rs| by {
        if Live(rs) > 0 { assert FirstNull(rs, 1) == Live(rs); }
      }
      while records[i].ptr != NULL
        invariant 1 <= i < records.Length && FirstNull(rs, i) < |rs|
        invariant FwdChild(rs, lm, key) == FwdScan(rs, key, i)
        decreases records.Length - i
      {
        if key < records[i].key && records[i - 1].ptr != records[i].ptr {
          return records[i - 1].ptr;
        }
        i := i + 1;
      }
      t := records[i - 1].ptr;
    } else {
      var i: nat := c;
      while i > 0
        invariant 0 <= i <= c
        invariant BwdChild(rs, lm, key, c) == BwdChild(rs, lm, key, i)
      {
        if key >= records[i - 1].key &&
           (if i == 1 then lm != records[0].ptr else records[i - 2].ptr != records[i - 1].ptr) {
          return records[i - 1].ptr;
        }
        i := i - 1;
      }
      t := NULL;
    }
  }

  /** The two scan loops of the fast_fair leaf search. */
  method ScanLeaf(records: array<Rec>, key: int64, forward: bool, c: nat) returns (t: nat)
    requires Wf(records[..]) && (!forward ==> c == Live(records[..]))
    ensures t == LeafChoice(records[..], if forward then 0 else 1, key)
  {
    ghost var rs := records[..];
    if forward {
      if records[0].key == key && records[0].ptr != NULL {
        return records[0].ptr;
      }
      var i := 1;
      assert FirstNull(rs, 1) < |rs| by {
        if Live(rs) > 0 { assert FirstNull(rs, 1) == Live(rs); }
      }
      while records[i].ptr != NULL
        invariant 1 <= i < records.Length && FirstNull(rs, i) < |rs|
        invariant LeafFwd(rs, key) == LeafFwdScan(rs, key, i)
        decreases records.Length - i
      {
        if records[i].key == key && records[i - 1].ptr != records[i].ptr {
          return records[i].ptr;
        }
        i := i + 1;
      }
      t := NULL;
    } else {
      var i: nat := c;
      while i > 1
        invariant i <= c && (c >= 1 ==> i >= 1)
        invariant LeafBwd(rs, key, c) == LeafBwd(rs, key, i)
      {
        if records[i - 1].key == key && records[i - 2].ptr != records[i - 1].ptr && records[i - 1].ptr != NULL {
          return records[i - 1].ptr;
        }
        i := i - 1;
      }
      t := if records[0].key == key && records[0].ptr != NULL then records[0].ptr else NULL;
    }
  }
}
