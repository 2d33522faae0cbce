// The write log of CCL-BTree (include/tools/log.cpp, and its NUMA variant
// include/tools/log_numa.c).  Every thread owns two logs, its generations;
// the tree appends to the current one (`alt`), and after an epoch flip the
// recycler switches each thread to the other generation and splices the old
// one's chunks back onto a single shared free list.  Chunks are singly
// linked through their `next` word; a log and the free list each start at
// a sentinel chunk of their own.
//
// Chunk addresses are abstract ids (0 is NULL) and the `next` words are the
// map `next`.  Who holds which chunk is ghost bookkeeping: the chain of each
// list, and an owner per id, which is what makes the lists disjoint.

module WriteLog {

  /** The null chunk pointer. */
  const NULL: nat := 0
  /** `LOG_CHUNK_SIZE`: the bytes of one chunk, 4 MiB. */
  const LOG_CHUNK_SIZE: nat := 4194304
  /** `LOG_ENTRYS_PER_CHUNK`: the entry slots behind a chunk's next word. */
  const LOG_ENTRYS_PER_CHUNK: nat := 174762
  /** `LOG_ENTRY_SIZE`: key, value and timestamp, three 64-bit words. */
  const LOG_ENTRY_SIZE: nat := 24
  /** `LOG_FILE_SIZE`: the chunks carved out of one log file. */
  const LOG_FILE_SIZE: nat := 1200

  /** `log_entry_t` without its timestamp. */
  datatype LogEntry = LogEntry(key: int, value: int)

  /** `vlog_t`: the volatile cursor of one generation: its tail chunk, the
      bytes of the chunks it holds and the entries written in the tail. */
  datatype Vlog = Vlog(nowChunk: nat, totSize: nat, entryCnt: nat)

  /** One thread's log group: the generation in use, and per generation the
      sentinel chunk of its log, its cursor and its flush count.  The
      volatile `vlog_groups[i]->alt` and the durable `log_groups[i]->alt` are
      always set together and are one field here. */
  datatype ThreadLog = ThreadLog(alt: nat, head: seq<nat>, vlog: seq<Vlog>, flushed: seq<nat>)

  predicate WfThread(tl: ThreadLog)
  {
    tl.alt < 2 && |tl.head| == 2 && |tl.vlog| == 2 && |tl.flushed| == 2
  }

  /** Who holds a chunk id: the free list's sentinel, the free list, the
      caller of `get_log_chunk` (between the pop and the link), the sentinel
      of a log, or a log. */
  datatype Owner = FreeHead | Free | Taken | Head(t: nat, g: nat) | Held(t: nat, g: nat)

  /** The whole pool; free, chains and owner are the ghost bookkeeping. */
  datatype Pool = Pool(next: map<nat, nat>, freeHead: nat, threads: seq<ThreadLog>, slots: map<(nat, nat), LogEntry>,
                       nextId: nat, free: seq<nat>, chains: seq<seq<seq<nat>>>, owner: map<nat, Owner>)

  function Last(L: seq<nat>): nat
    requires L != []
  {
    L[|L| - 1]
  }

  ghost predicate NoDup(L: seq<nat>)
  {
    forall i, j :: 0 <= i < j < |L| ==> L[i] != L[j]
  }

  /** Following next from s visits exactly the chunks of L, and then NULL. */
  ghost predicate Chain(next: map<nat, nat>, s: nat, L: seq<nat>)
    decreases |L|
  {
    if L == [] then s == NULL
    else s == L[0] && s != NULL && s in next && Chain(next, next[s], L[1..])
  }

  /** The chunks of a chain have next words. */
  lemma {:induction false} ChainHas(n: map<nat, nat>, s: nat, L: seq<nat>, k: nat)
    requires Chain(n, s, L) && k in L
    ensures k in n && k != NULL
    decreases |L|
  {
    if k != L[0] {
      assert k in L[1..];
      ChainHas(n, n[s], L[1..], k);
    }
  }

  /** A chain only depends on the next words of its own chunks. */
  lemma {:induction false} ChainAgree(n1: map<nat, nat>, n2: map<nat, nat>, s: nat, L: seq<nat>)
    requires Chain(n1, s, L)
    requires forall k :: k in L ==> k in n1 && k in n2 && n2[k] == n1[k]
    ensures Chain(n2, s, L)
    decreases |L|
  {
    if L != [] {
      assert L[0] in L;
      forall k | k in L[1..] ensures k in n1 && k in n2 && n2[k] == n1[k] {
        assert k in L;
      }
      ChainAgree(n1, n2, n1[s], L[1..]);
    }
  }

  /** Pointing the last chunk of a chain at the start of a second, disjoint
      chain joins them (`tail->next = head->next`). */
  lemma {:induction false} ChainJoin(n: map<nat, nat>, s: nat, A: seq<nat>, s2: nat, B: seq<nat>)
    requires Chain(n, s, A) && A != [] && NoDup(A) && Chain(n, s2, B)
    requires forall k :: k in A ==> k !in B
    ensures Chain(n[Last(A) := s2], s, A + B)
    decreases |A|
  {
    var n' := n[Last(A) := s2];
    if |A| == 1 {
      assert A + B == [s] + B;
      assert Last(A) in A;
      forall k | k in B ensures k in n {
        ChainHas(n, s2, B, k);
      }
      ChainAgree(n, n', s2, B);
      assert (A + B)[1..] == B;
    } else {
      assert A[0] != Last(A);
      forall k | k in A[1..] ensures k !in B {
        assert k in A;
      }
      ChainJoin(n, n[s], A[1..], s2, B);
      assert Last(A[1..]) == Last(A);
      assert (A + B)[1..] == A[1..] + B;
    }
  }

  lemma NoDupJoin(A: seq<nat>, B: seq<nat>)
    requires NoDup(A) && NoDup(B) && forall k :: k in A ==> k !in B
    ensures NoDup(A + B)
  {
    forall i, j | 0 <= i < j < |A + B| ensures (A + B)[i] != (A + B)[j] {
      if i < |A| && j >= |A| {
        assert A[i] in A && (A + B)[j] == B[j - |A|];
      }
    }
  }

  /** Every chunk of L has owner w. */
  ghost predicate OwnedBy(owner: map<nat, Owner>, L: seq<nat>, w: Owner)
  {
    forall k :: k in L ==> k in owner && owner[k] == w
  }

  /** Generation g of a thread is in use: the current one, or an old one
      whose chunks have not been collected yet. */
  predicate InUse(tl: ThreadLog, g: nat)
    requires WfThread(tl) && g < 2
  {
    g == tl.alt || tl.vlog[g].totSize > 0
  }

  /** Generation g of thread t: its sentinel is its own and, while in use,
      the chunks behind the sentinel are L, all its own; the cursor is at the
      last one, tot_size counts them and the tail chunk has a free slot. */
  ghost predicate GenOk(next: map<nat, nat>, owner: map<nat, Owner>, tl: ThreadLog, L: seq<nat>, t: nat, g: nat)
    requires WfThread(tl) && g < 2
  {
    var h := tl.head[g];
    var v := tl.vlog[g];
    && h in owner && owner[h] == Head(t, g)
    && (InUse(tl, g) ==>
         && Chain(next, h, [h] + L) && NoDup(L) && OwnedBy(owner, L, Held(t, g))
         && v.nowChunk == Last([h] + L)
         && v.totSize == |L| * LOG_CHUNK_SIZE
         && v.entryCnt < LOG_ENTRYS_PER_CHUNK
         && (L == [] ==> v.entryCnt == 0))
  }

  ghost predicate Shaped(p: Pool)
  {
    |p.chains| == |p.threads| && forall t :: 0 <= t < |p.threads| ==> WfThread(p.threads[t]) && |p.chains[t]| == 2
  }

  /** The free list runs from its sentinel through the free chunks, each
      once. */
  ghost predicate FreeOk(p: Pool)
  {
    && p.freeHead in p.owner && p.owner[p.freeHead] == FreeHead
    && Chain(p.next, p.freeHead, [p.freeHead] + p.free) && NoDup(p.free) && OwnedBy(p.owner, p.free, Free)
  }

  ghost predicate GensOk(p: Pool)
    requires Shaped(p)
  {
    forall t, g :: 0 <= t < |p.threads| && 0 <= g < 2 ==> GenOk(p.next, p.owner, p.threads[t], p.chains[t][g], t, g)
  }

  /** Every id in use is below the allocator's next id. */
  ghost predicate Bounded(p: Pool)
  {
    (forall k :: k in p.next ==> 0 < k < p.nextId) && (forall k :: k in p.owner ==> 0 < k < p.nextId)
  }

  /** The pool's invariant: the free list and every generation are well
      formed, and owners keep the lists apart. */
  ghost predicate PoolOk(p: Pool)
  {
    Shaped(p) && FreeOk(p) && GensOk(p) && Bounded(p)
  }

  /** A generation stays well formed when its sentinel, cursor and chunks
      keep their next words and owners, and it is not newly in use. */
  lemma GenStable(n1: map<nat, nat>, o1: map<nat, Owner>, tl1: ThreadLog,
                  n2: map<nat, nat>, o2: map<nat, Owner>, tl2: ThreadLog, L: seq<nat>, t: nat, g: nat)
    requires WfThread(tl1) && WfThread(tl2) && g < 2 && GenOk(n1, o1, tl1, L, t, g)
    requires tl2.head[g] == tl1.head[g] && tl2.vlog[g] == tl1.vlog[g] && (InUse(tl2, g) ==> InUse(tl1, g))
    requires tl1.head[g] in o2 && o2[tl1.head[g]] == Head(t, g)
    requires InUse(tl2, g) ==> forall k :: k in [tl1.head[g]] + L ==> k in n1 && k in n2 && n2[k] == n1[k]
    requires InUse(tl2, g) ==> OwnedBy(o2, L, Held(t, g))
    ensures GenOk(n2, o2, tl2, L, t, g)
  {
    if InUse(tl2, g) {
      ChainAgree(n1, n2, tl1.head[g], [tl1.head[g]] + L);
    }
  }

  /** The owner of a chunk of another generation than (t0, g0). */
  predicate OtherGen(w: Owner, t0: nat, g0: nat)
  {
    (w.Head? || w.Held?) && (w.t != t0 || w.g != g0)
  }

  /** A chunk of a generation in use is that generation's sentinel or one
      of its chunks, told apart from every other list by its owner. */
  lemma GenOwners(p: Pool, t: nat, g: nat, k: nat)
    requires PoolOk(p) && t < |p.threads| && g < 2 && InUse(p.threads[t], g)
    requires k in [p.threads[t].head[g]] + p.chains[t][g]
    ensures k in p.next && k in p.owner && (p.owner[k] == Head(t, g) || p.owner[k] == Held(t, g))
  {
    var tl := p.threads[t];
    assert GenOk(p.next, p.owner, tl, p.chains[t][g], t, g);
    ChainHas(p.next, tl.head[g], [tl.head[g]] + p.chains[t][g], k);
    if k != tl.head[g] {
      assert k in p.chains[t][g];
    }
  }

  /** The free sentinel has a first free chunk to pop. */
  predicate PopReady(p: Pool)
  {
    p.freeHead in p.next && p.next[p.freeHead] in p.next && p.free != []
  }

  /** The pool once `get_log_chunk` has popped the first free chunk c: the
      sentinel skips c, c's next word becomes NULL and the caller holds
      it. */

  ghost function Popped(p: Pool): Pool
    requires PopReady(p)
  {
    var c := p.next[p.freeHead];
    p.(next := p.next[p.freeHead := p.next[c]][c := NULL], free := p.free[1..], owner := p.owner[c := Taken])
  }

  /** Popping the first free chunk leaves a well-formed free list. */
  lemma PopFree(p: Pool)
    requires FreeOk(p) && p.free != []
    ensures p.freeHead in p.next && p.next[p.freeHead] == p.free[0] && p.free[0] in p.next
    ensures FreeOk(Popped(p))
  {
    var n, o, fh, c, F := p.next, p.owner, p.freeHead, p.free[0], p.free[1..];
    assert ([fh] + p.free)[1..] == p.free && p.free[1..] == F;
    assert Chain(n, n[fh], p.free);
    assert n[fh] == c && c in n;
    assert Chain(n, n[c], F);
    var n1 := n[fh := n[c]][c := NULL];
    var o1 := o[c := Taken];
    assert c in p.free;
    forall k | k in F ensures k in n && k in n1 && n1[k] == n[k] {
      ChainHas(n, n[c], F, k);
      assert k in p.free && o[k] == Free;
      assert k != c;
    }
    ChainAgree(n, n1, n[c], F);
    assert ([fh] + F)[1..] == F;
    assert Chain(n1, fh, [fh] + F);
    forall k | k in F ensures k in o1 && o1[k] == Free {
      assert k in p.free;
    }
  }

  /** `get_log_chunk` on a non-empty free list: the sentinel skips the
      first free chunk c, whose next word becomes NULL and which the caller
      now holds; the free list loses exactly c. */
  lemma PopOk(p: Pool)
    requires PoolOk(p) && p.free != []
    ensures p.freeHead in p.next && p.next[p.freeHead] == p.free[0] && p.free[0] in p.next
    ensures PoolOk(Popped(p))
  {
    PopFree(p);
    var n, o, c := p.next, p.owner, p.free[0];
    var q := Popped(p);
    assert c in p.free;
    forall k | k in o && OtherGen(o[k], |p.threads|, 0)
      ensures k in q.owner && q.owner[k] == o[k] && (k in n ==> k in q.next && q.next[k] == n[k])
    {
    }
    AllStable(p, q);
  }

  /** Every generation stays well formed when thread records and chains
      are unchanged and so are the next words and owners of every
      generation's chunks. */
  lemma AllStable(p: Pool, q: Pool)
    requires PoolOk(p) && q.threads == p.threads && q.chains == p.chains
    requires forall k :: k in p.owner && OtherGen(p.owner[k], |p.threads|, 0) ==>
      k in q.owner && q.owner[k] == p.owner[k] && (k in p.next ==> k in q.next && q.next[k] == p.next[k])
    ensures Shaped(q) && GensOk(q)
  {
    OthersStable(p, q, |p.threads|, 0);
  }

  /** Every generation other than (t0, g0) stays well formed when its
      thread record and chain are unchanged (its sentinel, cursor and
      chunks; it may only stop being in use) and the next words and owners
      of every other generation's chunks are unchanged. */
  lemma OthersStable(p: Pool, q: Pool, t0: nat, g0: nat)
    requires PoolOk(p) && Shaped(q) && |q.threads| == |p.threads| && g0 < 2
    requires forall t :: 0 <= t < |p.threads| && t != t0 ==> q.threads[t] == p.threads[t] && q.chains[t] == p.chains[t]
    requires t0 < |p.threads| ==> forall g :: 0 <= g < 2 && g != g0 ==>
      && q.threads[t0].head[g] == p.threads[t0].head[g] && q.threads[t0].vlog[g] == p.threads[t0].vlog[g]
      && q.chains[t0][g] == p.chains[t0][g] && (InUse(q.threads[t0], g) ==> InUse(p.threads[t0], g))
    requires forall k :: k in p.owner && OtherGen(p.owner[k], t0, g0) ==>
      k in q.owner && q.owner[k] == p.owner[k] && (k in p.next ==> k in q.next && q.next[k] == p.next[k])
    ensures forall t, g :: 0 <= t < |q.threads| && 0 <= g < 2 && (t != t0 || g != g0) ==>
      GenOk(q.next, q.owner, q.threads[t], q.chains[t][g], t, g)
  {
    forall t, g | 0 <= t < |q.threads| && 0 <= g < 2 && (t != t0 || g != g0)
      ensures GenOk(q.next, q.owner, q.threads[t], q.chains[t][g], t, g)
    {
      var tl, L := p.threads[t], p.chains[t][g];
      assert q.chains[t][g] == L;
      assert GenOk(p.next, p.owner, tl, L, t, g);
      var h := tl.head[g];
      assert OtherGen(p.owner[h], t0, g0);
      if InUse(q.threads[t], g) {
        forall k | k in [h] + L ensures k in p.next && k in q.next && q.next[k] == p.next[k] {
          GenOwners(p, t, g, k);
          assert OtherGen(p.owner[k], t0, g0);
        }
        forall k | k in L ensures k in q.owner && q.owner[k] == Held(t, g) {
          assert k in [h] + L;
          GenOwners(p, t, g, k);
          assert OtherGen(p.owner[k], t0, g0);
        }
      }
      GenStable(p.next, p.owner, tl, q.next, q.owner, q.threads[t], L, t, g);
    }
  }

  /** The next words once the refill loop has threaded the first m chunks
      of a new file, ids base to base+m-1: the first points where the
      sentinel pointed (tl), every later one at its predecessor. */
  function Threaded(n: map<nat, nat>, base: nat, m: nat, tl: nat): map<nat, nat>
  {
    if m == 0 then n
    else if m == 1 then n[base := tl]
    else Threaded(n, base, m - 1, tl)[base + m - 1 := base + m - 2]
  }

  /** The free list a refill of m chunks builds: from the file's last chunk
      down to its first. */
  function Desc(base: nat, m: nat): seq<nat>
  {
    if m == 0 then [] else [base + m - 1] + Desc(base, m - 1)
  }

  /** The owners once the chunks base to base+m-1 are free. */
  ghost function Freed(o: map<nat, Owner>, base: nat, m: nat): map<nat, Owner>
  {
    if m == 0 then o else Freed(o, base, m - 1)[base + m - 1 := Free]
  }

  lemma {:induction false} DescIs(base: nat, m: nat)
    ensures |Desc(base, m)| == m && forall i :: 0 <= i < m ==> Desc(base, m)[i] == base + m - 1 - i
  {
    if m > 0 {
      DescIs(base, m - 1);
    }
  }

  /** The refill's chunks, each once, and only ids of the new file. */
  lemma DescIds(base: nat, m: nat)
    ensures NoDup(Desc(base, m)) && forall k :: k in Desc(base, m) ==> base <= k < base + m
  {
    DescIs(base, m);
  }

  lemma {:induction false} FreedIs(o: map<nat, Owner>, base: nat, m: nat)
    ensures forall k :: k in Freed(o, base, m) <==> k in o || base <= k < base + m
    ensures forall k :: k in Freed(o, base, m) ==> Freed(o, base, m)[k] == if base <= k < base + m then Free else o[k]
  {
    if m > 0 {
      FreedIs(o, base, m - 1);
    }
  }

  /** The refill loop threads its m chunks into one chain that starts at
      the last and ends in tl, and adds exactly their next words. */
  lemma {:induction false} ThreadedChain(n: map<nat, nat>, base: nat, m: nat)
    requires 1 <= m && 0 < base && forall k :: k in n ==> k < base
    ensures Chain(Threaded(n, base, m, NULL), base + m - 1, Desc(base, m))
    ensures forall k :: k in Threaded(n, base, m, NULL) <==> k in n || base <= k < base + m
    ensures forall k :: k in n ==> Threaded(n, base, m, NULL)[k] == n[k]
  {
    if m == 1 {
      assert Desc(base, 1) == [base] + Desc(base, 0);
    } else {
      var T0 := Threaded(n, base, m - 1, NULL);
      var T := T0[base + m - 1 := base + m - 2];
      ThreadedChain(n, base, m - 1);
      DescIds(base, m - 1);
      forall k | k in Desc(base, m - 1) ensures k in T0 && k in T && T[k] == T0[k] {
        ChainHas(T0, base + m - 2, Desc(base, m - 1), k);
      }
      ChainAgree(T0, T, base + m - 2, Desc(base, m - 1));
      assert Desc(base, m)[1..] == Desc(base, m - 1);
    }
  }

  /** The pool once `get_log_chunk` has carved a new file of m chunks out
      of fresh ids and threaded them onto the empty free list, last chunk
      first. */
  ghost function Refilled(p: Pool, m: nat): Pool
    requires 1 <= m
  {
    var base := p.nextId;
    p.(next := Threaded(p.next, base, m, NULL)[p.freeHead := base + m - 1], nextId := base + m,
       free := Desc(base, m), owner := Freed(p.owner, base, m))
  }

  /** The refill leaves a well-formed free list of the new file's chunks. */
  lemma RefillFree(p: Pool, m: nat)
    requires FreeOk(p) && Bounded(p) && p.free == [] && 1 <= m
    ensures p.freeHead in p.next && p.next[p.freeHead] == NULL
    ensures FreeOk(Refilled(p, m))
  {
    var n, o, fh, base := p.next, p.owner, p.freeHead, p.nextId;
    assert Chain(n, n[fh], []);
    var T := Threaded(n, base, m, NULL);
    var n1 := T[fh := base + m - 1];
    ThreadedChain(n, base, m);
    DescIds(base, m);
    FreedIs(o, base, m);
    forall k | k in Desc(base, m) ensures k in T && k in n1 && n1[k] == T[k] {
      ChainHas(T, base + m - 1, Desc(base, m), k);
    }
    ChainAgree(T, n1, base + m - 1, Desc(base, m));
    assert ([fh] + Desc(base, m))[1..] == Desc(base, m);
  }

  /** The refill only adds the new file's ids, and only changes the next
      word of the free list's sentinel among the old ones. */
  lemma RefillKeeps(p: Pool, m: nat)
    requires PoolOk(p) && p.free == [] && 1 <= m
    ensures Bounded(Refilled(p, m))
    ensures var q := Refilled(p, m);
      forall k :: k in p.owner && OtherGen(p.owner[k], |p.threads|, 0) ==>
        k in q.owner && q.owner[k] == p.owner[k] && (k in p.next ==> k in q.next && q.next[k] == p.next[k])
  {
    var q := Refilled(p, m);
    ThreadedChain(p.next, p.nextId, m);
    FreedIs(p.owner, p.nextId, m);
    assert p.freeHead in p.owner;
  }

  /** `get_log_chunk` on an empty free list: the pool gains a new file of
      m chunks, all free; every generation is untouched. */
  lemma RefillOk(p: Pool, m: nat)
    requires PoolOk(p) && p.free == [] && 1 <= m
    ensures p.freeHead in p.next && p.next[p.freeHead] == NULL
    ensures PoolOk(Refilled(p, m))
  {
    RefillFree(p, m);
    RefillKeeps(p, m);
    AllStable(p, Refilled(p, m));
  }

  /** All generations are well formed once generation (t0, g0) is and
      every other one is. */
  lemma GensFrom(q: Pool, t0: nat, g0: nat)
    requires Shaped(q) && t0 < |q.threads| && g0 < 2
    requires GenOk(q.next, q.owner, q.threads[t0], q.chains[t0][g0], t0, g0)
    requires forall t, g :: 0 <= t < |q.threads| && 0 <= g < 2 && (t != t0 || g != g0) ==>
      GenOk(q.next, q.owner, q.threads[t], q.chains[t][g], t, g)
    ensures GensOk(q)
  {
  }

  /** The free list keeps its next words and owners when only chunks of
      generations change. */
  lemma FreeStable(p: Pool, q: Pool)
    requires FreeOk(p) && q.freeHead == p.freeHead && q.free == p.free
    requires forall k :: k in p.owner && (p.owner[k] == Free || p.owner[k] == FreeHead) ==>
      k in q.owner && q.owner[k] == p.owner[k] && (k in p.next ==> k in q.next && q.next[k] == p.next[k])
    ensures FreeOk(q)
  {
    var F := [p.freeHead] + p.free;
    forall k | k in F ensures k in p.next && k in q.next && q.next[k] == p.next[k] {
      ChainHas(p.next, p.freeHead, F, k);
      if k != p.freeHead {
        assert k in p.free;
      }
    }
    ChainAgree(p.next, q.next, p.freeHead, F);
  }

  // ----- add_log -----

  /** `add_log`'s rollover test: the log is empty or its tail chunk has
      only the slot that is never written left. */
  predicate NeedsChunk(v: Vlog)
  {
    v.totSize == 0 || v.entryCnt + 1 == LOG_ENTRYS_PER_CHUNK
  }

  /** The pool once thread t has linked the chunk c it took from the free
      list behind the tail of its current generation. */
  ghost function Linked(p: Pool, t: nat, c: nat): Pool
    requires Shaped(p) && t < |p.threads|
  {
    var tl := p.threads[t];
    var a := tl.alt;
    var v := tl.vlog[a];
    p.(next := p.next[v.nowChunk := c],
       threads := p.threads[t := tl.(vlog := tl.vlog[a := Vlog(c, v.totSize + LOG_CHUNK_SIZE, 0)])],
       chains := p.chains[t := p.chains[t][a := p.chains[t][a] + [c]]],
       owner := p.owner[c := Held(t, a)])
  }

  /** A chunk that was just popped is no chunk of any list. */
  predicate IsTaken(p: Pool, c: nat)
  {
    c in p.owner && p.owner[c] == Taken && c in p.next && p.next[c] == NULL
  }

  /** The sentinel of a generation in use comes before, and apart from,
      its chunks. */
  lemma HeadApart(p: Pool, t: nat, g: nat)
    requires PoolOk(p) && t < |p.threads| && g < 2 && InUse(p.threads[t], g)
    ensures NoDup([p.threads[t].head[g]] + p.chains[t][g])
  {
    var h, L := p.threads[t].head[g], p.chains[t][g];
    assert GenOk(p.next, p.owner, p.threads[t], L, t, g);
    forall i, j | 0 <= i < j < |[h] + L| ensures ([h] + L)[i] != ([h] + L)[j] {
      if i == 0 {
        assert ([h] + L)[j] == L[j - 1] && L[j - 1] in L;
      } else {
        assert ([h] + L)[i] == L[i - 1] && ([h] + L)[j] == L[j - 1];
      }
    }
  }

  /** Linking the taken chunk keeps the current generation well formed:
      its chain gains c at the end, which is now the cursor's tail, with
      one more chunk's worth of bytes and no entries. */
  lemma LinkGen(p: Pool, t: nat, c: nat)
    requires PoolOk(p) && t < |p.threads| && IsTaken(p, c)
    ensures var q := Linked(p, t, c); var a := p.threads[t].alt;
      GenOk(q.next, q.owner, q.threads[t], q.chains[t][a], t, a)
  {
    var tl := p.threads[t];
    var a := tl.alt;
    var h, L := tl.head[a], p.chains[t][a];
    var q := Linked(p, t, c);
    assert GenOk(p.next, p.owner, tl, L, t, a);
    HeadApart(p, t, a);
    forall k | k in [h] + L ensures k !in [c] {
      GenOwners(p, t, a, k);
    }
    assert 0 < c;
    assert Chain(p.next, c, [c]) by {
      assert [c][1..] == [];
    }
    ChainJoin(p.next, h, [h] + L, c, [c]);
    assert ([h] + L) + [c] == [h] + (L + [c]);
    forall k | k in L ensures k !in [c] {
      assert k in [h] + L;
    }
    NoDupJoin(L, [c]);
    assert Last([h] + (L + [c])) == c;
  }

  /** Linking changes only the next word of the generation's tail, the
      owner of c and the ids the generation owns. */
  lemma LinkKeeps(p: Pool, t: nat, c: nat)
    requires PoolOk(p) && t < |p.threads| && IsTaken(p, c)
    ensures var q := Linked(p, t, c);
      forall k :: k in p.owner && (OtherGen(p.owner[k], t, p.threads[t].alt) || p.owner[k] == Free || p.owner[k] == FreeHead) ==>
        k in q.owner && q.owner[k] == p.owner[k] && (k in p.next ==> k in q.next && q.next[k] == p.next[k])
    ensures Bounded(Linked(p, t, c))
  {
    var tl := p.threads[t];
    var a := tl.alt;
    assert GenOk(p.next, p.owner, tl, p.chains[t][a], t, a);
    assert tl.vlog[a].nowChunk in [tl.head[a]] + p.chains[t][a];
    GenOwners(p, t, a, tl.vlog[a].nowChunk);
  }

  /** Linking the taken chunk c keeps the pool well formed; nothing but the
      tail's next word, c's owner and the current generation of thread t
      changes. */
  lemma LinkOk(p: Pool, t: nat, c: nat)
    requires PoolOk(p) && t < |p.threads| && IsTaken(p, c)
    ensures PoolOk(Linked(p, t, c))
  {
    var q := Linked(p, t, c);
    LinkKeeps(p, t, c);
    FreeStable(p, q);
    OthersStable(p, q, t, p.threads[t].alt);
    LinkGen(p, t, c);
    GensFrom(q, t, p.threads[t].alt);
  }

  /** The pool once thread t has written (key, value) at the cursor of its
      current generation and advanced the cursor. */
  ghost function Written(p: Pool, t: nat, key: int, value: int): Pool
    requires Shaped(p) && t < |p.threads|
  {
    var tl := p.threads[t];
    var a := tl.alt;
    var v := tl.vlog[a];
    p.(slots := p.slots[(v.nowChunk, v.entryCnt) := LogEntry(key, value)],
       threads := p.threads[t := tl.(vlog := tl.vlog[a := v.(entryCnt := v.entryCnt + 1)])])
  }

  /** Writing an entry into a tail chunk that needs no rollover keeps the
      pool well formed: the cursor stays in bounds. */
  lemma WriteOk(p: Pool, t: nat, key: int, value: int)
    requires PoolOk(p) && t < |p.threads| && !NeedsChunk(p.threads[t].vlog[p.threads[t].alt])
    ensures PoolOk(Written(p, t, key, value))
  {
    var tl := p.threads[t];
    var a := tl.alt;
    var q := Written(p, t, key, value);
    assert GenOk(p.next, p.owner, tl, p.chains[t][a], t, a);
    assert GenOk(q.next, q.owner, q.threads[t], q.chains[t][a], t, a);
    OthersStable(p, q, t, a);
    GensFrom(q, t, a);
  }

  // ----- switch_alt_and_init -----

  /** The pool once thread t has made its other generation current and
      emptied it (`log_vlog_init` on it, without a new sentinel), with a
      flush count of 0. */
  ghost function Switched(p: Pool, t: nat): Pool
    requires Shaped(p) && t < |p.threads|
  {
    var tl := p.threads[t];
    var a := 1 - tl.alt;
    var h := tl.head[a];
    p.(next := p.next[h := NULL],
       threads := p.threads[t := ThreadLog(a, tl.head, tl.vlog[a := Vlog(h, 0, 0)], tl.flushed[a := 0])],
       chains := p.chains[t := p.chains[t][a := []]])
  }

  /** The switch changes only the next word of the new generation's
      sentinel. */
  lemma SwitchKeeps(p: Pool, t: nat)
    requires PoolOk(p) && t < |p.threads|
    ensures var q := Switched(p, t); var a := 1 - p.threads[t].alt;
      forall k :: k in p.owner && (OtherGen(p.owner[k], t, a) || p.owner[k] == Free || p.owner[k] == FreeHead) ==>
        k in q.owner && q.owner[k] == p.owner[k] && (k in p.next ==> k in q.next && q.next[k] == p.next[k])
    ensures Bounded(Switched(p, t))
  {
    var tl := p.threads[t];
    assert GenOk(p.next, p.owner, tl, p.chains[t][1 - tl.alt], t, 1 - tl.alt);
  }

  /** After the switch the new current generation is an empty log: its
      sentinel ends the chain and the cursor is at the sentinel. */
  lemma SwitchGen(p: Pool, t: nat)
    requires PoolOk(p) && t < |p.threads|
    ensures var q := Switched(p, t); var a := 1 - p.threads[t].alt;
      GenOk(q.next, q.owner, q.threads[t], q.chains[t][a], t, a)
  {
    var tl := p.threads[t];
    var a := 1 - tl.alt;
    var h := tl.head[a];
    var q := Switched(p, t);
    assert GenOk(p.next, p.owner, tl, p.chains[t][a], t, a);
    assert 0 < h;
    assert Chain(q.next, h, [h]) by {
      assert [h][1..] == [];
    }
    assert [h] + [] == [h];
  }

  /** `switch_alt_and_init` keeps the pool well formed; the generation it
      leaves keeps its chunks, cursor and flush count. */
  lemma SwitchOk(p: Pool, t: nat)
    requires PoolOk(p) && t < |p.threads|
    ensures PoolOk(Switched(p, t))
  {
    var q := Switched(p, t);
    var a := 1 - p.threads[t].alt;
    SwitchKeeps(p, t);
    FreeStable(p, q);
    OthersStable(p, q, t, a);
    SwitchGen(p, t);
    GensFrom(q, t, a);
  }

  // ----- collect_old_log_to_freelist -----

  /** The owners once the chunks of L are free again. */
  ghost function Release(o: map<nat, Owner>, L: seq<nat>): map<nat, Owner>
  {
    map k | k in o :: if k in L then Free else o[k]
  }

  /** The pool once thread t has spliced the chunks of its old generation,
      if it holds any, in front of the free list: the old tail points at
      the first free chunk and the free sentinel at the old first chunk. */
  ghost function Collected(p: Pool, t: nat): Pool
    requires PoolOk(p) && t < |p.threads|
  {
    var tl := p.threads[t];
    var x := 1 - tl.alt;
    var v := tl.vlog[x];
    if v.totSize == 0 then p
    else
      assert GenOk(p.next, p.owner, tl, p.chains[t][x], t, x);
      var n1 := p.next[v.nowChunk := p.next[p.freeHead]];
      p.(next := n1[p.freeHead := n1[tl.head[x]]],
         threads := p.threads[t := tl.(vlog := tl.vlog[x := v.(totSize := 0)])],
         free := p.chains[t][x] + p.free,
         chains := p.chains[t := p.chains[t][x := []]],
         owner := Release(p.owner, p.chains[t][x]))
  }

  /** Splicing the chain behind sentinel h in front of the chain behind
      sentinel fh: the tail points where fh pointed, and fh where h
      pointed (`tail->next = head->next; head->next = log->head->next`). */
  lemma {:induction false} Splice(n: map<nat, nat>, fh: nat, h: nat, L: seq<nat>, F: seq<nat>)
    requires Chain(n, h, [h] + L) && L != [] && NoDup(L) && Chain(n, fh, [fh] + F)
    requires forall k :: k in L ==> k !in F && k != fh && k != h
    requires fh !in F && fh != h
    ensures Chain(n[Last(L) := n[fh]][fh := n[h]], fh, [fh] + (L + F))
  {
    assert ([h] + L)[1..] == L;
    assert Chain(n, n[h], L);
    assert ([fh] + F)[1..] == F;
    assert Chain(n, n[fh], F);
    ChainJoin(n, n[h], L, n[fh], F);
    var n1 := n[Last(L) := n[fh]];
    var n2 := n1[fh := n[h]];
    assert Last(L) in L;
    forall k | k in L + F ensures k in n1 && k in n2 && n2[k] == n1[k] {
      ChainHas(n1, n[h], L + F, k);
    }
    ChainAgree(n1, n2, n[h], L + F);
    assert ([fh] + (L + F))[1..] == L + F;
  }

  /** Splicing a non-empty old generation in front of the free list
      leaves a well-formed free list that starts with the generation's
      chunks. */
  lemma CollectFree(p: Pool, t: nat)
    requires PoolOk(p) && t < |p.threads| && p.threads[t].vlog[1 - p.threads[t].alt].totSize != 0
    ensures FreeOk(Collected(p, t))
  {
    var tl := p.threads[t];
    var x := 1 - tl.alt;
    var o, h, L := p.owner, tl.head[x], p.chains[t][x];
    var q := Collected(p, t);
    assert GenOk(p.next, o, tl, L, t, x);
    assert L != [];
    assert Last([h] + L) == Last(L);
    forall k | k in L ensures k !in p.free && k != p.freeHead && k != h {
      assert o[k] == Held(t, x);
    }
    assert p.freeHead !in p.free;
    Splice(p.next, p.freeHead, h, L, p.free);
    NoDupJoin(L, p.free);
    forall k | k in q.free ensures k in q.owner && q.owner[k] == Free {
      if k !in L {
        assert k in p.free;
      }
    }
  }

  /** The splice changes only the next words of the old tail and the free
      sentinel, and the owners of the old generation's chunks. */
  lemma CollectKeeps(p: Pool, t: nat)
    requires PoolOk(p) && t < |p.threads|
    ensures var q := Collected(p, t); var x := 1 - p.threads[t].alt;
      forall k :: k in p.owner && (OtherGen(p.owner[k], t, x) || p.owner[k] == Head(t, x)) ==>
        k in q.owner && q.owner[k] == p.owner[k] && (k in p.next ==> k in q.next && q.next[k] == p.next[k])
    ensures Bounded(Collected(p, t))
  {
    var tl := p.threads[t];
    var x := 1 - tl.alt;
    if tl.vlog[x].totSize != 0 {
      assert GenOk(p.next, p.owner, tl, p.chains[t][x], t, x);
      assert tl.vlog[x].nowChunk in [tl.head[x]] + p.chains[t][x];
      GenOwners(p, t, x, tl.vlog[x].nowChunk);
    }
  }

  /** The collected generation keeps its sentinel and is no longer in use. */
  lemma CollectGen(p: Pool, t: nat)
    requires PoolOk(p) && t < |p.threads| && p.threads[t].vlog[1 - p.threads[t].alt].totSize != 0
    ensures var q := Collected(p, t); var x := 1 - p.threads[t].alt;
      WfThread(q.threads[t]) && GenOk(q.next, q.owner, q.threads[t], q.chains[t][x], t, x)
  {
    var tl := p.threads[t];
    var x := 1 - tl.alt;
    assert GenOk(p.next, p.owner, tl, p.chains[t][x], t, x);
    assert tl.head[x] !in p.chains[t][x];
  }

  /** The splice leaves every other generation well formed. */
  lemma CollectOthers(p: Pool, t: nat)
    requires PoolOk(p) && t < |p.threads| && p.threads[t].vlog[1 - p.threads[t].alt].totSize != 0
    ensures var q := Collected(p, t); var x := 1 - p.threads[t].alt;
      Shaped(q) && forall t', g :: 0 <= t' < |q.threads| && 0 <= g < 2 && (t' != t || g != x) ==>
        GenOk(q.next, q.owner, q.threads[t'], q.chains[t'][g], t', g)
  {
    var x := 1 - p.threads[t].alt;
    var q := Collected(p, t);
    CollectKeeps(p, t);
    assert Shaped(q);
    OthersStable(p, q, t, x);
  }

  /** `collect_old_log_to_freelist` keeps the pool well formed: the old
      generation is no longer in use, and the free list gains exactly its
      chunks, in front. */
  lemma CollectOk(p: Pool, t: nat)
    requires PoolOk(p) && t < |p.threads|
    ensures PoolOk(Collected(p, t))
    ensures var x := 1 - p.threads[t].alt;
      Collected(p, t).free == (if p.threads[t].vlog[x].totSize == 0 then p.free else p.chains[t][x] + p.free)
  {
    var tl := p.threads[t];
    var x := 1 - tl.alt;
    if tl.vlog[x].totSize != 0 {
      var q := Collected(p, t);
      CollectFree(p, t);
      CollectKeeps(p, t);
      CollectOthers(p, t);
      CollectGen(p, t);
      GensFrom(q, t, x);
    }
  }

  // ----- get_log_chunk's empty test -----

  /** The free sentinel's next word is NULL exactly when the free list is
      empty, the test `get_log_chunk` refills on. */
  lemma FreeEmpty(p: Pool)
    requires FreeOk(p)
    ensures p.freeHead in p.next && (p.next[p.freeHead] == NULL <==> p.free == [])
  {
    assert ([p.freeHead] + p.free)[1..] == p.free;
    assert Chain(p.next, p.next[p.freeHead], p.free);
  }

  // ----- initialisation -----

  /** `nvmLogPool::init` before any thread: the free list is its sentinel
      (id 1) alone. */
  function EmptyPool(): Pool
  {
    Pool(map[1 := NULL], 1, [], map[], 2, [], [], map[1 := FreeHead])
  }

  /** A fresh thread log (`threadLogPool::init`): generation 0 is current
      and both generations are empty logs behind their own sentinels. */
  function NewThread(h0: nat, h1: nat): ThreadLog
  {
    ThreadLog(0, [h0, h1], [Vlog(h0, 0, 0), Vlog(h1, 0, 0)], [0, 0])
  }

  /** The pool once one more thread has its log group, with two fresh
      sentinels. */
  ghost function AddThread(p: Pool): Pool
  {
    var t, h0, h1 := |p.threads|, p.nextId, p.nextId + 1;
    p.(next := p.next[h0 := NULL][h1 := NULL], threads := p.threads + [NewThread(h0, h1)], nextId := p.nextId + 2,
       chains := p.chains + [[[], []]], owner := p.owner[h0 := Head(t, 0)][h1 := Head(t, 1)])
  }

  lemma EmptyOk()
    ensures PoolOk(EmptyPool())
  {
    var p := EmptyPool();
    assert ([1] + [])[1..] == [];
  }

  /** The new thread's two generations are well formed. */
  lemma AddThreadNew(p: Pool)
    requires PoolOk(p)
    ensures var q := AddThread(p); var t := |p.threads|;
      Shaped(q) && GenOk(q.next, q.owner, q.threads[t], q.chains[t][0], t, 0)
      && GenOk(q.next, q.owner, q.threads[t], q.chains[t][1], t, 1)
  {
    var q := AddThread(p);
    var h0 := p.nextId;
    assert Chain(q.next, h0, [h0]) by {
      assert [h0][1..] == [];
    }
    assert [h0] + [] == [h0];
  }

  /** The generations of the threads already there are untouched. */
  lemma AddThreadOld(p: Pool, t: nat, g: nat)
    requires PoolOk(p) && t < |p.threads| && g < 2
    ensures var q := AddThread(p); GenOk(q.next, q.owner, q.threads[t], q.chains[t][g], t, g)
  {
    var q := AddThread(p);
    var tl := p.threads[t];
    assert q.threads[t] == tl && q.chains[t] == p.chains[t];
    assert GenOk(p.next, p.owner, tl, p.chains[t][g], t, g);
    if InUse(tl, g) {
      forall k | k in [tl.head[g]] + p.chains[t][g] ensures k in p.next && k in q.next && q.next[k] == p.next[k] {
        GenOwners(p, t, g, k);
      }
      forall k | k in p.chains[t][g] ensures k in q.owner && q.owner[k] == Held(t, g) {
        assert k in [tl.head[g]] + p.chains[t][g];
        GenOwners(p, t, g, k);
      }
    }
    GenStable(p.next, p.owner, tl, q.next, q.owner, tl, p.chains[t][g], t, g);
  }

  /** Giving one more thread its log group keeps the pool well formed. */
  lemma AddThreadOk(p: Pool)
    requires PoolOk(p)
    ensures PoolOk(AddThread(p))
  {
    var q := AddThread(p);
    FreeStable(p, q);
    AddThreadNew(p);
    forall t, g | 0 <= t < |q.threads| && 0 <= g < 2
      ensures GenOk(q.next, q.owner, q.threads[t], q.chains[t][g], t, g)
    {
      if t < |p.threads| {
        AddThreadOld(p, t, g);
      }
    }
  }

  // ----- get_log_totsize and get_flush_totnum -----

  /** One generation's share of `get_log_totsize`: every chunk before the
      tail counts whole, the tail by the entries written into it. */
  function GenBytes(v: Vlog): int
  {
    if v.totSize > 0 then v.totSize - LOG_CHUNK_SIZE + v.entryCnt * LOG_ENTRY_SIZE else 0
  }

  predicate AllWf(ts: seq<ThreadLog>)
  {
    forall i :: 0 <= i < |ts| ==> WfThread(ts[i])
  }

  /** The current generation's share. */
  function CurBytes(tl: ThreadLog): int
    requires WfThread(tl)
  {
    GenBytes(tl.vlog[tl.alt])
  }

  /** What `get_log_totsize` sums over the threads. */
  function LogBytes(ts: seq<ThreadLog>): int
    requires AllWf(ts)
  {
    if ts == [] then 0 else LogBytes(ts[..|ts| - 1]) + CurBytes(ts[|ts| - 1])
  }

  /** What `get_flush_totnum` sums: the current generation's flush count
      of every thread. */
  function FlushSum(ts: seq<ThreadLog>): int
    requires AllWf(ts)
  {
    if ts == [] then 0 else FlushSum(ts[..|ts| - 1]) + ts[|ts| - 1].flushed[ts[|ts| - 1].alt]
  }

  /** Replacing one thread's log group changes the sums by the difference
      of its current generation's shares alone. */
  lemma {:induction false} SumsUpdate(ts: seq<ThreadLog>, t: nat, tl: ThreadLog)
    requires AllWf(ts) && t < |ts| && WfThread(tl)
    ensures AllWf(ts[t := tl])
    ensures LogBytes(ts[t := tl]) == LogBytes(ts) - CurBytes(ts[t]) + CurBytes(tl)
    ensures FlushSum(ts[t := tl]) == FlushSum(ts) - ts[t].flushed[ts[t].alt] + tl.flushed[tl.alt]
    decreases |ts|
  {
    var us := ts[t := tl];
    if t < |ts| - 1 {
      assert us[..|us| - 1] == ts[..|ts| - 1][t := tl];
      SumsUpdate(ts[..|ts| - 1], t, tl);
    } else {
      assert us[..|us| - 1] == ts[..|ts| - 1];
    }
  }

  /** The share of a well-formed generation is never negative and stays
      40 bytes below the chunks it holds: the slot that is never written
      and the chunk's next word and padding. */
  lemma GenBytesBound(v: Vlog, n: nat)
    requires v.totSize == n * LOG_CHUNK_SIZE && v.entryCnt < LOG_ENTRYS_PER_CHUNK
    ensures 0 <= GenBytes(v) <= v.totSize
    ensures v.totSize > 0 ==> GenBytes(v) + 40 <= v.totSize
  {
  }

  /** The cursor after `add_log`: a fresh chunk c first when it needs one,
      then one more entry. */
  function Added(v: Vlog, c: nat): Vlog
  {
    var w := if NeedsChunk(v) then Vlog(c, v.totSize + LOG_CHUNK_SIZE, 0) else v;
    w.(entryCnt := w.entryCnt + 1)
  }

  /** Each `add_log` grows its generation's share by one entry, 24 bytes,
      or by 64 when a full tail chunk rolls over. */
  lemma AddedBytes(v: Vlog, c: nat)
    ensures GenBytes(Added(v, c)) == GenBytes(v) + if v.totSize > 0 && v.entryCnt + 1 == LOG_ENTRYS_PER_CHUNK then 64 else 24
  {
  }

  /** The switch drops the thread's old current generation from both sums:
      its new current generation is empty and has flushed nothing. */
  lemma SwitchSums(p: Pool, t: nat)
    requires PoolOk(p) && t < |p.threads|
    ensures AllWf(Switched(p, t).threads)
    ensures LogBytes(Switched(p, t).threads) == LogBytes(p.threads) - CurBytes(p.threads[t])
    ensures FlushSum(Switched(p, t).threads) == FlushSum(p.threads) - p.threads[t].flushed[p.threads[t].alt]
  {
    var q := Switched(p, t);
    SumsUpdate(p.threads, t, q.threads[t]);
  }

  /** Collecting an old generation changes neither sum: both only read the
      current generations. */
  lemma CollectSums(p: Pool, t: nat)
    requires PoolOk(p) && t < |p.threads|
    ensures AllWf(Collected(p, t).threads)
    ensures LogBytes(Collected(p, t).threads) == LogBytes(p.threads)
    ensures FlushSum(Collected(p, t).threads) == FlushSum(p.threads)
  {
    var q := Collected(p, t);
    SumsUpdate(p.threads, t, q.threads[t]);
  }

  /** Sums of shares that are at least 0 are too. */
  lemma {:induction false} LogBytesNonneg(ts: seq<ThreadLog>)
    requires AllWf(ts) && forall t :: 0 <= t < |ts| ==> 0 <= CurBytes(ts[t])
    ensures 0 <= LogBytes(ts)
    decreases |ts|
  {
    if ts != [] {
      LogBytesNonneg(ts[..|ts| - 1]);
    }
  }

  /** `get_log_totsize` of a well-formed pool is never negative. */
  lemma PoolBytesNonneg(p: Pool)
    requires PoolOk(p)
    ensures 0 <= LogBytes(p.threads)
  {
    forall t | 0 <= t < |p.threads| ensures 0 <= CurBytes(p.threads[t]) {
      var tl := p.threads[t];
      assert GenOk(p.next, p.owner, tl, p.chains[t][tl.alt], t, tl.alt);
      GenBytesBound(tl.vlog[tl.alt], |p.chains[t][tl.alt]|);
    }
    LogBytesNonneg(p.threads);
  }

  /** The loop of `get_log_chunk` that threads a new log file of
      LOG_FILE_SIZE chunks, ids base onwards: the first chunk's next word
      becomes tl, every later one's its predecessor. */
  method ThreadFile(n: map<nat, nat>, base: nat, tl: nat) returns (r: map<nat, nat>)
    ensures r == Threaded(n, base, LOG_FILE_SIZE, tl)
  {
    r := n[base := tl];
    var i := 1;
    while i < LOG_FILE_SIZE
      invariant 1 <= i <= LOG_FILE_SIZE && r == Threaded(n, base, i, tl)
    {
      r := r[base + i := base + i - 1];
      i := i + 1;
    }
  }

  /** A non-empty old generation's sentinel has a next word, and so does
      the free sentinel: the splice only reads words that exist. */
  lemma CollectReady(p: Pool, t: nat)
    requires PoolOk(p) && t < |p.threads| && p.threads[t].vlog[1 - p.threads[t].alt].totSize != 0
    ensures p.freeHead in p.next && p.threads[t].head[1 - p.threads[t].alt] in p.next
    ensures |p.chains[t]| == 2
  {
    var x := 1 - p.threads[t].alt;
    GenOwners(p, t, x, p.threads[t].head[x]);
    FreeEmpty(p);
  }

  /** The cursor of a current generation is inside its tail chunk. */
  lemma CursorBelow(p: Pool, t: nat)
    requires PoolOk(p) && t < |p.threads|
    ensures p.threads[t].vlog[p.threads[t].alt].entryCnt < LOG_ENTRYS_PER_CHUNK
  {
    var tl := p.threads[t];
    assert GenOk(p.next, p.owner, tl, p.chains[t][tl.alt], t, tl.alt);
  }

  /** The chunk `get_log_chunk` returns: the first free one, or the last
      chunk of the new file when the free list was empty. */
  ghost function NewChunk(p: Pool): nat
  {
    if p.free == [] then p.nextId + LOG_FILE_SIZE - 1 else p.free[0]
  }

  /** The pool once `get_log_chunk` has returned. */
  ghost function ChunkTaken(p: Pool): Pool
    requires PoolOk(p)
  {
    if p.free == [] then
      RefillOk(p, LOG_FILE_SIZE);
      PopOk(Refilled(p, LOG_FILE_SIZE));
      Popped(Refilled(p, LOG_FILE_SIZE))
    else
      PopOk(p);
      Popped(p)
  }

  /** `get_log_chunk` leaves a well-formed pool, and the chunk it returns
      is off every list with a NULL next word; no thread's log changes. */
  lemma TakenOk(p: Pool)
    requires PoolOk(p)
    ensures PoolOk(ChunkTaken(p)) && IsTaken(ChunkTaken(p), NewChunk(p))
    ensures ChunkTaken(p).threads == p.threads && ChunkTaken(p).slots == p.slots && ChunkTaken(p).chains == p.chains
  {
    if p.free == [] {
      RefillOk(p, LOG_FILE_SIZE);
      DescIs(p.nextId, LOG_FILE_SIZE);
      PopOk(Refilled(p, LOG_FILE_SIZE));
    } else {
      PopOk(p);
    }
  }

  /** The pool once thread t's `add_log` of (key, value) has returned. */
  ghost function Logged(p: Pool, t: nat, key: int, value: int): Pool
    requires PoolOk(p) && t < |p.threads|
  {
    var tl := p.threads[t];
    if NeedsChunk(tl.vlog[tl.alt]) then
      TakenOk(p);
      LinkOk(ChunkTaken(p), t, NewChunk(p));
      Written(Linked(ChunkTaken(p), t, NewChunk(p)), t, key, value)
    else
      Written(p, t, key, value)
  }

  /** `add_log` keeps the pool well formed; in particular the cursor
      never passes the last entry slot. */
  lemma LoggedOk(p: Pool, t: nat, key: int, value: int)
    requires PoolOk(p) && t < |p.threads|
    ensures PoolOk(Logged(p, t, key, value))
  {
    var tl := p.threads[t];
    if NeedsChunk(tl.vlog[tl.alt]) {
      TakenOk(p);
      LinkOk(ChunkTaken(p), t, NewChunk(p));
      WriteOk(Linked(ChunkTaken(p), t, NewChunk(p)), t, key, value);
    } else {
      WriteOk(p, t, key, value);
    }
  }

  /** What `add_log` changes: only thread t's current generation, whose
      cursor advances as `Added` says, on the chunk `get_log_chunk` returns
      exactly when the rollover test holds; and the entry lands in the slot
      before the new cursor. */
  lemma LoggedIs(p: Pool, t: nat, key: int, value: int)
    requires PoolOk(p) && t < |p.threads|
    ensures var q, tl := Logged(p, t, key, value), p.threads[t]; var a, v := tl.alt, tl.vlog[tl.alt];
      var c := if NeedsChunk(v) then NewChunk(p) else v.nowChunk;
      && q.threads == p.threads[t := tl.(vlog := tl.vlog[a := Added(v, c)])]
      && q.slots == p.slots[(c, Added(v, c).entryCnt - 1) := LogEntry(key, value)]
  {
    var tl := p.threads[t];
    var a, v := tl.alt, tl.vlog[tl.alt];
    if NeedsChunk(v) {
      TakenOk(p);
      var c := NewChunk(p);
      var q1 := Linked(ChunkTaken(p), t, c);
      assert q1.threads == p.threads[t := tl.(vlog := tl.vlog[a := Vlog(c, v.totSize + LOG_CHUNK_SIZE, 0)])];
      assert q1.slots == p.slots;
      var w := Vlog(c, v.totSize + LOG_CHUNK_SIZE, 0);
      assert q1.threads[t].vlog == tl.vlog[a := w];
      assert tl.vlog[a := w][a := Added(v, c)] == tl.vlog[a := Added(v, c)];
    }
  }

  /** `add_log` grows `get_log_totsize` by its entry's 24 bytes, or by 64
      when a full tail chunk rolls over, and leaves `get_flush_totnum`
      alone. */
  lemma LoggedSums(p: Pool, t: nat, key: int, value: int)
    requires PoolOk(p) && t < |p.threads|
    ensures AllWf(Logged(p, t, key, value).threads)
    ensures var v := p.threads[t].vlog[p.threads[t].alt];
      LogBytes(Logged(p, t, key, value).threads)
        == LogBytes(p.threads) + if v.totSize > 0 && v.entryCnt + 1 == LOG_ENTRYS_PER_CHUNK then 64 else 24
    ensures FlushSum(Logged(p, t, key, value).threads) == FlushSum(p.threads)
  {
    var tl := p.threads[t];
    var v := tl.vlog[tl.alt];
    var c := if NeedsChunk(v) then NewChunk(p) else v.nowChunk;
    LoggedIs(p, t, key, value);
    AddedBytes(v, c);
    SumsUpdate(p.threads, t, tl.(vlog := tl.vlog[tl.alt := Added(v, c)]));
  }

  /** A thread's log group once its old generation is collected: that
      generation's tot_size is 0, nothing else changes. */
  function Cleared(tl: ThreadLog): ThreadLog
    requires WfThread(tl)
  {
    var x := 1 - tl.alt;
    if tl.vlog[x].totSize == 0 then tl else tl.(vlog := tl.vlog[x := tl.vlog[x].(totSize := 0)])
  }

  /** Collecting thread t's old generation changes only thread t's log
      group, as `Cleared` says. */
  lemma CollectThreads(p: Pool, t: nat)
    requires PoolOk(p) && t < |p.threads|
    ensures Collected(p, t).threads == p.threads[t := Cleared(p.threads[t])]
  {
    if p.threads[t].vlog[1 - p.threads[t].alt].totSize == 0 {
      assert p.threads[t := p.threads[t]] == p.threads;
    }
  }

  /** ts is ts0 with the log groups of threads 0 .. i-1 `Cleared` and
      the others as they were. */
  ghost predicate ClearedBelow(ts0: seq<ThreadLog>, ts: seq<ThreadLog>, i: nat)
  {
    && |ts| == |ts0| && i <= |ts0| && AllWf(ts0)
    && (forall t :: 0 <= t < i ==> ts[t] == Cleared(ts0[t]))
    && (forall t :: i <= t < |ts| ==> ts[t] == ts0[t])
  }

  /** Clearing thread i next extends the cleared prefix by one. */
  lemma ClearedStep(ts0: seq<ThreadLog>, ts: seq<ThreadLog>, i: nat)
    requires ClearedBelow(ts0, ts, i) && i < |ts0|
    ensures WfThread(ts[i]) && ClearedBelow(ts0, ts[i := Cleared(ts[i])], i + 1)
  {
    assert ts[i] == ts0[i];
  }

  /** Collecting twice changes nothing the second time. */
  lemma ClearedIdem(tl: ThreadLog)
    requires WfThread(tl)
    ensures WfThread(Cleared(tl)) && Cleared(Cleared(tl)) == Cleared(tl)
    ensures Cleared(tl).vlog[1 - tl.alt].totSize == 0
  {
  }

  /** The log pool: the free list (`global_log_chunks`) and the log groups
      of every thread (`thread_log_pool`), with the chunks' next words and
      entry slots. */
  class LogPool {
    var next: map<nat, nat>
    var freeHead: nat
    var threads: seq<ThreadLog>
    var slots: map<(nat, nat), LogEntry>
    var nextId: nat
    ghost var free: seq<nat>
    ghost var chains: seq<seq<seq<nat>>>
    ghost var owner: map<nat, Owner>

    ghost function St(): Pool
      reads this
    {
      Pool(next, freeHead, threads, slots, nextId, free, chains, owner)
    }

    ghost predicate Valid()
      reads this
    {
      PoolOk(St())
    }

    /** `threadLogPool::init` for the next thread: two fresh sentinels
        with NULL next words, generation 0 current, nothing flushed. */
    method InitThread()
      requires Valid()
      modifies this`next, this`threads, this`nextId, this`chains, this`owner
      ensures Valid() && St() == AddThread(old(St()))
    {
      ghost var p := St();
      var h0, h1 := nextId, nextId + 1;
      next := next[h0 := NULL][h1 := NULL];
      threads := threads + [NewThread(h0, h1)];
      nextId := nextId + 2;
      chains := chains + [[[], []]];
      owner := owner[h0 := Head(|p.threads|, 0)][h1 := Head(|p.threads|, 1)];
      assert St() == AddThread(p);
      AddThreadOk(p);
    }

    /** `nvmLogPool::init`: the free list's sentinel alone, then the log
        group of each of the threads 0 to numThreads, generation 0 current
        and both generations empty. */
    constructor (numThreads: nat)
      ensures Valid() && free == [] && |threads| == numThreads + 1
      ensures forall t :: 0 <= t < |threads| ==> threads[t] == NewThread(threads[t].head[0], threads[t].head[1])
      ensures LogBytes(threads) == 0 && FlushSum(threads) == 0
    {
      next, freeHead, threads, slots, nextId := map[1 := NULL], 1, [], map[], 2;
      free, chains, owner := [], [], map[1 := FreeHead];
      new;
      EmptyOk();
      var i := 0;
      while i <= numThreads
        invariant i <= numThreads + 1 && Valid() && |threads| == i && free == []
        invariant forall t :: 0 <= t < i ==> threads[t] == NewThread(threads[t].head[0], threads[t].head[1])
        invariant LogBytes(threads) == 0 && FlushSum(threads) == 0
      {
        ghost var ts := threads;
        InitThread();
        assert threads[..i] == ts;
        i := i + 1;
      }
    }

    /** The refill of `get_log_chunk`: a new log file of LOG_FILE_SIZE
        chunks with fresh ids, each chunk's next word pointing at the one
        before it and the first one's where the free sentinel pointed,
        then the free sentinel at the last one. */
    method Refill()
      requires Valid() && free == []
      modifies this`next, this`nextId, this`free, this`owner
      ensures St() == Refilled(old(St()), LOG_FILE_SIZE)
      ensures Valid()
    {
      ghost var p0 := St();
      FreeEmpty(p0);
      var base := nextId;
      var n := ThreadFile(next, base, next[freeHead]);
      assert n == Threaded(p0.next, p0.nextId, LOG_FILE_SIZE, NULL);
      next := n[freeHead := base + LOG_FILE_SIZE - 1];
      nextId := base + LOG_FILE_SIZE;
      free := Desc(base, LOG_FILE_SIZE);
      owner := Freed(owner, base, LOG_FILE_SIZE);
      assert St() == Refilled(p0, LOG_FILE_SIZE);
      RefillOk(p0, LOG_FILE_SIZE);
    }

    /** `get_log_chunk`: pops the first free chunk, after a refill when the
        free list is empty; the chunk comes back with a NULL next word. */
    method GetLogChunk() returns (c: nat)
      requires Valid()
      modifies this`next, this`nextId, this`free, this`owner
      ensures St() == ChunkTaken(old(St())) && c == NewChunk(old(St()))
      ensures Valid() && IsTaken(St(), c)
    {
      ghost var p0 := St();
      FreeEmpty(p0);
      if next[freeHead] == NULL {
        Refill();
      }
      ghost var p1 := St();
      PopOk(p1);
      c := next[freeHead];
      next := next[freeHead := next[c]];
      next := next[c := NULL];
      free := free[1..];
      owner := owner[c := Taken];
      assert St() == Popped(p1);
      TakenOk(p0);
    }

    /** Links the chunk c, just taken from the free list, behind the tail
        of thread t's current generation (`add_log`'s rollover). */
    method Link(t: nat, c: nat)
      requires Valid() && t < |threads| && IsTaken(St(), c)
      modifies this`next, this`threads, this`chains, this`owner
      ensures St() == Linked(old(St()), t, c)
      ensures Valid()
    {
      ghost var p := St();
      var tl := threads[t];
      var a := tl.alt;
      var v := tl.vlog[a];
      next := next[v.nowChunk := c];
      threads := threads[t := tl.(vlog := tl.vlog[a := Vlog(c, v.totSize + LOG_CHUNK_SIZE, 0)])];
      chains := chains[t := chains[t][a := chains[t][a] + [c]]];
      owner := owner[c := Held(t, a)];
      assert St() == Linked(p, t, c);
      LinkOk(p, t, c);
    }

    /** Writes (key, value) at the cursor of thread t's current generation
        and advances the cursor (`add_log` after the rollover test). */
    method Write(t: nat, key: int, value: int)
      requires Valid() && t < |threads| && !NeedsChunk(threads[t].vlog[threads[t].alt])
      modifies this`slots, this`threads
      ensures St() == Written(old(St()), t, key, value)
      ensures Valid()
    {
      ghost var p := St();
      var tl := threads[t];
      var a := tl.alt;
      var v := tl.vlog[a];
      CursorBelow(p, t);
      assert v.entryCnt < LOG_ENTRYS_PER_CHUNK;
      slots := slots[(v.nowChunk, v.entryCnt) := LogEntry(key, value)];
      threads := threads[t := tl.(vlog := tl.vlog[a := v.(entryCnt := v.entryCnt + 1)])];
      assert St() == Written(p, t, key, value);
      WriteOk(p, t, key, value);
    }

    /** `add_log` by thread t: when the current generation is empty or
        its tail chunk is full, a chunk from the free list is linked behind
        the tail and becomes the new tail; then the entry goes at the
        cursor.  The pool is then `Logged` (see `LoggedOk`, `LoggedIs` and
        `LoggedSums`). */
    method AddLog(t: nat, key: int, value: int)
      requires Valid() && t < |threads|
      modifies this`next, this`threads, this`slots, this`nextId, this`free, this`chains, this`owner
      ensures St() == Logged(old(St()), t, key, value)
      ensures Valid()
    {
      ghost var p0 := St();
      var tl := threads[t];
      var v := tl.vlog[tl.alt];
      if v.totSize == 0 || v.entryCnt + 1 == LOG_ENTRYS_PER_CHUNK {
        var c := GetLogChunk();
        Link(t, c);
      }
      Write(t, key, value);
    }

    /** `switch_alt_and_init` for thread t: the other generation becomes
        current, emptied behind its sentinel and with nothing flushed; the
        generation left keeps its chunks and cursor for the collector.
        Both sums lose the old current generation's share. */
    method SwitchAltAndInit(t: nat)
      requires Valid() && t < |threads|
      modifies this`next, this`threads, this`chains
      ensures St() == Switched(old(St()), t)
      ensures Valid()
      ensures LogBytes(threads) == old(LogBytes(threads) - CurBytes(threads[t]))
      ensures FlushSum(threads) == old(FlushSum(threads) - threads[t].flushed[threads[t].alt])
    {
      ghost var p := St();
      var tl := threads[t];
      var x := tl.alt;
      var a := 1 - x;
      var flushed := tl.flushed[a := 0];
      var h := tl.head[a];
      next := next[h := NULL];
      threads := threads[t := ThreadLog(a, tl.head, tl.vlog[a := Vlog(h, 0, 0)], flushed)];
      chains := chains[t := chains[t][a := []]];
      assert St() == Switched(p, t);
      SwitchOk(p, t);
      SwitchSums(p, t);
    }

    /** `collect_old_log_to_freelist` for thread t: when the old generation
        holds chunks, they go in front of the free list, in their order,
        and its tot_size becomes 0; both sums stay the same. */
    method CollectOld(t: nat)
      requires Valid() && t < |threads|
      modifies this`next, this`threads, this`free, this`chains, this`owner
      ensures St() == Collected(old(St()), t)
      ensures Valid()
      ensures LogBytes(threads) == old(LogBytes(threads)) && FlushSum(threads) == old(FlushSum(threads))
    {
      ghost var p := St();
      var tl := threads[t];
      var x := 1 - tl.alt;
      var v := tl.vlog[x];
      if v.totSize != 0 {
        CollectReady(p, t);
        ghost var L := p.chains[t][x];
        var tail := v.nowChunk;
        var n1 := next[tail := next[freeHead]];
        next := n1[freeHead := n1[tl.head[x]]];
        free := L + p.free;
        owner := Release(p.owner, L);
        chains := p.chains[t := p.chains[t][x := []]];
        threads := threads[t := tl.(vlog := tl.vlog[x := v.(totSize := 0)])];
        assert St() == Collected(p, t);
      }
      CollectOk(p, t);
      CollectSums(p, t);
    }

    /** `nvmLogPool::collect_old_log_to_freelist`: collects the old
        generation of every thread in turn.  Afterwards every thread's log
        group is `Cleared`, so no old generation holds chunks and every
        current one is untouched; both sums stay the same. */
    method CollectAll()
      requires Valid()
      modifies this`next, this`threads, this`free, this`chains, this`owner
      ensures Valid() && |threads| == |old(threads)|
      ensures forall t :: 0 <= t < |threads| ==> WfThread(old(threads[t])) && threads[t] == Cleared(old(threads[t]))
      ensures LogBytes(threads) == old(LogBytes(threads)) && FlushSum(threads) == old(FlushSum(threads))
    {
      ghost var ts0 := threads;
      var i := 0;
      while i < |threads|
        invariant Valid() && ClearedBelow(ts0, threads, i)
        invariant LogBytes(threads) == LogBytes(ts0) && FlushSum(threads) == FlushSum(ts0)
      {
        ghost var p := St();
        CollectOld(i);
        CollectThreads(p, i);
        ClearedStep(ts0, p.threads, i);
        i := i + 1;
      }
    }

    /** `get_log_totsize`: adds up every thread's current generation's
        share; never negative. */
    method GetLogTotsize() returns (s: int)
      requires Valid()
      ensures s == LogBytes(threads) && 0 <= s
    {
      PoolBytesNonneg(St());
      var ts := threads;
      s := 0;
      var i := 0;
      while i < |ts|
        invariant 0 <= i <= |ts| && AllWf(ts[..i]) && s == LogBytes(ts[..i])
      {
        var v := ts[i].vlog[ts[i].alt];
        if v.totSize > 0 {
          s := s + (v.totSize - LOG_CHUNK_SIZE) + v.entryCnt * LOG_ENTRY_SIZE;
        }
        assert ts[..i + 1][..i] == ts[..i];
        i := i + 1;
      }
      assert ts[..i] == ts;
    }

    /** `get_flush_totnum`: adds up every thread's flush count of its
        current generation. */
    method GetFlushTotnum() returns (s: int)
      requires Valid()
      ensures s == FlushSum(threads)
    {
      var ts := threads;
      s := 0;
      var i := 0;
      while i < |ts|
        invariant 0 <= i <= |ts| && AllWf(ts[..i]) && s == FlushSum(ts[..i])
      {
        s := s + ts[i].flushed[ts[i].alt];
        assert ts[..i + 1][..i] == ts[..i];
        i := i + 1;
      }
      assert ts[..i] == ts;
    }
  }
}
