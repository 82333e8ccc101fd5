/** Replacement-policy theorems of the FIFO cache: a working set that fits misses
    each page once, and a cycle that is one page too long never hits. */
module TlbMisses {
  import opened Cyclic
  import opened TlbModel
  import opened TlbTheorems

  /** The slot filled j insertions ago. */
  function Back(fifo: nat, j: nat, capacity: nat): (slot: nat)
    requires fifo < capacity && 1 <= j <= capacity
    ensures slot < capacity
  {
    if j <= fifo then fifo - j else fifo + capacity - j
  }

  /** The last |recent| insertions, oldest first, are all still in place. */
  ghost predicate Recent(t: Tlb, recent: seq<Pair>)
    requires t.fifo < |t.entries|
  {
    && |recent| <= |t.entries|
    && (forall j :: 1 <= j <= |recent| ==>
          t.entries[Back(t.fifo, j, |t.entries|)].Holds(recent[|recent| - j]))
  }

  ghost predicate Distinct(pairs: seq<Pair>) {
    forall i, j :: 0 <= i < j < |pairs| ==> pairs[i] != pairs[j]
  }

  predicate Hit(m: Mmu, vpn: nat) {
    FindFrom(m.tlb.entries, Pair(m.asid, vpn), 0).Some?
  }

  predicate Mapped(m: Mmu, vpn: nat) {
    FirstMatch(m.table, Pair(m.asid, vpn)).Some?
  }

  lemma HitIsCached(m: Mmu, vpn: nat)
    ensures Hit(m, vpn) <==> Cached(m.tlb, Pair(m.asid, vpn))
  {
  }

  /** The pairs of mapped pages that a run accesses. */
  function Touched(m: Mmu, ops: seq<Op>): set<Pair>
    requires Inv(m)
    decreases |ops|
  {
    if ops == [] then {}
    else
      ApplyKeepsInv(m, ops[0]);
      (if ops[0].Access? && Mapped(m, ops[0].vpn) then {Pair(m.asid, ops[0].vpn)} else {})
      + Touched(Apply(m, ops[0]).0, ops[1..])
  }

  /** The misses on mapped pages, in order; each inserts its pair. */
  function Refills(m: Mmu, ops: seq<Op>): seq<Pair>
    requires Inv(m)
    decreases |ops|
  {
    if ops == [] then []
    else
      ApplyKeepsInv(m, ops[0]);
      (if ops[0].Access? && Mapped(m, ops[0].vpn) && !Hit(m, ops[0].vpn) then [Pair(m.asid, ops[0].vpn)] else [])
      + Refills(Apply(m, ops[0]).0, ops[1..])
  }

  /** The number of accesses to unmapped pages. */
  function Faults(m: Mmu, ops: seq<Op>): nat
    requires Inv(m)
    decreases |ops|
  {
    if ops == [] then 0
    else
      ApplyKeepsInv(m, ops[0]);
      (if ops[0].Access? && !Mapped(m, ops[0].vpn) then 1 else 0) + Faults(Apply(m, ops[0]).0, ops[1..])
  }

  function Accesses(ops: seq<Op>): nat {
    if ops == [] then 0 else (if ops[0].Access? then 1 else 0) + Accesses(ops[1..])
  }

  // An unmapped page is never cached, so the miss counter counts refills and faults;
  // every other access is counted as a hit.
  lemma {:induction false} MissesAreRefillsAndFaults(m: Mmu, ops: seq<Op>)
    requires Inv(m)
    ensures Run(m, ops).0.tlb.misses == m.tlb.misses + |Refills(m, ops)| + Faults(m, ops)
    ensures Run(m, ops).0.tlb.hits + Run(m, ops).0.tlb.misses == m.tlb.hits + m.tlb.misses + Accesses(ops)
    decreases |ops|
  {
    if ops != [] {
      ApplyKeepsInv(m, ops[0]);
      MissesAreRefillsAndFaults(Apply(m, ops[0]).0, ops[1..]);
    }
  }

  lemma {:induction false} DistinctFits(pairs: seq<Pair>, s: set<Pair>)
    requires Distinct(pairs) && forall p :: p in pairs ==> p in s
    ensures |pairs| <= |s|
    decreases |pairs|
  {
    if pairs != [] {
      var n := |pairs| - 1;
      forall p | p in pairs[..n] ensures p in s - {pairs[n]} {
      }
      DistinctFits(pairs[..n], s - {pairs[n]});
    }
  }

  // Inserting a pair that is not cached pushes it onto the recent ones.
  lemma InsertIsRecent(t: Tlb, recent: seq<Pair>, pair: Pair, ppn: nat, flags: nat)
    requires t.fifo < |t.entries| && Recent(t, recent) && |recent| < |t.entries| && !Cached(t, pair)
    ensures Recent(Insert(t, pair, ppn, flags), recent + [pair])
  {
    var t', cap, recent' := Insert(t, pair, ppn, flags), |t.entries|, recent + [pair];
    forall j | 1 <= j <= |recent'|
      ensures t'.entries[Back(t'.fifo, j, cap)].Holds(recent'[|recent'| - j])
    {
      if j > 1 {
        assert Back(t'.fifo, j, cap) == Back(t.fifo, j - 1, cap) != t.fifo;
      }
    }
  }

  lemma ApplyKeepsRecent(m: Mmu, op: Op, recent: seq<Pair>)
    requires Inv(m) && Recent(m.tlb, recent) && !op.IsFlush()
    requires op.Access? && Mapped(m, op.vpn) ==> Hit(m, op.vpn) || |recent| < |m.tlb.entries|
    ensures Inv(Apply(m, op).0)
    ensures var miss := op.Access? && Mapped(m, op.vpn) && !Hit(m, op.vpn);
            Recent(Apply(m, op).0.tlb, recent + if miss then [Pair(m.asid, op.vpn)] else [])
  {
    ApplyKeepsInv(m, op);
    assert recent + [] == recent;
    if op.Access? && Mapped(m, op.vpn) && !Hit(m, op.vpn) {
      var mapping := FirstMatch(m.table, Pair(m.asid, op.vpn)).value;
      HitIsCached(m, op.vpn);
      InsertIsRecent(m.tlb.(misses := m.tlb.misses + 1), recent, Pair(m.asid, op.vpn), mapping.ppn, mapping.flags);
    }
  }

  lemma {:induction false} WorkingSetFrom(m: Mmu, recent: seq<Pair>, ops: seq<Op>, s: set<Pair>)
    requires Inv(m) && Recent(m.tlb, recent) && Distinct(recent) && (forall p :: p in recent ==> p in s)
    requires (forall op :: op in ops ==> !op.IsFlush()) && Touched(m, ops) <= s && |s| <= |m.tlb.entries|
    ensures Distinct(recent + Refills(m, ops)) && forall p :: p in Refills(m, ops) ==> p in s
    decreases |ops|
  {
    if ops == [] {
      assert recent + [] == recent;
    } else {
      var op := ops[0];
      var miss := op.Access? && Mapped(m, op.vpn) && !Hit(m, op.vpn);
      var recent' := recent + if miss then [Pair(m.asid, op.vpn)] else [];
      ApplyKeepsInv(m, op);
      if miss {
        HitIsCached(m, op.vpn);
        MissIsNew(m.tlb, recent, Pair(m.asid, op.vpn));
        assert Pair(m.asid, op.vpn) in Touched(m, ops);
        DistinctFits(recent', s);
      }
      ApplyKeepsRecent(m, op, recent);
      WorkingSetFrom(Apply(m, op).0, recent', ops[1..], s);
      assert recent + Refills(m, ops) == recent' + Refills(Apply(m, op).0, ops[1..]);
    }
  }

  lemma MissIsNew(t: Tlb, recent: seq<Pair>, pair: Pair)
    requires t.fifo < |t.entries| && Recent(t, recent) && !Cached(t, pair)
    ensures pair !in recent
  {
    forall i | 0 <= i < |recent| ensures recent[i] != pair {
      var j := |recent| - i;
      assert t.entries[Back(t.fifo, j, |t.entries|)].Holds(recent[|recent| - j]);
    }
  }

  // From any state whatever, in a run without flushes that touches no more mapped
  // pages than the cache has entries, each page is refilled at most once.
  lemma WorkingSetMissesOnce(m: Mmu, ops: seq<Op>)
    requires Inv(m) && (forall op :: op in ops ==> !op.IsFlush())
    requires |Touched(m, ops)| <= |m.tlb.entries|
    ensures Distinct(Refills(m, ops))
    ensures |Refills(m, ops)| <= |Touched(m, ops)|
    ensures Run(m, ops).0.tlb.misses <= m.tlb.misses + |Touched(m, ops)| + Faults(m, ops)
  {
    WorkingSetFrom(m, [], ops, Touched(m, ops));
    assert [] + Refills(m, ops) == Refills(m, ops);
    DistinctFits(Refills(m, ops), Touched(m, ops));
    MissesAreRefillsAndFaults(m, ops);
  }

  // ---------- thrashing ----------

  /** Switch to the pair's address space and translate its page. */
  function AccessPair(m: Mmu, pair: Pair): Mmu
    requires m.tlb.fifo < |m.tlb.entries|
  {
    Translate(m.(asid := pair.asid), pair.vpn).0
  }

  /** j places before c on a cycle of n. */
  function Before(c: nat, j: nat, n: nat): nat
    requires c < n && j <= n
  {
    if j <= c then c - j else c + n - j
  }

  /** n accesses going round the pages, starting with page c. */
  function Cycle(m: Mmu, pages: seq<Pair>, c: nat, n: nat): Mmu
    requires Inv(m) && c < |pages|
    decreases n
  {
    if n == 0 then m
    else
      TranslateAnswers(m.(asid := pages[c].asid), pages[c].vpn);
      Cycle(AccessPair(m, pages[c]), pages, Succ(c, |pages|), n - 1)
  }

  ghost predicate AllMapped(m: Mmu, pages: seq<Pair>) {
    forall p :: p in pages ==> FirstMatch(m.table, p).Some?
  }

  /** The last k accesses are the k most recent insertions, and outside their slots
      no page of the cycle is cached. */
  ghost predicate Thrashing(t: Tlb, pages: seq<Pair>, c: nat, k: nat)
    requires t.fifo < |t.entries| && c < |pages| && |pages| == |t.entries| + 1
  {
    && k <= |t.entries|
    && (forall j :: 1 <= j <= k ==> t.entries[Back(t.fifo, j, |t.entries|)].Holds(pages[Before(c, j, |pages|)]))
    && (forall j, p :: k < j <= |t.entries| && p in pages ==> !t.entries[Back(t.fifo, j, |t.entries|)].Holds(p))
  }

  // Every slot is the slot of some insertion.
  lemma SlotIsBack(slot: nat, fifo: nat, capacity: nat) returns (j: nat)
    requires slot < capacity && fifo < capacity
    ensures 1 <= j <= capacity && Back(fifo, j, capacity) == slot
  {
    j := if slot < fifo then fifo - slot else fifo + capacity - slot;
  }

  lemma ThrashingMisses(t: Tlb, pages: seq<Pair>, c: nat, k: nat)
    requires t.fifo < |t.entries| && c < |pages| && |pages| == |t.entries| + 1
    requires Thrashing(t, pages, c, k) && Distinct(pages)
    ensures !Cached(t, pages[c])
  {
    forall i | 0 <= i < |t.entries| ensures !t.entries[i].Holds(pages[c]) {
      var j := SlotIsBack(i, t.fifo, |t.entries|);
      if j <= k {
        var b := Before(c, j, |pages|);
        assert t.entries[i].Holds(pages[b]) && b != c;
        assert if b < c then pages[b] != pages[c] else pages[c] != pages[b];
      } else {
        assert pages[c] in pages;
      }
    }
  }

  lemma ThrashingInsert(t: Tlb, pages: seq<Pair>, c: nat, k: nat, ppn: nat, flags: nat)
    requires t.fifo < |t.entries| && c < |pages| && |pages| == |t.entries| + 1
    requires Thrashing(t, pages, c, k) && Distinct(pages) && !Cached(t, pages[c])
    ensures Thrashing(Insert(t, pages[c], ppn, flags), pages, Succ(c, |pages|), if k < |t.entries| then k + 1 else k)
  {
    var t', cap, c', n := Insert(t, pages[c], ppn, flags), |t.entries|, Succ(c, |pages|), |pages|;
    var k' := if k < cap then k + 1 else k;
    forall j | 1 <= j <= k' ensures t'.entries[Back(t'.fifo, j, cap)].Holds(pages[Before(c', j, n)]) {
      if j > 1 {
        assert Back(t'.fifo, j, cap) == Back(t.fifo, j - 1, cap) != t.fifo;
        assert Before(c', j, n) == Before(c, j - 1, n);
      }
    }
    forall j, p | k' < j <= cap && p in pages ensures !t'.entries[Back(t'.fifo, j, cap)].Holds(p) {
      assert Back(t'.fifo, j, cap) == Back(t.fifo, j - 1, cap) != t.fifo;
    }
  }

  lemma {:induction false} CycleFrom(m: Mmu, pages: seq<Pair>, c: nat, k: nat, n: nat)
    requires Inv(m) && c < |pages| && |pages| == |m.tlb.entries| + 1
    requires Thrashing(m.tlb, pages, c, k) && Distinct(pages) && AllMapped(m, pages)
    ensures Cycle(m, pages, c, n).tlb.hits == m.tlb.hits
    ensures Cycle(m, pages, c, n).tlb.misses == m.tlb.misses + n
    decreases n
  {
    if n > 0 {
      var m1 := m.(asid := pages[c].asid);
      var m' := AccessPair(m, pages[c]);
      TranslateAnswers(m1, pages[c].vpn);
      ThrashingMisses(m.tlb, pages, c, k);
      HitIsCached(m1, pages[c].vpn);
      var mapping := FirstMatch(m.table, pages[c]).value;
      ThrashingInsert(m.tlb.(misses := m.tlb.misses + 1), pages, c, k, mapping.ppn, mapping.flags);
      CycleFrom(m', pages, Succ(c, |pages|), if k < |m.tlb.entries| then k + 1 else k, n - 1);
    }
  }

  // Going round one page more than fits, with none of them cached at the start,
  // never hits, for every capacity and every length.
  lemma ThrashingNeverHits(m: Mmu, pages: seq<Pair>, n: nat)
    requires Inv(m) && |pages| == |m.tlb.entries| + 1 && Distinct(pages) && AllMapped(m, pages)
    requires forall p :: p in pages ==> !Cached(m.tlb, p)
    ensures Cycle(m, pages, 0, n).tlb.hits == m.tlb.hits
    ensures Cycle(m, pages, 0, n).tlb.misses == m.tlb.misses + n
  {
    CycleFrom(m, pages, 0, 0, n);
  }
}
