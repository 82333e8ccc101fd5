/** What single operations do to the contents of any cache, coherent or not. */
module TlbEffects {
  import opened Cyclic
  import opened TlbModel
  import opened TlbTheorems
  import opened Wrappers

  /** Entry i is the first that holds the pair. */
  ghost predicate FirstAt(t: Tlb, pair: Pair, i: int) {
    0 <= i < |t.entries| && t.entries[i].Holds(pair) && forall j :: 0 <= j < i ==> !t.entries[j].Holds(pair)
  }

  /** A lookup of the pair meets this page number and these flags. */
  ghost predicate Answers(t: Tlb, pair: Pair, ppn: nat, flags: nat) {
    exists i :: FirstAt(t, pair, i) && t.entries[i].ppn == ppn && t.entries[i].flags == flags
  }

  lemma FoundIsFirst(t: Tlb, pair: Pair)
    ensures var k := FindFrom(t.entries, pair, 0);
            (k.Some? <==> Cached(t, pair)) && forall i :: FirstAt(t, pair, i) <==> k == Some(i)
  {
  }

  // A lookup answers the first entry of the pair and counts; it moves nothing.
  lemma LookupAnswers(t: Tlb, pair: Pair)
    ensures var (t', r) := Lookup(t, pair);
            && t'.entries == t.entries && t'.fifo == t.fifo
            && (r.Some? <==> Cached(t, pair))
            && (r.Some? ==> t'.hits == t.hits + 1 && t'.misses == t.misses
                            && exists flags :: Answers(t, pair, r.value, flags))
            && (r.None? ==> t'.hits == t.hits && t'.misses == t.misses + 1)
  {
    FoundIsFirst(t, pair);
    var k := FindFrom(t.entries, pair, 0);
    if k.Some? {
      assert FirstAt(t, pair, k.value);
      assert Answers(t, pair, t.entries[k.value].ppn, t.entries[k.value].flags);
    }
  }

  // ---------- insertion ----------

  // Whatever was there, the pair just inserted is what the next lookup finds.
  lemma InsertThenLookup(t: Tlb, pair: Pair, ppn: nat, flags: nat)
    requires t.fifo < |t.entries|
    ensures Lookup(Insert(t, pair, ppn, flags), pair).1 == Some(ppn)
    ensures Answers(Insert(t, pair, ppn, flags), pair, ppn, flags)
  {
    FoundIsFirst(t, pair);
    var k, t' := FindFrom(t.entries, pair, 0), Insert(t, pair, ppn, flags);
    assert FirstAt(t', pair, if k.Some? then k.value else t.fifo);
    FoundIsFirst(t', pair);
  }

  // A pair that is cached is updated in place: the set of cached pairs, the pointer, the
  // counters and what any other lookup finds stay.
  lemma InsertUpdates(t: Tlb, pair: Pair, ppn: nat, flags: nat)
    requires t.fifo < |t.entries| && Cached(t, pair)
    ensures var t' := Insert(t, pair, ppn, flags);
            && t' == t.(entries := t'.entries) && |t'.entries| == |t.entries|
            && (forall q :: Cached(t', q) <==> Cached(t, q))
            && (forall q, p, f :: q != pair ==> (Answers(t', q, p, f) <==> Answers(t, q, p, f)))
  {
    var t' := Insert(t, pair, ppn, flags);
    FoundIsFirst(t, pair);
    assert forall q: Pair, i :: 0 <= i < |t.entries| ==> (t'.entries[i].Holds(q) <==> t.entries[i].Holds(q));
    forall q: Pair, p: nat, f: nat | q != pair ensures Answers(t', q, p, f) <==> Answers(t, q, p, f) {
      SameAnswers(t, t', q, p, f);
    }
  }

  // Two caches that hold the pair in the same slots with the same contents.
  lemma SameAnswers(t: Tlb, t': Tlb, q: Pair, p: nat, f: nat)
    requires |t.entries| == |t'.entries|
    requires forall i :: 0 <= i < |t.entries| ==>
               (t'.entries[i].Holds(q) <==> t.entries[i].Holds(q))
               && (t.entries[i].Holds(q) ==> t'.entries[i] == t.entries[i])
    ensures Answers(t', q, p, f) <==> Answers(t, q, p, f)
  {
    forall i ensures FirstAt(t', q, i) <==> FirstAt(t, q, i) {
    }
  }

  /** Some entry other than the one under the pointer holds the pair. */
  ghost predicate CachedElsewhere(t: Tlb, pair: Pair) {
    exists i :: 0 <= i < |t.entries| && i != t.fifo && t.entries[i].Holds(pair)
  }

  // A pair that is not cached takes the slot under the pointer, which moves on by one. The
  // pair that was in the slot loses it, and no other lookup changes.
  lemma InsertReplaces(t: Tlb, pair: Pair, ppn: nat, flags: nat)
    requires t.fifo < |t.entries| && !Cached(t, pair)
    ensures var t' := Insert(t, pair, ppn, flags);
            && t'.fifo == (t.fifo + 1) % |t.entries| && t'.hits == t.hits && t'.misses == t.misses
            && t'.entries == t.entries[t.fifo := Entry(true, pair.asid, pair.vpn, ppn, flags)]
            && (forall q :: Cached(t', q) <==> q == pair || CachedElsewhere(t, q))
            && (forall q, p, f :: q != pair && !t.entries[t.fifo].Holds(q) ==>
                  (Answers(t', q, p, f) <==> Answers(t, q, p, f)))
  {
    var t' := Insert(t, pair, ppn, flags);
    FoundIsFirst(t, pair);
    SuccIsRemainder(t.fifo, |t.entries|);
    forall q ensures Cached(t', q) <==> q == pair || CachedElsewhere(t, q) {
      ReplacedSlot(t, t', pair, q);
    }
    forall q: Pair, p: nat, f: nat | q != pair && !t.entries[t.fifo].Holds(q)
      ensures Answers(t', q, p, f) <==> Answers(t, q, p, f)
    {
      SameAnswers(t, t', q, p, f);
    }
  }

  lemma ReplacedSlot(t: Tlb, t': Tlb, pair: Pair, q: Pair)
    requires t.fifo < |t.entries| == |t'.entries| && t'.entries[t.fifo].Holds(q) == (q == pair)
    requires forall i :: 0 <= i < |t.entries| && i != t.fifo ==> t'.entries[i] == t.entries[i]
    requires !Cached(t, pair)
    ensures Cached(t', q) <==> q == pair || CachedElsewhere(t, q)
  {
    if q == pair {
      assert t'.entries[t.fifo].Holds(q);
    } else {
      if i :| 0 <= i < |t'.entries| && t'.entries[i].Holds(q) {
        assert i != t.fifo && t.entries[i].Holds(q);
      }
      if i :| 0 <= i < |t.entries| && i != t.fifo && t.entries[i].Holds(q) {
        assert t'.entries[i].Holds(q);
      }
    }
  }

  // Insertion never makes a pair cached twice, so in a cache without duplicates exactly
  // the pair under the pointer goes.
  lemma InsertEvictsOne(t: Tlb, pair: Pair, ppn: nat, flags: nat)
    requires t.fifo < |t.entries| && NoDuplicates(t)
    ensures var t' := Insert(t, pair, ppn, flags);
            && NoDuplicates(t')
            && (!Cached(t, pair) ==>
                  forall q :: Cached(t', q) <==> q == pair || (Cached(t, q) && !t.entries[t.fifo].Holds(q)))
  {
    var t' := Insert(t, pair, ppn, flags);
    FoundIsFirst(t, pair);
    if !Cached(t, pair) {
      InsertReplaces(t, pair, ppn, flags);
      forall q ensures CachedElsewhere(t, q) <==> Cached(t, q) && !t.entries[t.fifo].Holds(q) {
      }
    }
  }

  // ---------- flushes ----------

  // A flush clears the valid bit of the entries it names and changes nothing else.
  lemma FlushClearsValid(t: Tlb, selects: Entry -> bool)
    ensures var t' := Flush(t, selects);
            && t' == t.(entries := t'.entries) && |t'.entries| == |t.entries|
            && forall i :: 0 <= i < |t.entries| ==>
                 t'.entries[i] == t.entries[i].(valid := t.entries[i].valid && !selects(t.entries[i]))
  {
    assert forall e: Entry :: e.(valid := e.valid && false) == e.Invalidate() && e.(valid := e.valid && true) == e;
  }

  // ---------- the MMU ----------

  /** Mapping i is the first of the pair in the page table. */
  ghost predicate FirstMappingAt(table: PageTable, pair: Pair, i: int) {
    && 0 <= i < |table| && table[i].0 == pair.asid && table[i].1.vpn == pair.vpn
    && forall j :: 0 <= j < i ==> !(table[j].0 == pair.asid && table[j].1.vpn == pair.vpn)
  }

  // The page-table search finds the mapping of the pair that was added first.
  lemma {:induction false} FirstMatchIsFirst(table: PageTable, pair: Pair)
    ensures FirstMatch(table, pair).None? <==> forall i :: !FirstMappingAt(table, pair, i)
    ensures forall i :: FirstMappingAt(table, pair, i) ==> FirstMatch(table, pair) == Some(table[i].1)
    ensures FirstMatch(table, pair).None? <==>
            forall i :: 0 <= i < |table| ==> !(table[i].0 == pair.asid && table[i].1.vpn == pair.vpn)
  {
    if table != [] {
      if table[0].0 == pair.asid && table[0].1.vpn == pair.vpn {
        assert FirstMappingAt(table, pair, 0);
      } else {
        FirstMatchIsFirst(table[1..], pair);
        forall i ensures FirstMappingAt(table, pair, i) <==> FirstMappingAt(table[1..], pair, i - 1) {
          MappingTail(table, pair, i);
        }
        assert forall i :: 0 < i < |table| ==> table[i] == table[1..][i - 1];
        assert forall i :: FirstMappingAt(table[1..], pair, i) ==> FirstMappingAt(table, pair, i + 1);
      }
    }
  }

  lemma MappingTail(table: PageTable, pair: Pair, i: int)
    requires table != [] && !(table[0].0 == pair.asid && table[0].1.vpn == pair.vpn)
    ensures FirstMappingAt(table, pair, i) <==> FirstMappingAt(table[1..], pair, i - 1)
  {
    var rest := table[1..];
    assert forall j :: 0 < j < |table| ==> table[j] == rest[j - 1];
    if FirstMappingAt(rest, pair, i - 1) {
      forall j | 0 <= j < i ensures !(table[j].0 == pair.asid && table[j].1.vpn == pair.vpn) {
        if j > 0 {
          assert table[j] == rest[j - 1];
        }
      }
    }
    if FirstMappingAt(table, pair, i) {
      forall j | 0 <= j < i - 1 ensures !(rest[j].0 == pair.asid && rest[j].1.vpn == pair.vpn) {
        assert rest[j] == table[j + 1];
      }
    }
  }

  // A translation of any MMU with a slot: a hit counts and changes nothing else; a fault
  // counts a miss and changes nothing else; a miss on a mapped page counts and caches
  // the first mapping, page number and flags, under the current address space.
  lemma TranslateEffect(m: Mmu, vpn: nat)
    requires m.tlb.fifo < |m.tlb.entries|
    ensures var (m', r) := Translate(m, vpn);
            var pair, t := Pair(m.asid, vpn), m.tlb;
            && m'.table == m.table && m'.asid == m.asid
            && (Cached(t, pair) ==> m'.tlb == t.(hits := t.hits + 1)
                                    && r.Some? && exists flags :: Answers(t, pair, r.value, flags))
            && (!Cached(t, pair) ==> m'.tlb.misses == t.misses + 1 && m'.tlb.hits == t.hits)
            && (!Cached(t, pair) && FirstMatch(m.table, pair).None? ==>
                  r == None && m'.tlb == t.(misses := t.misses + 1))
            && (!Cached(t, pair) && FirstMatch(m.table, pair).Some? ==>
                  var mapping := FirstMatch(m.table, pair).value;
                  && r == Some(mapping.ppn) && m'.tlb.fifo == (t.fifo + 1) % |t.entries|
                  && m'.tlb.entries == t.entries[t.fifo := Entry(true, m.asid, vpn, mapping.ppn, mapping.flags)])
  {
    var pair := Pair(m.asid, vpn);
    LookupAnswers(m.tlb, pair);
    if !Cached(m.tlb, pair) && FirstMatch(m.table, pair).Some? {
      var mapping := FirstMatch(m.table, pair).value;
      var t1 := m.tlb.(misses := m.tlb.misses + 1);
      assert Cached(t1, pair) <==> Cached(m.tlb, pair);
      InsertReplaces(t1, pair, mapping.ppn, mapping.flags);
    }
  }

  // Every entry a run leaves in the cache has the page number and the flags of the first
  // mapping of its pair.
  lemma CacheIsCoherent(capacity: nat, ops: seq<Op>, pair: Pair, ppn: nat, flags: nat)
    requires capacity > 0
    ensures Inv(New(capacity))
    ensures var m := Run(New(capacity), ops).0;
            Answers(m.tlb, pair, ppn, flags) ==> FirstMatch(m.table, pair) == Some(Mapping(pair.vpn, ppn, flags))
  {
    NewInv(capacity);
  }
}
