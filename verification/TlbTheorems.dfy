/** The cache never changes an answer, and how often it misses. */
module TlbTheorems {
  import opened TlbModel
  import opened Wrappers

  // ---------- coherence ----------

  ghost predicate Cached(t: Tlb, pair: Pair) {
    exists i :: 0 <= i < |t.entries| && t.entries[i].Holds(pair)
  }

  /** Two valid entries never hold the same pair. */
  ghost predicate NoDuplicates(t: Tlb) {
    forall i, j, pair: Pair ::
      (0 <= i < |t.entries| && 0 <= j < |t.entries| && t.entries[i].Holds(pair) && t.entries[j].Holds(pair)) ==> i == j
  }

  /** Every valid entry caches the first mapping of its pair. */
  ghost predicate Coherent(t: Tlb, table: PageTable) {
    forall i, pair: Pair :: 0 <= i < |t.entries| && t.entries[i].Holds(pair) ==>
      FirstMatch(table, pair) == Some(Mapping(pair.vpn, t.entries[i].ppn, t.entries[i].flags))
  }

  ghost predicate Inv(m: Mmu) {
    && m.tlb.fifo < |m.tlb.entries|
    && NoDuplicates(m.tlb)
    && Coherent(m.tlb, m.table)
  }

  // Mappings are only appended, and the first match of a pair never changes.
  lemma {:induction false} FirstMatchAppend(table: PageTable, entry: (nat, Mapping), pair: Pair)
    ensures FirstMatch(table, pair).Some? ==> FirstMatch(table + [entry], pair) == FirstMatch(table, pair)
  {
    if table != [] {
      assert (table + [entry])[1..] == table[1..] + [entry];
      FirstMatchAppend(table[1..], entry, pair);
    }
  }

  lemma InsertKeeps(t: Tlb, table: PageTable, pair: Pair, mapping: Mapping)
    requires t.fifo < |t.entries| && NoDuplicates(t) && Coherent(t, table)
    requires FirstMatch(table, pair) == Some(mapping)
    ensures var t' := Insert(t, pair, mapping.ppn, mapping.flags);
            NoDuplicates(t') && Coherent(t', table) && t'.fifo < |t'.entries| == |t.entries|
  {
  }

  lemma FlushKeeps(t: Tlb, table: PageTable, selects: Entry -> bool)
    requires NoDuplicates(t) && Coherent(t, table)
    ensures var t' := Flush(t, selects);
            NoDuplicates(t') && Coherent(t', table) && t'.fifo == t.fifo && |t'.entries| == |t.entries|
  {
    var t' := Flush(t, selects);
    forall i, pair: Pair | 0 <= i < |t'.entries| && t'.entries[i].Holds(pair)
      ensures t.entries[i].Holds(pair) && t'.entries[i] == t.entries[i]
    {
    }
  }

  // A flush removes the pairs it names and no others.
  lemma FlushRemoves(t: Tlb, pair: Pair, vpn: nat, asid: nat)
    ensures !Cached(Flush(t, _ => true), pair)
    ensures Cached(Flush(t, (e: Entry) => e.vpn == vpn), pair) <==> Cached(t, pair) && pair.vpn != vpn
    ensures Cached(Flush(t, (e: Entry) => e.asid == asid), pair) <==> Cached(t, pair) && pair.asid != asid
  {
    FlushSelects(t, _ => true, pair);
    FlushSelects(t, (e: Entry) => e.vpn == vpn, pair);
    FlushSelects(t, (e: Entry) => e.asid == asid, pair);
  }

  lemma FlushSelects(t: Tlb, selects: Entry -> bool, pair: Pair)
    ensures Cached(Flush(t, selects), pair) <==>
            exists i :: 0 <= i < |t.entries| && t.entries[i].Holds(pair) && !selects(t.entries[i])
  {
    var t' := Flush(t, selects);
    forall i | 0 <= i < |t.entries|
      ensures t'.entries[i].Holds(pair) <==> t.entries[i].Holds(pair) && !selects(t.entries[i])
    {
    }
    if i :| 0 <= i < |t.entries| && t.entries[i].Holds(pair) && !selects(t.entries[i]) {
      assert t'.entries[i].Holds(pair);
    }
  }

  /** What a translation must answer: the first match, or a page fault. */
  function Answer(table: PageTable, pair: Pair): Option<nat> {
    match FirstMatch(table, pair)
    case Some(mapping) => Some(mapping.ppn)
    case None => None
  }

  lemma TranslateAnswers(m: Mmu, vpn: nat)
    requires Inv(m)
    ensures var (m', r) := Translate(m, vpn);
            r == Answer(m.table, Pair(m.asid, vpn)) && Inv(m') && m'.table == m.table && m'.asid == m.asid
            && |m'.tlb.entries| == |m.tlb.entries|
  {
    var pair := Pair(m.asid, vpn);
    if FirstMatch(m.table, pair).Some? {
      InsertKeeps(m.tlb.(misses := m.tlb.misses + 1), m.table, pair, FirstMatch(m.table, pair).value);
    }
  }

  // ---------- whole runs against an MMU without a cache ----------

  function Run(m: Mmu, ops: seq<Op>): (Mmu, seq<Option<nat>>)
    requires Inv(m)
    ensures Inv(Run(m, ops).0) && |Run(m, ops).0.tlb.entries| == |m.tlb.entries|
    decreases |ops|
  {
    if ops == [] then (m, [])
    else
      ApplyKeepsInv(m, ops[0]);
      var (m1, r1) := Apply(m, ops[0]);
      var (m2, r2) := Run(m1, ops[1..]);
      (m2, r1 + r2)
  }

  lemma ApplyKeepsInv(m: Mmu, op: Op)
    requires Inv(m)
    ensures Inv(Apply(m, op).0) && |Apply(m, op).0.tlb.entries| == |m.tlb.entries|
  {
    match op
    case AddMapping(asid, vpn, ppn, flags) =>
      forall pair ensures FirstMatch(m.table, pair).Some? ==>
        FirstMatch(m.table + [(asid, Mapping(vpn, ppn, flags))], pair) == FirstMatch(m.table, pair)
      {
        FirstMatchAppend(m.table, (asid, Mapping(vpn, ppn, flags)), pair);
      }
    case SwitchAsid(asid) =>
    case Access(vpn) => TranslateAnswers(m, vpn);
    case FlushAll => FlushKeeps(m.tlb, m.table, _ => true);
    case FlushByVpn(vpn) => FlushKeeps(m.tlb, m.table, (e: Entry) => e.vpn == vpn);
    case FlushByAsid(asid) => FlushKeeps(m.tlb, m.table, (e: Entry) => e.asid == asid);
  }

  /** The answers of an MMU that always walks its page table. */
  function Uncached(table: PageTable, asid: nat, ops: seq<Op>): seq<Option<nat>>
    decreases |ops|
  {
    if ops == [] then []
    else
      match ops[0]
      case AddMapping(a, vpn, ppn, flags) => Uncached(table + [(a, Mapping(vpn, ppn, flags))], asid, ops[1..])
      case SwitchAsid(a) => Uncached(table, a, ops[1..])
      case Access(vpn) => [Answer(table, Pair(asid, vpn))] + Uncached(table, asid, ops[1..])
      case _ => Uncached(table, asid, ops[1..])
  }

  lemma {:induction false} RunIsUncached(m: Mmu, ops: seq<Op>)
    requires Inv(m)
    ensures Run(m, ops).1 == Uncached(m.table, m.asid, ops)
    decreases |ops|
  {
    if ops != [] {
      ApplyKeepsInv(m, ops[0]);
      RunIsUncached(Apply(m, ops[0]).0, ops[1..]);
      if ops[0].Access? {
        TranslateAnswers(m, ops[0].vpn);
      }
    }
  }

  lemma NewInv(capacity: nat)
    requires capacity > 0
    ensures Inv(New(capacity))
  {
  }

  // Every interleaving of mappings, address-space switches, translations and flushes
  // answers as if there were no cache, and no cache ever holds a pair twice.
  lemma CacheIsTransparent(capacity: nat, ops: seq<Op>)
    requires capacity > 0
    ensures Inv(New(capacity))
    ensures Run(New(capacity), ops).1 == Uncached([], 0, ops)
    ensures NoDuplicates(Run(New(capacity), ops).0.tlb)
  {
    NewInv(capacity);
    RunIsUncached(New(capacity), ops);
  }

  function WithoutFlushes(ops: seq<Op>): seq<Op> {
    if ops == [] then []
    else (if ops[0].IsFlush() then [] else [ops[0]]) + WithoutFlushes(ops[1..])
  }

  lemma {:induction false} UncachedIgnoresFlushes(table: PageTable, asid: nat, ops: seq<Op>)
    ensures Uncached(table, asid, WithoutFlushes(ops)) == Uncached(table, asid, ops)
    decreases |ops|
  {
    if ops != [] {
      var table', asid' := table, asid;
      match ops[0] {
        case AddMapping(a, vpn, ppn, flags) => table' := table + [(a, Mapping(vpn, ppn, flags))];
        case SwitchAsid(a) => asid' := a;
        case _ =>
      }
      UncachedIgnoresFlushes(table', asid', ops[1..]);
      var rest := WithoutFlushes(ops[1..]);
      if ops[0].IsFlush() {
        assert WithoutFlushes(ops) == rest;
      } else {
        assert WithoutFlushes(ops)[0] == ops[0] && WithoutFlushes(ops)[1..] == rest;
      }
    }
  }

  // No flush is ever needed: dropping all of them changes no answer, even between
  // caches of different sizes.
  lemma FlushesAreNotNeeded(capacity: nat, capacity': nat, ops: seq<Op>)
    requires capacity > 0 && capacity' > 0
    ensures Inv(New(capacity)) && Inv(New(capacity'))
    ensures Run(New(capacity), ops).1 == Run(New(capacity'), WithoutFlushes(ops)).1
  {
    CacheIsTransparent(capacity, ops);
    CacheIsTransparent(capacity', WithoutFlushes(ops));
    UncachedIgnoresFlushes([], 0, ops);
  }
}
