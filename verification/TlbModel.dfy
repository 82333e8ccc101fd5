/** The FIFO translation cache and the MMU around it (exercises/06_page_table/04_tlb_sim),
    as values. */
module TlbModel {
  import opened Cyclic
  import opened Wrappers

  datatype Entry = Entry(valid: bool, asid: nat, vpn: nat, ppn: nat, flags: nat) {
    predicate Holds(pair: Pair) {
      valid && vpn == pair.vpn && asid == pair.asid
    }

    function Invalidate(): Entry {
      this.(valid := false)
    }
  }

  const EMPTY := Entry(false, 0, 0, 0, 0)

  datatype Pair = Pair(asid: nat, vpn: nat)

  /** The capacity is the number of entries. */
  datatype Tlb = Tlb(entries: seq<Entry>, fifo: nat, hits: nat, misses: nat)

  /** The first entry at or after i that holds the pair. */
  function FindFrom(entries: seq<Entry>, pair: Pair, i: nat): (k: Option<nat>)
    requires i <= |entries|
    ensures k.Some? ==> i <= k.value < |entries| && entries[k.value].Holds(pair)
    ensures k.Some? ==> forall j :: i <= j < k.value ==> !entries[j].Holds(pair)
    ensures k.None? ==> forall j :: i <= j < |entries| ==> !entries[j].Holds(pair)
    decreases |entries| - i
  {
    if i == |entries| then None
    else if entries[i].Holds(pair) then Some(i)
    else FindFrom(entries, pair, i + 1)
  }

  function Lookup(t: Tlb, pair: Pair): (Tlb, Option<nat>) {
    match FindFrom(t.entries, pair, 0)
    case Some(k) => (t.(hits := t.hits + 1), Some(t.entries[k].ppn))
    case None => (t.(misses := t.misses + 1), None)
  }

  function Insert(t: Tlb, pair: Pair, ppn: nat, flags: nat): Tlb
    requires t.fifo < |t.entries|
  {
    match FindFrom(t.entries, pair, 0)
    case Some(k) => t.(entries := t.entries[k := t.entries[k].(ppn := ppn, flags := flags)])
    case None =>
      t.(entries := t.entries[t.fifo := Entry(true, pair.asid, pair.vpn, ppn, flags)],
         fifo := Succ(t.fifo, |t.entries|))
  }

  /** Invalidate the entries a flush selects. */
  function Flush(t: Tlb, selects: Entry -> bool): Tlb {
    t.(entries := seq(|t.entries|, i requires 0 <= i < |t.entries| =>
      if selects(t.entries[i]) then t.entries[i].Invalidate() else t.entries[i]))
  }

  // ---------- the MMU ----------

  datatype Mapping = Mapping(vpn: nat, ppn: nat, flags: nat)

  type PageTable = seq<(nat, Mapping)>

  /** The first mapping of the pair, in the order the mappings were added. */
  function FirstMatch(table: PageTable, pair: Pair): (m: Option<Mapping>)
    ensures m.Some? ==> m.value.vpn == pair.vpn && (pair.asid, m.value) in table
  {
    if table == [] then None
    else if table[0].0 == pair.asid && table[0].1.vpn == pair.vpn then Some(table[0].1)
    else FirstMatch(table[1..], pair)
  }

  datatype Mmu = Mmu(tlb: Tlb, table: PageTable, asid: nat)

  function New(capacity: nat): Mmu {
    Mmu(Tlb(seq(capacity, _ => EMPTY), 0, 0, 0), [], 0)
  }

  function Translate(m: Mmu, vpn: nat): (Mmu, Option<nat>)
    requires m.tlb.fifo < |m.tlb.entries|
  {
    var pair := Pair(m.asid, vpn);
    var (t, ppn) := Lookup(m.tlb, pair);
    if ppn.Some? then (m.(tlb := t), ppn)
    else
      match FirstMatch(m.table, pair)
      case Some(map_) => (m.(tlb := Insert(t, pair, map_.ppn, map_.flags)), Some(map_.ppn))
      case None => (m.(tlb := t), None)
  }

  datatype Op =
    | AddMapping(asid: nat, vpn: nat, ppn: nat, flags: nat)
    | SwitchAsid(asid: nat)
    | Access(vpn: nat)
    | FlushAll
    | FlushByVpn(vpn: nat)
    | FlushByAsid(asid: nat)
  {
    predicate IsFlush() {
      FlushAll? || FlushByVpn? || FlushByAsid?
    }
  }

  /** One operation, and the answer if it is a translation. */
  function Apply(m: Mmu, op: Op): (Mmu, seq<Option<nat>>)
    requires m.tlb.fifo < |m.tlb.entries|
  {
    match op
    case AddMapping(asid, vpn, ppn, flags) => (m.(table := m.table + [(asid, Mapping(vpn, ppn, flags))]), [])
    case SwitchAsid(asid) => (m.(asid := asid), [])
    case Access(vpn) => var (m', r) := Translate(m, vpn); (m', [r])
    case FlushAll => (m.(tlb := Flush(m.tlb, _ => true)), [])
    case FlushByVpn(vpn) => (m.(tlb := Flush(m.tlb, (e: Entry) => e.vpn == vpn)), [])
    case FlushByAsid(asid) => (m.(tlb := Flush(m.tlb, (e: Entry) => e.asid == asid)), [])
  }
}
