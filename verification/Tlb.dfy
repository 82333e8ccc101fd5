/** The cache and the MMU as the source has them: entries, FIFO pointer and
    statistics updated in place by loops. */
module Tlb {
  import opened Cyclic
  import opened TlbModel
  import opened Wrappers

  class TlbCache {
    const entries: array<Entry>
    var fifoPtr: nat
    var hits: nat
    var misses: nat

    /** The FIFO pointer is a slot. A cache without slots can be made, and an insertion
        into it panics. */
    ghost predicate Valid()
      reads this
    {
      fifoPtr < entries.Length
    }

    ghost function Value(): TlbModel.Tlb
      reads this, entries
    {
      Tlb(entries[..], fifoPtr, hits, misses)
    }

    constructor (capacity: nat)
      ensures fresh(entries) && Value() == New(capacity).tlb
      ensures Valid() <==> capacity > 0
    {
      entries := new Entry[capacity](_ => EMPTY);
      fifoPtr, hits, misses := 0, 0, 0;
      new;
      assert entries[..] == seq(capacity, _ => EMPTY);
    }

    method Lookup(vpn: nat, asid: nat) returns (ppn: Option<nat>)
      modifies this
      ensures (Value(), ppn) == TlbModel.Lookup(old(Value()), Pair(asid, vpn))
      ensures fifoPtr == old(fifoPtr)
    {
      for i := 0 to entries.Length
        invariant hits == old(hits) && misses == old(misses) && fifoPtr == old(fifoPtr)
        invariant FindFrom(entries[..], Pair(asid, vpn), 0) == FindFrom(entries[..], Pair(asid, vpn), i)
      {
        if entries[i].Holds(Pair(asid, vpn)) {
          hits := hits + 1;
          return Some(entries[i].ppn);
        }
      }
      misses := misses + 1;
      return None;
    }

    method Insert(vpn: nat, ppn: nat, asid: nat, flags: nat)
      requires Valid()
      modifies this, entries
      ensures Valid() && Value() == TlbModel.Insert(old(Value()), Pair(asid, vpn), ppn, flags)
    {
      for i := 0 to entries.Length
        invariant Value() == old(Value())
        invariant FindFrom(entries[..], Pair(asid, vpn), 0) == FindFrom(entries[..], Pair(asid, vpn), i)
      {
        if entries[i].Holds(Pair(asid, vpn)) {
          entries[i] := entries[i].(ppn := ppn, flags := flags);
          return;
        }
      }
      SuccIsRemainder(fifoPtr, entries.Length);
      entries[fifoPtr] := Entry(true, asid, vpn, ppn, flags);
      fifoPtr := (fifoPtr + 1) % entries.Length;
    }

    method FlushAll()
      modifies entries
      ensures Value() == Flush(old(Value()), _ => true)
    {
      for i := 0 to entries.Length
        invariant forall j :: 0 <= j < i ==> entries[j] == old(entries[j]).Invalidate()
        invariant forall j :: i <= j < entries.Length ==> entries[j] == old(entries[j])
      {
        entries[i] := entries[i].(valid := false);
      }
    }

    method FlushByVpn(vpn: nat)
      modifies entries
      ensures Value() == Flush(old(Value()), (e: Entry) => e.vpn == vpn)
    {
      for i := 0 to entries.Length
        invariant forall j :: 0 <= j < i ==>
          entries[j] == if old(entries[j]).vpn == vpn then old(entries[j]).Invalidate() else old(entries[j])
        invariant forall j :: i <= j < entries.Length ==> entries[j] == old(entries[j])
      {
        if entries[i].vpn == vpn {
          entries[i] := entries[i].(valid := false);
        }
      }
    }

    method FlushByAsid(asid: nat)
      modifies entries
      ensures Value() == Flush(old(Value()), (e: Entry) => e.asid == asid)
    {
      for i := 0 to entries.Length
        invariant forall j :: 0 <= j < i ==>
          entries[j] == if old(entries[j]).asid == asid then old(entries[j]).Invalidate() else old(entries[j])
        invariant forall j :: i <= j < entries.Length ==> entries[j] == old(entries[j])
      {
        if entries[i].asid == asid {
          entries[i] := entries[i].(valid := false);
        }
      }
    }

    method ValidCount() returns (count: nat)
      ensures count == |set i | 0 <= i < entries.Length && entries[i].valid|
    {
      count := 0;
      ghost var seen: set<int> := {};
      for i := 0 to entries.Length
        invariant seen == set j | 0 <= j < i && entries[j].valid
        invariant count == |seen|
      {
        if entries[i].valid {
          count := count + 1;
          seen := seen + {i};
        }
      }
    }
  }

  class MmuUnit {
    const tlb: TlbCache
    var pageTable: PageTable
    var currentAsid: nat

    ghost predicate Valid()
      reads this, tlb
    {
      tlb.Valid()
    }

    ghost function Value(): TlbModel.Mmu
      reads this, tlb, tlb.entries
    {
      Mmu(tlb.Value(), pageTable, currentAsid)
    }

    constructor (capacity: nat)
      ensures fresh(tlb) && fresh(tlb.entries) && Value() == New(capacity)
      ensures Valid() <==> capacity > 0
    {
      tlb := new TlbCache(capacity);
      pageTable, currentAsid := [], 0;
    }

    method AddMapping(asid: nat, vpn: nat, ppn: nat, flags: nat)
      modifies this
      ensures Value() == old(Value()).(table := old(pageTable) + [(asid, Mapping(vpn, ppn, flags))])
    {
      pageTable := pageTable + [(asid, Mapping(vpn, ppn, flags))];
    }

    method SwitchAsid(asid: nat)
      modifies this
      ensures Value() == old(Value()).(asid := asid)
    {
      currentAsid := asid;
    }

    method Translate(vpn: nat) returns (ppn: Option<nat>)
      requires Valid()
      modifies tlb, tlb.entries
      ensures Valid() && (Value(), ppn) == TlbModel.Translate(old(Value()), vpn)
    {
      ppn := tlb.Lookup(vpn, currentAsid);
      if ppn.Some? {
        return;
      }
      var pair := Pair(currentAsid, vpn);
      for i := 0 to |pageTable|
        invariant Valid() && pageTable == old(pageTable) && currentAsid == old(currentAsid)
        invariant (tlb.Value(), None) == TlbModel.Lookup(old(tlb.Value()), pair)
        invariant FirstMatch(pageTable, pair) == FirstMatch(pageTable[i..], pair)
      {
        if pageTable[i].0 == currentAsid && pageTable[i].1.vpn == vpn {
          var m := pageTable[i].1;
          tlb.Insert(m.vpn, m.ppn, currentAsid, m.flags);
          return Some(m.ppn);
        }
      }
      return None;
    }
  }
}
