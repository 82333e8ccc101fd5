/** The SV39 three-level page table (exercises/06_page_table/03_multi_level_pt).
    `Table` is the value of the structure, and the functions on it define what each
    operation does to that value. */
module Sv39Model {
  import opened Bits
  import opened Sv39Bits

  const ROOT_PPN: u64 := 0x8_0000
  /** 2 MB alignment: 512 pages of 4096 bytes. */
  predicate MegaAligned(a: nat) {
    a % 0x20_0000 == 0
  }

  type Node = n: seq<u64> | |n| == PT_ENTRIES witness seq(PT_ENTRIES, _ => 0)

  function EmptyNode(): Node {
    seq(PT_ENTRIES, _ => 0)
  }

  datatype TranslateResult = Ok(pa: nat) | PageFault

  datatype Table = Table(nodes: map<u64, Node>, root: u64, next: u64) {

    function Alloc(): Table {
      this.(nodes := nodes[next := EmptyNode()], next := (next + 1) % U64)
    }

    function Write(ppn: u64, i: nat, pte: u64): Table
      requires ppn in nodes && i < PT_ENTRIES
    {
      this.(nodes := nodes[ppn := nodes[ppn][i := pte]])
    }

    /** The entry a walk reads; a node that does not exist has no valid entry. */
    function Entry(ppn: nat, i: nat): nat
      requires i < PT_ENTRIES
    {
      if ppn < U64 && ppn in nodes then nodes[ppn][i] else 0
    }
  }

  function New(): Table {
    Table(map[ROOT_PPN := EmptyNode()], ROOT_PPN, ROOT_PPN + 1)
  }

  /** A call either completes or panics; either way it leaves a table behind. */
  datatype Outcome = Outcome(table: Table, panicked: bool)

  // ---------- the three operations as functions of the table ----------

  function MapFrom(t: Table, ppn: nat, va: u64, pa: u64, flags: u64, level: nat): Outcome
    requires level <= 2
    decreases level
  {
    if ppn >= U64 || ppn !in t.nodes then Outcome(t, true)
    else
      var i := ExtractVpn(va, level);
      var pte := t.nodes[ppn][i];
      if level == 0 then Outcome(t.Write(ppn, i, LeafPte(pa, flags)), false)
      else if IsValid(pte) then MapFrom(t, Ppn(pte), va, pa, flags, level - 1)
      else MapFrom(t.Alloc().Write(ppn, i, PointerPte(t.next)), t.next, va, pa, flags, level - 1)
  }

  function MapPage(t: Table, va: u64, pa: u64, flags: u64): Outcome {
    MapFrom(t, t.root, va, pa, flags, 2)
  }

  function WalkFrom(t: Table, ppn: nat, va: u64, level: nat): TranslateResult
    requires level <= 2
    decreases level
  {
    if ppn >= U64 || ppn !in t.nodes then PageFault
    else
      var pte := t.nodes[ppn][ExtractVpn(va, level)];
      if !IsValid(pte) then PageFault
      else if IsLeaf(pte) then Ok(LeafAddress(pte, va, level))
      else if level == 0 then PageFault
      else WalkFrom(t, Ppn(pte), va, level - 1)
  }

  function Translate(t: Table, va: u64): TranslateResult {
    WalkFrom(t, t.root, va, 2)
  }

  /** As the source has it, a fresh level-1 node is linked into the node whose
      number is one below its own, whichever node that is. */
  function MapSuperpage(t: Table, va: u64, pa: u64, flags: u64): Outcome {
    if !MegaAligned(va) || !MegaAligned(pa) || t.root !in t.nodes then Outcome(t, true)
    else
      var v2, v1 := ExtractVpn(va, 2), ExtractVpn(va, 1);
      var pte := t.nodes[t.root][v2];
      if IsValid(pte) then
        var ppn := Ppn(pte);
        if ppn >= U64 || ppn !in t.nodes then Outcome(t, true)
        else Outcome(t.Write(ppn, v1, LeafPte(pa, flags)), false)
      else
        var t1, parent := t.Alloc(), (t.next + U64 - 1) % U64;
        if parent !in t1.nodes then Outcome(t1, true)
        else Outcome(t1.Write(parent, v2, PointerPte(t.next)).Write(t.next, v1, LeafPte(pa, flags)), false)
  }
}
