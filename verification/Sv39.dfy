/** The page table as the source has it: fields updated in place. Each method is
    proved to do to them what the functions of Sv39Model say. */
module Sv39 {
  import opened Bits
  import opened Sv39Bits
  import opened Sv39Model

  class Sv39PageTable {
    var nodes: map<u64, Node>
    var rootPpn: u64
    var nextPpn: u64

    function Value(): Table
      reads this
    {
      Table(nodes, rootPpn, nextPpn)
    }

    constructor ()
      ensures Value() == Sv39Model.New()
    {
      nodes := map[ROOT_PPN := EmptyNode()];
      rootPpn := ROOT_PPN;
      nextPpn := ROOT_PPN + 1;
    }

    method AllocNode() returns (ppn: u64)
      modifies this
      ensures ppn == old(nextPpn) && Value() == old(Value()).Alloc()
    {
      ppn := nextPpn;
      nextPpn := (nextPpn + 1) % U64;
      nodes := nodes[ppn := EmptyNode()];
    }

    method MapPage(va: u64, pa: u64, flags: u64) returns (panicked: bool)
      modifies this
      ensures Outcome(Value(), panicked) == Sv39Model.MapPage(old(Value()), va, pa, flags)
    {
      var curr: nat, level: nat := rootPpn, 2;
      while level >= 1
        invariant level <= 2
        invariant MapFrom(Value(), curr, va, pa, flags, level) == Sv39Model.MapPage(old(Value()), va, pa, flags)
      {
        if curr >= U64 || curr !in nodes {
          return true;
        }
        var vpn := ExtractVpn(va, level);
        var pte := nodes[curr][vpn];
        if !IsValid(pte) {
          var newPpn := AllocNode();
          nodes := nodes[curr := nodes[curr][vpn := PointerPte(newPpn)]];
          curr := newPpn;
        } else {
          curr := Ppn(pte);
        }
        level := level - 1;
      }
      if curr >= U64 || curr !in nodes {
        return true;
      }
      nodes := nodes[curr := nodes[curr][ExtractVpn(va, level) := LeafPte(pa, flags)]];
      return false;
    }

    method Translate(va: u64) returns (r: TranslateResult)
      ensures r == Sv39Model.Translate(Value(), va)
    {
      var curr: nat, level: int := rootPpn, 2;
      while level >= 0
        invariant -1 <= level <= 2
        invariant Sv39Model.Translate(Value(), va)
               == if level < 0 then PageFault else WalkFrom(Value(), curr, va, level)
      {
        if curr >= U64 || curr !in nodes {
          return PageFault;
        }
        var pte := nodes[curr][ExtractVpn(va, level)];
        if !IsValid(pte) {
          return PageFault;
        }
        if IsLeaf(pte) {
          if level > 0 {
            return Ok(Or(Shl64(Ppn(pte), 12), And(va, Pow2(12 + level * 9) - 1)));
          }
          PageAddress(va, pte);
          return Ok(Or(Shl64(Ppn(pte), 12), And(va, 0xFFF)));
        }
        curr := Ppn(pte);
        level := level - 1;
      }
      return PageFault;
    }

    method MapSuperpage(va: u64, pa: u64, flags: u64) returns (panicked: bool)
      modifies this
      ensures Outcome(Value(), panicked) == Sv39Model.MapSuperpage(old(Value()), va, pa, flags)
    {
      if !MegaAligned(va) || !MegaAligned(pa) || rootPpn !in nodes {
        return true;
      }
      var curr: nat := rootPpn;
      var vpn2 := ExtractVpn(va, 2);
      var pte2 := nodes[rootPpn][vpn2];
      if !IsValid(pte2) {
        curr := AllocNode();
        var parent := (curr + U64 - 1) % U64;
        if parent !in nodes {
          return true;
        }
        nodes := nodes[parent := nodes[parent][vpn2 := PointerPte(curr)]];
      } else {
        curr := Ppn(pte2);
      }
      if curr >= U64 || curr !in nodes {
        return true;
      }
      nodes := nodes[curr := nodes[curr][ExtractVpn(va, 1) := LeafPte(pa, flags)]];
      return false;
    }
  }
}
