/** Page-table entries and virtual page numbers of the SV39 table: the bit
    expressions of the source, and what they mean as numbers. */
module Sv39Bits {
  import opened Bits

  const PT_ENTRIES: nat := 512
  const PTE_V: nat := 1
  const PTE_RWX: nat := 14  // PTE_R | PTE_W | PTE_X
  const PPN_SHIFT: nat := 10
  const PPN_LIMIT: nat := 0x40_0000_0000_0000  // 2^54
  const PAGES: nat := 0x800_0000  // 2^27 virtual pages

  function ExtractVpn(va: nat, level: nat): (vpn: nat)
    ensures vpn < PT_ENTRIES
  {
    AndMask(Shr(va, 12 + level * 9), 9);
    ShrLow(Shr(va, 12 + level * 9), 9);
    Pow2Values();
    And(Shr(va, 12 + level * 9), 0x1FF)
  }

  predicate IsValid(pte: nat) {
    And(pte, PTE_V) != 0
  }

  predicate IsLeaf(pte: nat) {
    And(pte, PTE_RWX) != 0
  }

  /** One of the permissions R (bit 1), W (bit 2) and X (bit 3) is given. */
  predicate HasRwx(flags: nat) {
    (flags / 2) % 8 != 0
  }

  function Ppn(pte: nat): nat {
    Shr(pte, PPN_SHIFT)
  }

  function PointerPte(ppn: nat): (pte: nat)
    ensures pte < U64
  {
    Pow2Values();
    OrBound(Shl64(ppn, PPN_SHIFT), PTE_V, 64);
    Or(Shl64(ppn, PPN_SHIFT), PTE_V)
  }

  function LeafPte(pa: nat, flags: nat): (pte: nat)
    requires flags < U64
    ensures pte < U64
  {
    Pow2Values();
    OrBound(Shl64(Shr(pa, 12), PPN_SHIFT), flags, 64);
    OrBound(Or(Shl64(Shr(pa, 12), PPN_SHIFT), flags), PTE_V, 64);
    Or(Or(Shl64(Shr(pa, 12), PPN_SHIFT), flags), PTE_V)
  }

  /** The page number a leaf written by map_page(_, pa, flags) carries: flag bits
      from bit 10 up leak into it. */
  function LeafPpn(pa: nat, flags: nat): nat {
    Or(Shr(pa, 12), Shr(flags, PPN_SHIFT))
  }

  /** The physical address a leaf gives when found at `level`. */
  function LeafAddress(pte: nat, va: nat, level: nat): nat {
    Or(Shl64(Ppn(pte), 12), And(va, Pow2(12 + level * 9) - 1))
  }

  /** The virtual page number of an address: its bits 38 to 12. */
  function PageOf(va: nat): (v: nat)
    ensures v < PAGES
  {
    (va / 4096) % PAGES
  }

  /** A physical page with the page offset of `va`. */
  function AddressIn(ppn: nat, va: nat): nat {
    Or(Shl64(ppn, 12), And(va, 0xFFF))
  }

  // ---------- virtual page numbers ----------

  lemma VpnIsField(va: nat, level: nat)
    ensures ExtractVpn(va, level) == (va / Pow2(12 + level * 9)) % 512
  {
    AndMask(Shr(va, 12 + level * 9), 9);
    ShrIsDiv(va, 12 + level * 9);
    ShrIsDiv(Shr(va, 12 + level * 9), 9);
    Pow2Values();
  }

  lemma VpnsOfPage(va: nat)
    ensures ExtractVpn(va, 2) == PageOf(va) / 0x4_0000
    ensures ExtractVpn(va, 1) == (PageOf(va) / 512) % 512
    ensures ExtractVpn(va, 0) == PageOf(va) % 512
  {
    FieldPowers();
    VpnOfField(va, 0, 0, 27, 1);
    VpnOfField(va, 1, 9, 18, 512);
    VpnOfField(va, 2, 18, 9, 0x4_0000);
  }

  lemma FieldPowers()
    ensures Pow2(0) == 1 && Pow2(9) == 512 && Pow2(18) == 0x4_0000
  {
    Pow2Add(9, 9);
  }

  lemma VpnOfField(va: nat, level: nat, j: nat, m: nat, d: nat)
    requires j == level * 9 && m >= 9 && j + m == 27 && d == Pow2(j)
    ensures ExtractVpn(va, level) == (PageOf(va) / d) % 512
  {
    var q := Shr(va, 12);
    PageIsField(va);
    ShrShr(va, 12, j);
    LowFields(q, j, m);
    LowFields(Shr(q, j), 9, m - 9);
    ShrIsDiv(Low(q, j + m), j);
    NineBits(Shr(q, j));
    NineBits(Low(Shr(q, j), m));
  }

  lemma NineBits(x: nat)
    ensures And(x, 0x1FF) == Low(x, 9) == x % 512
  {
    FieldPowers();
    AndMask(x, 9);
    ShrIsDiv(x, 9);
  }

  lemma PageIsField(va: nat)
    ensures PageOf(va) == Low(Shr(va, 12), 27)
  {
    Pow2Values();
    Pow2Add(9, 18);
    Pow2Add(9, 9);
    ShrIsDiv(va, 12);
    ShrIsDiv(Shr(va, 12), 27);
  }

  // ---------- entries ----------

  lemma PointerFacts(ppn: nat)
    requires ppn < PPN_LIMIT
    ensures IsValid(PointerPte(ppn)) && !IsLeaf(PointerPte(ppn)) && Ppn(PointerPte(ppn)) == ppn
  {
    Pow2Values();
    assert Shl64(ppn, 10) == ppn * 1024;
    OrAdds(ppn, 1, 10);
    PteFields(ppn, 1);
  }

  // The tests of an entry, split at the page number field.
  lemma PteFields(ppn: nat, low: nat)
    requires low < 1024
    ensures IsValid(ppn * 1024 + low) <==> And(low, PTE_V) != 0
    ensures IsLeaf(ppn * 1024 + low) <==> And(low, PTE_RWX) != 0
    ensures Ppn(ppn * 1024 + low) == ppn
  {
    LowTest(ppn, low, 1, 10);
    LowTest(ppn, low, 14, 10);
    Pow2Values();
    FieldUnique(ppn * 1024 + low, 10, ppn, low);
  }

  lemma LowTest(x: nat, low: nat, mask: nat, k: nat)
    requires low < Pow2(k) && mask < Pow2(k)
    ensures And(x * Pow2(k) + low, mask) == And(low, mask)
  {
    AndSplit(x, low, 0, mask, k);
  }

  lemma LeafFacts(pa: u64, flags: u64)
    ensures IsValid(LeafPte(pa, flags))
    ensures IsLeaf(LeafPte(pa, flags)) <==> HasRwx(flags)
    ensures Ppn(LeafPte(pa, flags)) == LeafPpn(pa, flags)
    ensures LeafPte(pa, flags) % 1024 == Or(flags % 1024, 1)
  {
    PageShifted(pa);
    LeafBits(Shr(pa, 12), Shl64(Shr(pa, 12), 10), flags);
    LeafPermissions(Shr(pa, 12), Shl64(Shr(pa, 12), 10), flags, 10);
    EntryBits(flags);
  }

  // What the tests of an entry ask, and where its page number is.
  lemma EntryBits(e: nat)
    ensures IsValid(e) <==> e % 2 == 1
    ensures IsLeaf(e) <==> HasRwx(e)
    ensures Ppn(e) == e / 1024
  {
    AndHalves(e, 1);
    AndHalves(e, 14);
    LowThree(e / 2, 3);
    Pow2Values();
    ShrIsDiv(e, 10);
  }

  lemma LowThree(x: nat, k: nat)
    requires k == 3
    ensures And(x, 7) == x % 8
  {
    assert Pow2(3) == 8;
    MaskIsMod(x, k, 8);
  }

  // An intermediate entry holds the number of its node and the valid bit, and nothing else.
  lemma PointerIs(ppn: nat)
    requires ppn < PPN_LIMIT
    ensures PointerPte(ppn) == ppn * 1024 + 1
  {
    Pow2Values();
    assert Shl64(ppn, 10) == ppn * 1024;
    OrAdds(ppn, 1, 10);
  }

  lemma LeafPermissions(p: nat, base: nat, flags: nat, k: nat)
    requires base == p * 1024 && k == 10
    ensures Or(Or(base, flags), 1) % 1024 == Or(flags % 1024, 1)
  {
    TenBits(k);
    var low := Or(base, flags);
    OrFields(low, 1, k);
    OrFields(base, flags, k);
    FieldUnique(base, k, p, 0);
    FieldUnique(1, k, 0, 1);
    ShrIsDiv(Or(low, 1), k);
    ShrIsDiv(flags, k);
  }

  lemma TenBits(k: nat)
    requires k == 10
    ensures Pow2(k) == 1024
  {
    Pow2Values();
  }

  lemma PageShifted(pa: u64)
    ensures Shl64(Shr(pa, 12), 10) == Shr(pa, 12) * 1024
  {
    Pow2Values();
    ShrIsDiv(pa, 12);
  }

  lemma LeafBits(p: nat, base: nat, flags: nat)
    requires base == p * 1024
    ensures var pte := Or(Or(base, flags), PTE_V);
            && IsValid(pte)
            && (IsLeaf(pte) <==> And(flags, PTE_RWX) != 0)
            && Ppn(pte) == Or(p, Shr(flags, 10))
  {
    var low := Or(base, flags);
    PteFields(p, 0);
    PteFields(0, 1);
    OrTests(low, 1, PTE_V);
    OrTests(low, 1, PTE_RWX);
    OrTests(base, flags, PTE_RWX);
    OrFields(low, 1, 10);
    OrFields(base, flags, 10);
  }

  lemma OrTests(x: nat, y: nat, mask: nat)
    ensures And(Or(x, y), mask) != 0 <==> And(x, mask) != 0 || And(y, mask) != 0
  {
    AndOrDistributes(x, y, mask);
    OrIsZero(And(x, mask), And(y, mask));
  }

  // With flags that fit below bit 10 a leaf carries exactly the page of pa.
  lemma LeafPpnIsPage(pa: nat, flags: nat)
    requires flags < 1024
    ensures LeafPpn(pa, flags) == pa / 4096
  {
    Pow2Values();
    ShrIsDiv(pa, 12);
    FieldUnique(flags, 10, 0, flags);
  }

  // ---------- physical addresses ----------

  lemma PageAddress(va: nat, pte: nat)
    ensures LeafAddress(pte, va, 0) == AddressIn(Ppn(pte), va)
  {
    Pow2Values();
  }

  // A 2 MB leaf acts on each of its 512 pages like a 4 KB leaf whose page number
  // has the low virtual page number or-ed in.
  lemma SuperpageAddress(va: nat, pte: nat)
    ensures LeafAddress(pte, va, 1) == AddressIn(Or(Ppn(pte), ExtractVpn(va, 0)), va)
  {
    Pow2Values();
    JoinOffset(Ppn(pte), va, 12, 9, 52);
  }

  lemma JoinOffset(b: nat, va: nat, k: nat, j: nat, m: nat)
    requires j <= m && Pow2(k + m) == U64
    ensures Or(Shl64(b, k), And(va, Pow2(k + j) - 1))
         == Or(Shl64(Or(b, And(Shr(va, k), Pow2(j) - 1)), k), And(va, Pow2(k) - 1))
  {
    var v, off := Low(Shr(va, k), j), Low(va, k);
    MasksAreFields(va, k, j);
    Pow2Monotone(j, m);
    JoinFields(b, v, off, k, m);
  }

  lemma MasksAreFields(va: nat, k: nat, j: nat)
    ensures And(va, Pow2(k + j) - 1) == Low(Shr(va, k), j) * Pow2(k) + Low(va, k)
    ensures And(Shr(va, k), Pow2(j) - 1) == Low(Shr(va, k), j) < Pow2(j)
    ensures And(va, Pow2(k) - 1) == Low(va, k) < Pow2(k)
  {
    AndMask(va, k + j);
    AndMask(va, k);
    AndMask(Shr(va, k), j);
    LowSplit(va, k, j);
    ShrLow(va, k);
    ShrLow(Shr(va, k), j);
  }

  lemma JoinFields(b: nat, v: nat, off: nat, k: nat, m: nat)
    requires v < Pow2(m) && off < Pow2(k) && Pow2(k + m) == U64
    ensures Or(Shl64(b, k), v * Pow2(k) + off) == Or(Shl64(Or(b, v), k), off)
  {
    Shl64Low(b, k, m);
    Shl64Low(Or(b, v), k, m);
    OrFields(b, v, m);
    FieldUnique(v, m, 0, v);
    OrSplit(Low(b, m), 0, v, off, k);
    OrAdds(Low(Or(b, v), m), off, k);
  }

  lemma Shl64Low(b: nat, k: nat, m: nat)
    requires Pow2(k + m) == U64
    ensures Shl64(b, k) == Low(b, m) * Pow2(k)
  {
    Pow2Add(k, m);
    ShrLow(b, m);
    Products(Shr(b, m), Pow2(m), Low(b, m), Pow2(k));
    DivUnique(b * Pow2(k), 0x1_0000_0000_0000_0000, Shr(b, m), Low(b, m) * Pow2(k));
  }

  lemma Products(hi: nat, pm: nat, lo: nat, pk: nat)
    requires lo < pm && pk > 0
    ensures (hi * pm + lo) * pk == hi * (pk * pm) + lo * pk
    ensures lo * pk < pk * pm
  {
    assert lo * pk <= (pm - 1) * pk;
  }

  // An aligned address reads as an ordinary sum: page base plus offset.
  lemma AddressInIsSum(pa: u64, va: nat)
    ensures AddressIn(pa / 4096, va) == pa - pa % 4096 + va % 4096
  {
    OffsetIsRemainder(va);
    PageBase(pa, pa / 4096);
    OrPage(pa / 4096, va % 4096);
  }

  lemma OffsetIsRemainder(va: nat)
    ensures And(va, 0xFFF) == va % 4096
  {
    Pow2Values();
    AndMask(va, 12);
    ShrIsDiv(va, 12);
  }

  lemma OrPage(ppn: nat, offset: nat)
    requires offset < 4096
    ensures Or(ppn * 4096, offset) == ppn * 4096 + offset
  {
    Pow2Values();
    OrAdds(ppn, offset, 12);
  }

  lemma PageBase(pa: u64, ppn: nat)
    requires ppn == pa / 4096
    ensures Shl64(ppn, 12) == ppn * 4096
  {
    Pow2Values();
  }

  // The leaf for a gigabyte-aligned pa, at any level: the physical base and the offset.
  lemma LeafAddressIs(pa: u64, q: nat, flags: u64, va: nat, level: nat)
    requires pa == q * 0x4000_0000 && flags < 1024 && level <= 2
    ensures LeafAddress(LeafPte(pa, flags), va, level) == pa + And(va, Pow2(12 + level * 9) - 1)
  {
    LeafFacts(pa, flags);
    LeafPpnIsPage(pa, flags);
    PageBase(pa, pa / 4096);
    GigabytePage(pa, q);
    OrGigabyte(q, va, 12 + level * 9);
  }

  lemma GigabytePage(pa: nat, q: nat)
    requires pa == q * 0x4000_0000
    ensures pa / 4096 * 4096 == pa
  {
    assert pa == 4096 * (q * 0x4_0000);
  }

  lemma OrGigabyte(q: nat, va: nat, k: nat)
    requires k <= 30
    ensures Or(q * 0x4000_0000, And(va, Pow2(k) - 1)) == q * 0x4000_0000 + And(va, Pow2(k) - 1)
  {
    Pow2Values();
    AndMask(va, k);
    ShrLow(va, k);
    Pow2Monotone(k, 30);
    OrAdds(q, And(va, Pow2(k) - 1), 30);
  }
}
