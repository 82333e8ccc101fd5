/** What the page table promises in plain numbers: addresses, sizes and page numbers. */
module Sv39Numbers {
  import opened Bits
  import opened Sv39Bits
  import opened Sv39Model
  import opened Sv39Tree
  import opened Sv39Theorems

  // ---------- the address in a leaf ----------

  /** How much address space a leaf at this level covers. */
  function LeafSize(level: nat): nat
    requires level <= 2
  {
    if level == 0 then 0x1000 else if level == 1 then 0x20_0000 else 0x4000_0000
  }

  lemma LevelMask(va: nat, level: nat)
    requires level <= 2
    ensures And(va, Pow2(12 + level * 9) - 1) == va % LeafSize(level)
    ensures Pow2(12 + level * 9) == LeafSize(level)
  {
    Pow2Values();
    MaskIsMod(va, 12 + level * 9, LeafSize(level));
  }

  // Found at any level, a leaf gives its page number times 4096, or-ed with the offset of
  // the address in the area the leaf covers; for an aligned leaf that is the sum.
  lemma LeafAddressMeans(e: nat, va: nat, level: nat)
    requires level <= 2
    ensures LeafAddress(e, va, level) == Or((Ppn(e) % 0x10_0000_0000_0000) * 4096, va % LeafSize(level))
    ensures (Ppn(e) % 0x10_0000_0000_0000) * 4096 % LeafSize(level) == 0 ==>
              LeafAddress(e, va, level) == (Ppn(e) % 0x10_0000_0000_0000) * 4096 + va % LeafSize(level)
  {
    LevelMask(va, level);
    PageTimes(Ppn(e));
    var base := (Ppn(e) % 0x10_0000_0000_0000) * 4096;
    if base % LeafSize(level) == 0 {
      Exact(base, LeafSize(level));
      OrAdds(base / LeafSize(level), va % LeafSize(level), 12 + level * 9);
    }
  }

  lemma PageTimes(ppn: nat)
    ensures Shl64(ppn, 12) == (ppn % 0x10_0000_0000_0000) * 4096
  {
    Pow2Values();
    var hi, lo := ppn / 0x10_0000_0000_0000, ppn % 0x10_0000_0000_0000;
    DivUnique(ppn * 4096, 0x1_0000_0000_0000_0000, hi, lo * 4096);
  }

  lemma Exact(x: nat, d: nat)
    requires d > 0 && x % d == 0
    ensures x == x / d * d
  {
  }

  // ---------- translation, for any table whatsoever ----------

  /** The three indices of an address, as fields of the number. */
  function Index(va: nat, level: nat): (i: nat)
    requires level <= 2
    ensures i < 512
  {
    (va / LeafSize(level)) % 512
  }

  predicate ValidEntry(e: nat) {
    e % 2 == 1
  }

  /** translate, written out level by level: bit 0 is the valid bit, bits 1 to 3 make a leaf,
      and the page number starts at bit 10. A node that does not exist has no valid entry. */
  function TranslateWrittenOut(t: Table, va: u64): TranslateResult {
    var e2 := t.Entry(t.root, Index(va, 2));
    if !ValidEntry(e2) then PageFault
    else if HasRwx(e2) then Ok(LeafAddress(e2, va, 2))
    else
      var e1 := t.Entry(e2 / 1024, Index(va, 1));
      if !ValidEntry(e1) then PageFault
      else if HasRwx(e1) then Ok(LeafAddress(e1, va, 1))
      else
        var e0 := t.Entry(e1 / 1024, Index(va, 0));
        if ValidEntry(e0) && HasRwx(e0) then Ok(LeafAddress(e0, va, 0)) else PageFault
  }

  lemma IndexIsVpn(va: nat, level: nat)
    requires level <= 2
    ensures ExtractVpn(va, level) == Index(va, level)
  {
    LevelMask(va, level);
    VpnIsField(va, level);
  }

  lemma TranslateMeans(t: Table, va: u64)
    ensures Translate(t, va) == TranslateWrittenOut(t, va)
  {
    var n: nat := 2;
    WalkMeans(t, t.root, va, n);
  }

  lemma LevelZeroMeans(t: Table, ppn: nat, va: u64, level: nat)
    requires level == 0
    ensures WalkFrom(t, ppn, va, level)
         == (var e := t.Entry(ppn, Index(va, 0));
             if ValidEntry(e) && HasRwx(e) then Ok(LeafAddress(e, va, 0)) else PageFault)
  {
    IndexIsVpn(va, level);
    EntryBits(t.Entry(ppn, Index(va, 0)));
  }

  lemma LevelMeans(t: Table, ppn: nat, va: u64, level: nat)
    requires 1 <= level <= 2
    ensures WalkFrom(t, ppn, va, level)
         == (var e := t.Entry(ppn, Index(va, level));
             if !ValidEntry(e) then PageFault
             else if HasRwx(e) then Ok(LeafAddress(e, va, level))
             else WalkFrom(t, e / 1024, va, level - 1))
  {
    IndexIsVpn(va, level);
    EntryBits(t.Entry(ppn, Index(va, level)));
    EntryBits(0);
  }

  lemma WalkMeans(t: Table, ppn: nat, va: u64, level: nat)
    requires level == 2 && ppn == t.root
    ensures WalkFrom(t, ppn, va, level) == TranslateWrittenOut(t, va)
  {
    LevelMeans(t, ppn, va, level);
    var e2 := t.Entry(ppn, Index(va, level));
    if ValidEntry(e2) && !HasRwx(e2) {
      LevelMeans(t, e2 / 1024, va, level - 1);
      var e1 := t.Entry(e2 / 1024, Index(va, level - 1));
      if ValidEntry(e1) && !HasRwx(e1) {
        LevelZeroMeans(t, e1 / 1024, va, level - 2);
      }
    }
  }

  // ---------- the calls ----------

  // A new table is the one empty root node, and translates nothing.
  lemma NewIsEmpty(x: u64)
    ensures New().root == 0x8_0000 && New().next == 0x8_0001 && New().nodes.Keys == {0x8_0000}
    ensures forall i :: 0 <= i < 512 ==> New().Entry(0x8_0000, i) == 0
    ensures Translate(New(), x) == PageFault
  {
  }

  // Where no superpage is, map_page maps the 4096 bytes of its page to those of the
  // physical page; without permissions it unmaps them. No other address is affected.
  lemma MapPageTranslates(t: Table, tree: Tree, va: u64, pa: u64, flags: u64, x: u64)
    requires Inv(t, tree) && !SuperpageAt(t, va)
    ensures var t' := MapPage(t, va, pa, flags).table;
            if (x / 4096) % 0x800_0000 != (va / 4096) % 0x800_0000 then Translate(t', x) == Translate(t, x)
            else if (flags / 2) % 8 == 0 then Translate(t', x) == PageFault
            else flags < 1024 ==> Translate(t', x) == Ok(pa - pa % 4096 + x % 4096)
  {
    var flat := Denote(t);
    var tree' := MapPageAgrees(t, tree, flat, va, pa, flags);
    TranslateAgrees(t, tree, flat);
    TranslateAgrees(MapPage(t, va, pa, flags).table, tree', FlatMapPage(flat, va, pa, flags));
    FlatPageTranslates(flat, va, pa, flags, x);
  }

  lemma FlatPageTranslates(flat: Flat, va: u64, pa: u64, flags: u64, x: u64)
    ensures var flat' := FlatMapPage(flat, va, pa, flags);
            if (x / 4096) % 0x800_0000 != (va / 4096) % 0x800_0000 then
              FlatTranslate(flat', x) == FlatTranslate(flat, x)
            else if (flags / 2) % 8 == 0 then FlatTranslate(flat', x) == PageFault
            else flags < 1024 ==> FlatTranslate(flat', x) == Ok(pa - pa % 4096 + x % 4096)
  {
    if flags < 1024 {
      LeafPpnIsPage(pa, flags);
      AddressInIsSum(pa, x);
    }
  }

  // map_superpage panics exactly on addresses that are not multiples of 2 MB, and then
  // leaves the table alone, whatever the flags.
  lemma SuperpagePanicsIff(t: Table, tree: Tree, va: u64, pa: u64, flags: u64)
    requires Inv(t, tree)
    ensures var o := MapSuperpage(t, va, pa, flags);
            && (o.panicked <==> va % 0x20_0000 != 0 || pa % 0x20_0000 != 0)
            && (o.panicked ==> o.table == t)
  {
    if MegaAligned(va) && MegaAligned(pa) {
      if Level1(ExtractVpn(va, 2)) in tree {
        SuperpageOnExisting(t, tree, va, pa, flags);
      } else {
        SuperpageOnFresh(t, tree, va, pa, flags);
      }
    }
  }

  lemma SuperpageOnFresh(t: Table, tree: Tree, va: u64, pa: u64, flags: u64)
    requires Inv(t, tree) && MegaAligned(va) && MegaAligned(pa) && Level1(ExtractVpn(va, 2)) !in tree
    ensures !MapSuperpage(t, va, pa, flags).panicked
  {
    TreeSize(t, tree);
    assert RootEntryOk(t, tree, ExtractVpn(va, 2));
    assert (t.next + U64 - 1) % U64 == t.next - 1;
    assert t.next - 1 in t.nodes;
  }

  // map_superpage, linked to the root, maps the 2 MB from va to the 2 MB from pa, and no
  // other address is affected.
  lemma MapSuperpageTranslates(t: Table, tree: Tree, va: u64, pa: u64, flags: u64, x: u64)
    requires Inv(t, tree) && SuperpageRequest(va, pa, flags) && LinksToRoot(t, va) && flags < 1024
    ensures Translate(MapSuperpage(t, va, pa, flags).table, x)
         == if (x / 0x20_0000) % 0x4_0000 == (va / 0x20_0000) % 0x4_0000 then Ok(pa + x % 0x20_0000)
            else Translate(t, x)
  {
    var flat := Denote(t);
    var tree' := SuperpageAgrees(t, tree, flat, va, pa, flags);
    TranslateAgrees(t, tree, flat);
    TranslateAgrees(MapSuperpage(t, va, pa, flags).table, tree', FlatMapSuperpage(flat, va, pa, flags));
    RegionOfAddress(x);
    RegionOfAddress(va);
    LeafPpnIsPage(pa, flags);
    InsideSuperpage(pa, x);
  }

  lemma RegionOfAddress(x: nat)
    ensures PageOf(x) / 512 == (x / 0x20_0000) % 0x4_0000
  {
    var m := x / 0x20_0000;
    var hi, lo := m / 0x4_0000, m % 0x4_0000;
    var v := (x / 4096) % 512;
    assert x / 4096 == 512 * m + v;
    DivUnique(x / 4096, PAGES, hi, 512 * lo + v);
  }

  lemma InsideSuperpage(pa: u64, x: u64)
    requires pa % 0x20_0000 == 0
    ensures AddressIn(Or(pa / 4096, PageOf(x) % 512), x) == pa + x % 0x20_0000
  {
    var m, v := pa / 0x20_0000, PageOf(x) % 512;
    LowNine(x);
    PageBytes(m, v);
    assert pa / 4096 == m * 512;
    var page: u64 := pa + v * 4096;
    assert page / 4096 == m * 512 + v && page % 4096 == 0;
    AddressInIsSum(page, x);
  }

  lemma LowNine(x: nat)
    ensures x % 0x20_0000 == (PageOf(x) % 512) * 4096 + x % 4096
  {
    var q := x / 4096;
    assert (q % PAGES) % 512 == q % 512;
  }

  lemma PageBytes(m: nat, v: nat)
    requires v < 512
    ensures Or(m * 512, v) == m * 512 + v
  {
    FieldPowers();
    OrAdds(m, v, 9);
  }
}
