/** Calls outside their guards: what they do to the translation of every address,
    and from that exactly when map_page does what it promises. */
module Sv39Stray {
  import opened Bits
  import opened Sv39Bits
  import opened Sv39Model
  import opened Sv39Tree
  import opened Sv39Theorems

  // ---------- one entry overwritten ----------

  /** On the nodes of t, t' differs in the one entry i of node p, which is e in t'. */
  ghost predicate Overwritten(t: Table, t': Table, p: u64, i: nat, e: nat)
    requires i < PT_ENTRIES
  {
    && t'.root == t.root
    && (forall q: u64, j: nat :: q in t.nodes && j < PT_ENTRIES ==>
          t'.Entry(q, j) == if q == p && j == i then e else t.Entry(q, j))
  }

  function LevelOf(r: Role): (level: nat)
    ensures level <= 2
  {
    match r
    case Root => 2
    case Level1(_) => 1
    case Level0(_, _) => 0
  }

  /** Does the walk for x read entry i of the node that has role r? A superpage hides
      the level-0 node of its region. */
  predicate Reads(t: Table, r: Role, i: nat, x: u64) {
    match r
    case Root => ExtractVpn(x, 2) == i
    case Level1(w2) => ExtractVpn(x, 2) == w2 && ExtractVpn(x, 1) == i
    case Level0(w2, w1) =>
      ExtractVpn(x, 2) == w2 && ExtractVpn(x, 1) == w1 && ExtractVpn(x, 0) == i && !SuperpageAt(t, x)
  }

  /** How a walk goes on from an entry found at `level`. */
  function Resume(t: Table, e: nat, x: u64, level: nat): TranslateResult
    requires level <= 2
  {
    if !IsValid(e) then PageFault
    else if IsLeaf(e) then Ok(LeafAddress(e, x, level))
    else if level == 0 then PageFault
    else WalkFrom(t, Ppn(e), x, level - 1)
  }

  lemma WalkIsResume(t: Table, ppn: nat, x: u64, level: nat)
    requires level <= 2
    ensures WalkFrom(t, ppn, x, level) == Resume(t, t.Entry(ppn, ExtractVpn(x, level)), x, level)
  {
  }

  // Overwriting one entry of any node changes exactly the translations that read it.
  lemma EntryOverwritten(t: Table, t': Table, tree: Tree, r: Role, i: nat, e: nat, x: u64)
    requires Inv(t, tree) && r in tree && i < PT_ENTRIES && Overwritten(t, t', tree[r], i, e)
    ensures Translate(t', x) == if Reads(t, r, i, x) then Resume(t', e, x, LevelOf(r)) else Translate(t, x)
  {
    var v2, v1 := ExtractVpn(x, 2), ExtractVpn(x, 1);
    PathOk(t, tree, v2, v1);
    WalkIsResume(t, t.root, x, 2);
    WalkIsResume(t', t.root, x, 2);
    if !(r == Root && v2 == i) && Level1(v2) in tree {
      Level1Overwritten(t, t', tree, r, i, e, x);
    }
  }

  lemma Level1Overwritten(t: Table, t': Table, tree: Tree, r: Role, i: nat, e: nat, x: u64)
    requires Inv(t, tree) && r in tree && i < PT_ENTRIES && Overwritten(t, t', tree[r], i, e)
    requires Level1(ExtractVpn(x, 2)) in tree && !(r == Root && ExtractVpn(x, 2) == i)
    ensures var p1 := tree[Level1(ExtractVpn(x, 2))];
            WalkFrom(t', p1, x, 1)
            == if Reads(t, r, i, x) then Resume(t', e, x, LevelOf(r)) else WalkFrom(t, p1, x, 1)
  {
    var v2, v1 := ExtractVpn(x, 2), ExtractVpn(x, 1);
    PathOk(t, tree, v2, v1);
    var p1 := tree[Level1(v2)];
    WalkIsResume(t, p1, x, 1);
    WalkIsResume(t', p1, x, 1);
    if !(r == Level1(v2) && v1 == i) && !SuperpageAt(t, x) && Level0(v2, v1) in tree {
      WalkIsResume(t, tree[Level0(v2, v1)], x, 0);
      WalkIsResume(t', tree[Level0(v2, v1)], x, 0);
    }
  }

  // ---------- map_page under a superpage ----------

  /** The page number of the superpage that covers va. */
  function FrameAt(t: Table, va: u64): nat {
    Ppn(t.Entry(Ppn(t.Entry(t.root, ExtractVpn(va, 2))), ExtractVpn(va, 1)))
  }

  // Under a superpage map_page takes the leaf for a pointer. It panics exactly
  // when the superpage's frame is not also the number of a table node.
  lemma MapPageUnderSuperpage(t: Table, tree: Tree, va: u64, pa: u64, flags: u64)
    requires Inv(t, tree) && SuperpageAt(t, va)
    ensures var frame, o := FrameAt(t, va), MapPage(t, va, pa, flags);
            && (o.panicked <==> !(frame < U64 && frame in t.nodes))
            && (o.panicked ==> o.table == t)
            && (!o.panicked ==> o.table == t.Write(frame, ExtractVpn(va, 0), LeafPte(pa, flags)))
  {
    var v2, v1 := ExtractVpn(va, 2), ExtractVpn(va, 1);
    PathOk(t, tree, v2, v1);
    var p1 := tree[Level1(v2)];
    assert MapPage(t, va, pa, flags) == MapFrom(t, p1, va, pa, flags, 1);
    var e1 := t.Entry(p1, v1);
    assert MapFrom(t, p1, va, pa, flags, 1) == MapFrom(t, Ppn(e1), va, pa, flags, 0);
  }

  /** The translation of x after a leaf has gone into entry VPN[0] of the node with
      role r. */
  function AfterStrayWrite(t: Table, r: Role, va: u64, pa: u64, flags: u64, x: u64): TranslateResult {
    if Reads(t, r, ExtractVpn(va, 0), x) then Ok(LeafAddress(LeafPte(pa, flags), x, LevelOf(r)))
    else Translate(t, x)
  }

  // If it does not panic, the frame is a node with some role, and the leaf lands in
  // entry VPN[0] of it: whatever reads that entry now ends there, at the level of
  // the node, and no other translation changes.
  lemma StrayWriteDamage(t: Table, tree: Tree, va: u64, pa: u64, flags: u64, r: Role)
    requires Inv(t, tree) && SuperpageAt(t, va) && HasRwx(flags)
    requires r in tree && tree[r] == FrameAt(t, va)
    ensures !MapPage(t, va, pa, flags).panicked
    ensures forall x: u64 ::
              Translate(MapPage(t, va, pa, flags).table, x) == AfterStrayWrite(t, r, va, pa, flags, x)
  {
    var v0, e, t' := ExtractVpn(va, 0), LeafPte(pa, flags), MapPage(t, va, pa, flags).table;
    MapPageUnderSuperpage(t, tree, va, pa, flags);
    LeafFacts(pa, flags);
    assert Overwritten(t, t', tree[r], v0, e);
    forall x: u64 ensures Translate(t', x) == AfterStrayWrite(t, r, va, pa, flags, x) {
      EntryOverwritten(t, t', tree, r, v0, e, x);
    }
  }

  // ---------- exactly when map_page keeps its promise ----------

  /** t' maps the page of va to pa, and translates every other address like t. */
  predicate MapsAt(t: Table, t': Table, va: u64, pa: u64, flags: u64, x: u64) {
    Translate(t', x) == if PageOf(x) == PageOf(va) then Ok(AddressIn(LeafPpn(pa, flags), x)) else Translate(t, x)
  }

  /** map_page completes, maps its own page to pa, and changes no other translation. */
  ghost predicate Meets(t: Table, va: u64, pa: u64, flags: u64) {
    var o := MapPage(t, va, pa, flags);
    !o.panicked && forall x: u64 :: MapsAt(t, o.table, va, pa, flags, x)
  }

  // A leaf keeps the promise for every physical address exactly when no superpage
  // covers the page.
  lemma MapPageMeetsIff(t: Table, tree: Tree, va: u64, flags: u64)
    requires Inv(t, tree) && HasRwx(flags) && flags < 1024
    ensures (forall pa: u64 :: Meets(t, va, pa, flags)) <==> !SuperpageAt(t, va)
  {
    if !SuperpageAt(t, va) {
      forall pa: u64 ensures Meets(t, va, pa, flags) {
        MeetsOutside(t, tree, va, pa, flags);
      }
    } else if forall pa: u64 :: Meets(t, va, pa, flags) {
      var pa: u64 := 0x100_0000_0000;
      assert Meets(t, va, 0, flags) && Meets(t, va, pa, flags);
      NotBoth(t, tree, va, 0, 0, pa, 0x400, flags);
    }
  }

  lemma MeetsOutside(t: Table, tree: Tree, va: u64, pa: u64, flags: u64)
    requires Inv(t, tree) && HasRwx(flags) && !SuperpageAt(t, va)
    ensures Meets(t, va, pa, flags)
  {
    var flat := Denote(t);
    var tree' := MapPageAgrees(t, tree, flat, va, pa, flags);
    TranslateAgrees(t, tree, flat);
    TranslateAgrees(MapPage(t, va, pa, flags).table, tree', FlatMapPage(flat, va, pa, flags));
  }

  // Under a superpage the promise fails for one of any two gigabyte-aligned
  // addresses: if the stray write lands on the path of va it also moves the page
  // beside it, and otherwise it leaves va where it was.
  lemma NotBoth(t: Table, tree: Tree, va: u64, pa: u64, q: nat, pb: u64, s: nat, flags: u64)
    requires Inv(t, tree) && SuperpageAt(t, va) && HasRwx(flags) && flags < 1024
    requires pa == q * 0x4000_0000 && pb == s * 0x4000_0000 && pa != pb
    ensures !(Meets(t, va, pa, flags) && Meets(t, va, pb, flags))
  {
    if Meets(t, va, pa, flags) && Meets(t, va, pb, flags) {
      MapPageUnderSuperpage(t, tree, va, pa, flags);
      var r := NodeHasRole(t, tree, FrameAt(t, va));
      var z := NeighbourPage(va);
      StrayWriteDamage(t, tree, va, pa, flags, r);
      StrayWriteDamage(t, tree, va, pb, flags, r);
      StrayAnswers(t, MapPage(t, va, pa, flags).table, va, pa, q, flags, r, z);
      StrayAnswers(t, MapPage(t, va, pb, flags).table, va, pb, s, flags, r, z);
    }
  }

  // Both descriptions of the table t' together fix one translation of the table t.
  lemma StrayAnswers(t: Table, t': Table, va: u64, pa: u64, q: nat, flags: u64, r: Role, z: u64)
    requires SuperpageAt(t, va) && pa == q * 0x4000_0000 && flags < 1024
    requires PageOf(z) != PageOf(va) && ExtractVpn(z, 2) == ExtractVpn(va, 2) && ExtractVpn(z, 1) == ExtractVpn(va, 1)
    requires Translate(t', va) == AfterStrayWrite(t, r, va, pa, flags, va) && MapsAt(t, t', va, pa, flags, va)
    requires Translate(t', z) == AfterStrayWrite(t, r, va, pa, flags, z) && MapsAt(t, t', va, pa, flags, z)
    ensures if Reads(t, r, ExtractVpn(va, 0), va)
            then Translate(t, z) == Ok(pa + And(z, Pow2(12 + LevelOf(r) * 9) - 1))
            else Translate(t, va) == Ok(pa + va % 4096)
  {
    if Reads(t, r, ExtractVpn(va, 0), va) {
      LeafAddressIs(pa, q, flags, z, LevelOf(r));
    } else {
      PageAddressIs(pa, q, flags, va);
    }
  }

  lemma PageAddressIs(pa: u64, q: nat, flags: u64, va: u64)
    requires pa == q * 0x4000_0000 && flags < 1024
    ensures AddressIn(LeafPpn(pa, flags), va) == pa + va % 4096
  {
    LeafPpnIsPage(pa, flags);
    AddressInIsSum(pa, va);
    GigabytePage(pa, q);
  }

  // Another page of the same 2 MB region.
  lemma NeighbourPage(va: u64) returns (z: u64)
    ensures PageOf(z) != PageOf(va)
    ensures ExtractVpn(z, 2) == ExtractVpn(va, 2) && ExtractVpn(z, 1) == ExtractVpn(va, 1)
  {
    var n := va / 4096;
    z := if n % 2 == 0 then va + 4096 else va - 4096;
    VpnsOfPage(va);
    VpnsOfPage(z);
    assert z / 4096 == if n % 2 == 0 then n + 1 else n - 1;
    SamePair(n, z / 4096);
    PageSplit(PageOf(va), PageOf(z));
  }

  lemma SamePair(n: nat, m: nat)
    requires n / 2 == m / 2 && n != m
    ensures (n % PAGES) / 512 == (m % PAGES) / 512 && n % PAGES != m % PAGES
  {
    PageOfPair(n / 2, n % 2, n);
    PageOfPair(m / 2, m % 2, m);
  }

  lemma PageOfPair(b: nat, e: nat, n: nat)
    requires e < 2 && n == 2 * b + e
    ensures n % PAGES == 2 * (b % 0x400_0000) + e && (n % PAGES) / 512 == (b % 0x400_0000) / 256
  {
    var hi, lo := b / 0x400_0000, b % 0x400_0000;
    DivUnique(n, 0x800_0000, hi, 2 * lo + e);
    PairIn512(lo, e);
  }

  lemma PairIn512(lo: nat, e: nat)
    requires e < 2
    ensures (2 * lo + e) / 512 == lo / 256
  {
    DivUnique(2 * lo + e, 512, lo / 256, 2 * (lo % 256) + e);
  }

  // The frame of the root (PA 0x8000_0000) mapped as a superpage, the first call on
  // a new table: a later map_page inside that region writes into the root. The page
  // keeps its old translation, and a gigabyte that was unmapped becomes mapped.
  lemma MapPageThroughRoot(va: u64, spa: u64, flags: u64, x: u64, pa: u64, xflags: u64, y: u64)
    requires SuperpageRequest(va, spa, flags) && flags < 1024 && spa / 4096 == ROOT_PPN
    requires ExtractVpn(x, 2) == ExtractVpn(va, 2) && ExtractVpn(x, 1) == ExtractVpn(va, 1)
    requires ExtractVpn(x, 0) != ExtractVpn(x, 2) && HasRwx(xflags)
    requires ExtractVpn(y, 2) == ExtractVpn(x, 0)
    ensures var t := MapSuperpage(New(), va, spa, flags).table;
            var o := MapPage(t, x, pa, xflags);
            && !o.panicked && Translate(o.table, x) == Translate(t, x)
            && Translate(t, y) == PageFault
            && Translate(o.table, y) == Ok(LeafAddress(LeafPte(pa, xflags), y, 2))
  {
    NewInv();
    var tree := SuperpageWalks(New(), map[Root := ROOT_PPN], va, spa, flags);
    var t := MapSuperpage(New(), va, spa, flags).table;
    LeafPpnIsPage(spa, flags);
    assert RootEntryOk(t, tree, ExtractVpn(y, 2));
    assert PageWalk(t, ExtractVpn(x, 2), ExtractVpn(x, 1), 0) == Mega(t.root);
    StrayWriteDamage(t, tree, x, pa, xflags, Root);
  }

  // ---------- the stray link of map_superpage ----------

  /** What a translation gives when it runs into the stray pointer at `level`. At
      level 1 the new node stands in for a level-0 node and its leaf for a 4 KB page. */
  function ThroughStrayLink(level: nat, va: u64, pa: u64, flags: u64, x: u64): TranslateResult {
    if level == 1 && ExtractVpn(x, 0) == ExtractVpn(va, 1) then Ok(AddressIn(LeafPpn(pa, flags), x))
    else PageFault
  }

  // The node allocated last has a role other than the root's, and its entry VPN[2]
  // becomes a pointer: the translations that read it change, and no others.
  lemma StrayLinkDamage(t: Table, tree: Tree, va: u64, pa: u64, flags: u64) returns (r: Role)
    requires Inv(t, tree) && SuperpageRequest(va, pa, flags) && !LinksToRoot(t, va)
    ensures r in tree && r != Root && tree[r] == t.next - 1
    ensures !MapSuperpage(t, va, pa, flags).panicked
    ensures forall x: u64 ::
              Translate(MapSuperpage(t, va, pa, flags).table, x)
              == if Reads(t, r, ExtractVpn(va, 2), x) then ThroughStrayLink(LevelOf(r), va, pa, flags, x)
                 else Translate(t, x)
  {
    var t', i := MapSuperpage(t, va, pa, flags).table, ExtractVpn(va, 2);
    StraySuperpageForm(t, tree, va, pa, flags);
    r := NodeHasRole(t, tree, t.next - 1);
    PointerFacts(t.next);
    assert Overwritten(t, t', tree[r], i, PointerPte(t.next));
    forall x: u64
      ensures Translate(t', x)
           == if Reads(t, r, i, x) then ThroughStrayLink(LevelOf(r), va, pa, flags, x) else Translate(t, x)
    {
      EntryOverwritten(t, t', tree, r, i, PointerPte(t.next), x);
      LeafFacts(pa, flags);
      WalkIsResume(t', t.next, x, 0);
      PageAddress(x, LeafPte(pa, flags));
    }
  }

  function OnePageTree(v2: nat, v1: nat): Tree {
    map[Root := ROOT_PPN, Level1(v2) := ROOT_PPN + 1, Level0(v2, v1) := ROOT_PPN + 2]
  }

  // The first map_page call allocates one node per level below the root.
  lemma FirstPageTree(t: Table, va: u64)
    requires Inv(t, map[Root := ROOT_PPN])
    ensures WithPath(t, map[Root := ROOT_PPN], va) == OnePageTree(ExtractVpn(va, 2), ExtractVpn(va, 1))
  {
    var tree: Tree := map[Root := ROOT_PPN];
    assert |tree| == 1;
  }

  lemma OnePage(va: u64, pa: u64, flags: u64)
    requires HasRwx(flags)
    ensures var t := MapPage(New(), va, pa, flags).table;
            && Inv(t, OnePageTree(ExtractVpn(va, 2), ExtractVpn(va, 1))) && !SuperpageAt(t, va)
            && Translate(t, va) == Ok(AddressIn(LeafPpn(pa, flags), va))
  {
    var tree := OnePageTree(ExtractVpn(va, 2), ExtractVpn(va, 1));
    NewInv();
    MapPageWalks(New(), map[Root := ROOT_PPN], va, pa, flags);
    FirstPageTree(New(), va);
    VpnsOfPage(va);
    TranslateIsPageWalk(MapPage(New(), va, pa, flags).table, tree, va);
  }

  // A superpage in another gigabyte than the only 4 KB page mapped so far is lost,
  // and takes the page with it exactly when VPN[0] of the page is VPN[2] of the
  // superpage.
  lemma StraySuperpage(va: u64, pa: u64, flags: u64, sva: u64, spa: u64, sflags: u64)
    requires HasRwx(flags) && SuperpageRequest(sva, spa, sflags)
    requires ExtractVpn(sva, 2) != ExtractVpn(va, 2)
    ensures var t := MapPage(New(), va, pa, flags).table;
            var o := MapSuperpage(t, sva, spa, sflags);
            && Translate(t, va) == Ok(AddressIn(LeafPpn(pa, flags), va))
            && !o.panicked && Translate(o.table, sva) == PageFault
            && Translate(o.table, va)
               == if ExtractVpn(va, 0) == ExtractVpn(sva, 2) then PageFault else Translate(t, va)
  {
    OnePage(va, pa, flags);
    StrayAfterOnePage(MapPage(New(), va, pa, flags).table, va, sva, spa, sflags);
  }

  lemma StrayAfterOnePage(t: Table, va: u64, sva: u64, spa: u64, sflags: u64)
    requires Inv(t, OnePageTree(ExtractVpn(va, 2), ExtractVpn(va, 1))) && !SuperpageAt(t, va)
    requires SuperpageRequest(sva, spa, sflags) && ExtractVpn(sva, 2) != ExtractVpn(va, 2)
    ensures var o := MapSuperpage(t, sva, spa, sflags);
            && !o.panicked && Translate(o.table, sva) == PageFault
            && Translate(o.table, va)
               == if ExtractVpn(va, 0) == ExtractVpn(sva, 2) then PageFault else Translate(t, va)
  {
    var tree := OnePageTree(ExtractVpn(va, 2), ExtractVpn(va, 1));
    assert RootEntryOk(t, tree, ExtractVpn(sva, 2));
    assert |tree| == 3 && !LinksToRoot(t, sva);
    StraySuperpageFaults(t, tree, sva, spa, sflags, sva);
    var r := StrayLinkDamage(t, tree, sva, spa, sflags);
    assert r == Level0(ExtractVpn(va, 2), ExtractVpn(va, 1));
  }
}
