/** The page table refines a flat map from virtual to physical page numbers in
    which the last write wins. */
module Sv39Theorems {
  import opened Bits
  import opened Sv39Bits
  import opened Sv39Model
  import opened Sv39Tree
  import opened Wrappers

  // ---------- the flat specification ----------

  type Flat = map<nat, nat>

  function FlatTranslate(flat: Flat, va: u64): TranslateResult {
    if PageOf(va) in flat then Ok(AddressIn(flat[PageOf(va)], va)) else PageFault
  }

  /** A page mapped without R, W and X cannot be translated: it is unmapped. */
  function FlatMapPage(flat: Flat, va: u64, pa: u64, flags: u64): Flat {
    if HasRwx(flags) then flat[PageOf(va) := LeafPpn(pa, flags)]
    else flat - {PageOf(va)}
  }

  /** A superpage maps the 512 pages of its region. */
  function FlatMapSuperpage(flat: Flat, va: u64, pa: u64, flags: u64): Flat {
    flat + RegionMap(PageOf(va), LeafPpn(pa, flags), 512)
  }

  /** The first n pages of the region of page `base`. */
  function RegionMap(base: nat, ppn: nat, n: nat): Flat {
    map v: nat | v < PAGES && SameRegion(v, base) && v % 512 < n :: Or(ppn, v % 512)
  }

  predicate SameRegion(v: nat, w: nat) {
    v / 512 == w / 512
  }

  // ---------- agreement of a table with a flat map ----------

  function PageWalkOf(t: Table, v: nat): Option<nat>
    requires v < PAGES
  {
    PageWalk(t, v / 0x4_0000, (v / 512) % 512, v % 512).Resolve()
  }

  function Lookup(flat: Flat, v: nat): Option<nat> {
    if v in flat then Some(flat[v]) else None
  }

  ghost predicate Agrees(t: Table, flat: Flat) {
    forall v: nat :: v < PAGES ==> PageWalkOf(t, v) == Lookup(flat, v)
  }

  /** Does a superpage leaf cover this address? */
  predicate SuperpageAt(t: Table, va: u64) {
    Superpaged(t, ExtractVpn(va, 2), ExtractVpn(va, 1))
  }

  // The translation of every 64-bit address is the page walk of bits 38 to 12
  // with the page offset passed through.
  lemma TranslateIsPageWalk(t: Table, tree: Tree, va: u64)
    requires Inv(t, tree)
    ensures Translate(t, va) == WalkAddress(t, va)
  {
    PathOk(t, tree, ExtractVpn(va, 2), ExtractVpn(va, 1));
    TranslateIsWalk(t, va);
  }

  function WalkAddress(t: Table, va: u64): TranslateResult {
    match PageWalkOf(t, PageOf(va))
    case None => PageFault
    case Some(p) => Ok(AddressIn(p, va))
  }

  // The same for any table at all in which the root entry on the path is no leaf.
  lemma TranslateIsWalk(t: Table, va: u64)
    requires var e2 := t.Entry(t.root, ExtractVpn(va, 2)); IsValid(e2) ==> !IsLeaf(e2)
    ensures Translate(t, va) == WalkAddress(t, va)
  {
    var v2, v1, v0 := ExtractVpn(va, 2), ExtractVpn(va, 1), ExtractVpn(va, 0);
    VpnsOfPage(va);
    var e2 := t.Entry(t.root, v2);
    if IsValid(e2) {
      assert Translate(t, va) == WalkFrom(t, Ppn(e2), va, 1);
      var e1 := t.Entry(Ppn(e2), v1);
      if IsValid(e1) && IsLeaf(e1) {
        SuperpageAddress(va, e1);
      } else if IsValid(e1) {
        assert WalkFrom(t, Ppn(e2), va, 1) == WalkFrom(t, Ppn(e1), va, 0);
        PageAddress(va, t.Entry(Ppn(e1), v0));
      }
    }
  }

  lemma TranslateAgrees(t: Table, tree: Tree, flat: Flat)
    requires Inv(t, tree) && Agrees(t, flat)
    ensures forall va: u64 :: Translate(t, va) == FlatTranslate(flat, va)
  {
    forall va: u64 ensures Translate(t, va) == FlatTranslate(flat, va) {
      TranslateIsPageWalk(t, tree, va);
      assert PageWalkOf(t, PageOf(va)) == Lookup(flat, PageOf(va));
    }
  }

  // ---------- map_page ----------

  function PathRoles(va: u64): set<Role> {
    {Level1(ExtractVpn(va, 2)), Level0(ExtractVpn(va, 2), ExtractVpn(va, 1))}
  }

  /** A role is given to a new node unless some node has it already. */
  function WithRole(tree: Tree, r: Role, next: u64): Tree {
    if r in tree then tree else tree[r := next]
  }

  function WithPath(t: Table, tree: Tree, va: u64): Tree {
    var v2, v1 := ExtractVpn(va, 2), ExtractVpn(va, 1);
    var tree1 := WithRole(tree, Level1(v2), t.next);
    WithRole(tree1, Level0(v2, v1), if Level1(v2) in tree then t.next else (t.next + 1) % U64)
  }

  lemma EnsureLevel1(t: Table, tree: Tree, va: u64, pa: u64, flags: u64) returns (t1: Table, tree1: Tree)
    requires Inv(t, tree) && !SuperpageAt(t, va)
    ensures Inv(t1, tree1) && !SuperpageAt(t1, va) && SameWalks(t, t1)
    ensures tree1 == WithRole(tree, Level1(ExtractVpn(va, 2)), t.next)
    ensures t1 == if Level1(ExtractVpn(va, 2)) in tree then t else Link(t, t.root, ExtractVpn(va, 2))
    ensures MapPage(t1, va, pa, flags) == MapPage(t, va, pa, flags)
  {
    var v2 := ExtractVpn(va, 2);
    t1, tree1 := t, tree;
    if Level1(v2) !in tree {
      MapPageLevel1(t, tree, va, pa, flags);
      LinkLevel1(t, tree, va);
      t1, tree1 := Link(t, t.root, v2), tree[Level1(v2) := t.next];
    }
  }

  lemma LinkLevel1(t: Table, tree: Tree, va: u64)
    requires Inv(t, tree) && !SuperpageAt(t, va) && Level1(ExtractVpn(va, 2)) !in tree
    ensures var v2 := ExtractVpn(va, 2);
            var t1 := Link(t, t.root, v2);
            Inv(t1, tree[Level1(v2) := t.next]) && SameWalks(t, t1) && !SuperpageAt(t1, va)
  {
    var v2, v1 := ExtractVpn(va, 2), ExtractVpn(va, 1);
    GrowLevel1(t, tree, v2);
    assert PageWalk(Link(t, t.root, v2), v2, v1, 0) == PageWalk(t, v2, v1, 0);
  }

  lemma EnsureLevel0(t: Table, tree: Tree, va: u64, pa: u64, flags: u64) returns (t1: Table, tree1: Tree)
    requires Inv(t, tree) && !SuperpageAt(t, va) && Level1(ExtractVpn(va, 2)) in tree
    ensures Inv(t1, tree1) && !SuperpageAt(t1, va) && SameWalks(t, t1)
    ensures tree1 == WithRole(tree, Level0(ExtractVpn(va, 2), ExtractVpn(va, 1)), t.next)
    ensures t1 == if Level0(ExtractVpn(va, 2), ExtractVpn(va, 1)) in tree then t
                  else Link(t, tree[Level1(ExtractVpn(va, 2))], ExtractVpn(va, 1))
    ensures MapPage(t1, va, pa, flags) == MapPage(t, va, pa, flags)
  {
    var v2, v1 := ExtractVpn(va, 2), ExtractVpn(va, 1);
    t1, tree1 := t, tree;
    if Level0(v2, v1) !in tree {
      MapPageLevel0(t, tree, va, pa, flags);
      GrowLevel0(t, tree, v2, v1);
      t1, tree1 := Link(t, tree[Level1(v2)], v1), tree[Level0(v2, v1) := t.next];
    }
  }

  lemma MapPageWalks(t: Table, tree: Tree, va: u64, pa: u64, flags: u64)
    requires Inv(t, tree) && !SuperpageAt(t, va)
    ensures !MapPage(t, va, pa, flags).panicked
    ensures Inv(MapPage(t, va, pa, flags).table, WithPath(t, tree, va))
    ensures WalksUpdated(t, MapPage(t, va, pa, flags).table,
                         ExtractVpn(va, 2), ExtractVpn(va, 1), ExtractVpn(va, 0),
                         if HasRwx(flags) then Small(LeafPpn(pa, flags)) else Fault)
  {
    var t1, tree1 := EnsureLevel1(t, tree, va, pa, flags);
    var t2, tree2 := EnsureLevel0(t1, tree1, va, pa, flags);
    MapPageLeaf(t2, tree2, va, pa, flags);
    LeafFacts(pa, flags);
    WriteLevel0(t2, tree2, ExtractVpn(va, 2), ExtractVpn(va, 1), ExtractVpn(va, 0), LeafPte(pa, flags));
  }

  lemma MapPageAgrees(t: Table, tree: Tree, flat: Flat, va: u64, pa: u64, flags: u64) returns (tree': Tree)
    requires Inv(t, tree) && Agrees(t, flat) && !SuperpageAt(t, va)
    ensures !MapPage(t, va, pa, flags).panicked
    ensures Inv(MapPage(t, va, pa, flags).table, tree') && tree'.Keys == tree.Keys + PathRoles(va)
    ensures Agrees(MapPage(t, va, pa, flags).table, FlatMapPage(flat, va, pa, flags))
    ensures !SuperpageAt(MapPage(t, va, pa, flags).table, va)
  {
    tree' := WithPath(t, tree, va);
    MapPageWalks(t, tree, va, pa, flags);
    PageAgrees(t, MapPage(t, va, pa, flags).table, flat, va, pa, flags);
  }

  lemma PageAgrees(t: Table, t': Table, flat: Flat, va: u64, pa: u64, flags: u64)
    requires Agrees(t, flat)
    requires WalksUpdated(t, t', ExtractVpn(va, 2), ExtractVpn(va, 1), ExtractVpn(va, 0),
                          if HasRwx(flags) then Small(LeafPpn(pa, flags)) else Fault)
    ensures Agrees(t', FlatMapPage(flat, va, pa, flags))
  {
    var flat' := FlatMapPage(flat, va, pa, flags);
    VpnsOfPage(va);
    forall v: nat | v < PAGES ensures PageWalkOf(t', v) == Lookup(flat', v) {
      assert PageWalkOf(t, v) == Lookup(flat, v);
      PageSplit(v, PageOf(va));
    }
  }

  // A page number is determined by its three parts.
  lemma PageSplit(v: nat, w: nat)
    requires v < PAGES && w < PAGES
    ensures v / 0x4_0000 < 512
    ensures v / 512 == w / 512 <==> v / 0x4_0000 == w / 0x4_0000 && (v / 512) % 512 == (w / 512) % 512
    ensures v == w <==> v / 512 == w / 512 && v % 512 == w % 512
  {
  }

  // ---------- map_superpage ----------

  predicate SuperpageRequest(va: u64, pa: u64, flags: u64) {
    va % 0x20_0000 == 0 && pa % 0x20_0000 == 0 && HasRwx(flags)
  }

  /** The root entry of the region exists, or no node but the root has ever been
      allocated. Otherwise the new level-1 node is linked into the wrong node. */
  predicate LinksToRoot(t: Table, va: u64) {
    IsValid(t.Entry(t.root, ExtractVpn(va, 2))) || t.next == t.root + 1
  }

  lemma SuperpageOnExisting(t: Table, tree: Tree, va: u64, pa: u64, flags: u64)
    requires Inv(t, tree) && MegaAligned(va) && MegaAligned(pa) && Level1(ExtractVpn(va, 2)) in tree
    ensures MapSuperpage(t, va, pa, flags)
         == Outcome(t.Write(tree[Level1(ExtractVpn(va, 2))], ExtractVpn(va, 1), LeafPte(pa, flags)), false)
  {
    PathOk(t, tree, ExtractVpn(va, 2), ExtractVpn(va, 1));
  }

  lemma SuperpageOnFirstNode(t: Table, tree: Tree, va: u64, pa: u64, flags: u64)
    requires Inv(t, tree) && SuperpageRequest(va, pa, flags)
    requires Level1(ExtractVpn(va, 2)) !in tree && t.next == t.root + 1
    ensures MapSuperpage(t, va, pa, flags)
         == Outcome(Link(t, t.root, ExtractVpn(va, 2)).Write(t.next, ExtractVpn(va, 1), LeafPte(pa, flags)), false)
  {
    assert RootEntryOk(t, tree, ExtractVpn(va, 2));
    assert (t.next + U64 - 1) % U64 == t.root;
  }

  lemma SuperpageWalks(t: Table, tree: Tree, va: u64, pa: u64, flags: u64) returns (tree': Tree)
    requires Inv(t, tree) && SuperpageRequest(va, pa, flags) && LinksToRoot(t, va)
    ensures !MapSuperpage(t, va, pa, flags).panicked
    ensures Inv(MapSuperpage(t, va, pa, flags).table, tree')
    ensures tree'.Keys == tree.Keys + {Level1(ExtractVpn(va, 2))}
    ensures RegionUpdated(t, MapSuperpage(t, va, pa, flags).table,
                          ExtractVpn(va, 2), ExtractVpn(va, 1), LeafPpn(pa, flags))
  {
    var v2, v1 := ExtractVpn(va, 2), ExtractVpn(va, 1);
    LeafFacts(pa, flags);
    if Level1(v2) in tree {
      SuperpageOnExisting(t, tree, va, pa, flags);
      WriteLevel1Leaf(t, tree, v2, v1, LeafPte(pa, flags));
      tree' := tree;
    } else {
      assert RootEntryOk(t, tree, v2);
      SuperpageOnFirstNode(t, tree, va, pa, flags);
      GrowLevel1(t, tree, v2);
      tree' := tree[Level1(v2) := t.next];
      WriteLevel1Leaf(Link(t, t.root, v2), tree', v2, v1, LeafPte(pa, flags));
    }
  }

  lemma SuperpageAgrees(t: Table, tree: Tree, flat: Flat, va: u64, pa: u64, flags: u64) returns (tree': Tree)
    requires Inv(t, tree) && Agrees(t, flat) && SuperpageRequest(va, pa, flags) && LinksToRoot(t, va)
    ensures !MapSuperpage(t, va, pa, flags).panicked
    ensures Inv(MapSuperpage(t, va, pa, flags).table, tree')
    ensures tree'.Keys == tree.Keys + {Level1(ExtractVpn(va, 2))}
    ensures Agrees(MapSuperpage(t, va, pa, flags).table, FlatMapSuperpage(flat, va, pa, flags))
  {
    tree' := SuperpageWalks(t, tree, va, pa, flags);
    RegionAgrees(t, MapSuperpage(t, va, pa, flags).table, flat, va, pa, flags);
  }

  // The stray link: nothing changes but entry VPN[2] of the node allocated last,
  // and the new node.
  lemma StraySuperpageForm(t: Table, tree: Tree, va: u64, pa: u64, flags: u64)
    requires Inv(t, tree) && SuperpageRequest(va, pa, flags) && !LinksToRoot(t, va)
    ensures t.root != t.next - 1 && t.next - 1 in t.nodes && t.next < PPN_LIMIT
    ensures MapSuperpage(t, va, pa, flags)
         == Outcome(Link(t, t.next - 1, ExtractVpn(va, 2)).Write(t.next, ExtractVpn(va, 1), LeafPte(pa, flags)), false)
  {
    TreeSize(t, tree);
    assert (t.next + U64 - 1) % U64 == t.next - 1;
    assert t.root != t.next - 1 && t.next - 1 in t.nodes;
  }

  // When the link goes astray, the whole region stays unmapped.
  lemma StraySuperpageFaults(t: Table, tree: Tree, va: u64, pa: u64, flags: u64, x: u64)
    requires Inv(t, tree) && SuperpageRequest(va, pa, flags) && !LinksToRoot(t, va)
    requires SameRegion(PageOf(x), PageOf(va))
    ensures !MapSuperpage(t, va, pa, flags).panicked
    ensures Translate(MapSuperpage(t, va, pa, flags).table, x) == PageFault
  {
    TreeSize(t, tree);
    VpnsOfPage(va);
    VpnsOfPage(x);
    PageSplit(PageOf(x), PageOf(va));
    StraySuperpageForm(t, tree, va, pa, flags);
  }

  // map_superpage maps its region exactly when the link goes to the root.
  lemma SuperpageMapsIff(t: Table, tree: Tree, va: u64, pa: u64, flags: u64)
    requires Inv(t, tree) && SuperpageRequest(va, pa, flags)
    ensures LinksToRoot(t, va) <==>
            forall x: u64 :: SameRegion(PageOf(x), PageOf(va)) ==>
              Translate(MapSuperpage(t, va, pa, flags).table, x)
              == Ok(AddressIn(Or(LeafPpn(pa, flags), PageOf(x) % 512), x))
  {
    var t' := MapSuperpage(t, va, pa, flags).table;
    if LinksToRoot(t, va) {
      var tree' := SuperpageWalks(t, tree, va, pa, flags);
      forall x: u64 | SameRegion(PageOf(x), PageOf(va))
        ensures Translate(t', x) == Ok(AddressIn(Or(LeafPpn(pa, flags), PageOf(x) % 512), x))
      {
        VpnsOfPage(va);
        PageSplit(PageOf(x), PageOf(va));
        TranslateIsPageWalk(t', tree', x);
      }
    } else {
      StraySuperpageFaults(t, tree, va, pa, flags, va);
      assert SameRegion(PageOf(va), PageOf(va));
    }
  }

  /** A variant the source does not contain: the fresh level-1 node is linked into the
      root, as the comments of map_superpage describe. */
  function MapSuperpageAtRoot(t: Table, va: u64, pa: u64, flags: u64): Outcome {
    var v2, v1 := ExtractVpn(va, 2), ExtractVpn(va, 1);
    if MegaAligned(va) && MegaAligned(pa) && t.root in t.nodes && !IsValid(t.nodes[t.root][v2]) then
      Outcome(Link(t, t.root, v2).Write(t.next, v1, LeafPte(pa, flags)), false)
    else MapSuperpage(t, va, pa, flags)
  }

  // The variant meets the flat specification on every well-shaped table, and it
  // differs from the source only where the source loses the mapping.
  lemma RootLinkAgrees(t: Table, tree: Tree, flat: Flat, va: u64, pa: u64, flags: u64) returns (tree': Tree)
    requires Inv(t, tree) && Agrees(t, flat) && SuperpageRequest(va, pa, flags)
    ensures var o := MapSuperpageAtRoot(t, va, pa, flags);
            && !o.panicked && Inv(o.table, tree') && Agrees(o.table, FlatMapSuperpage(flat, va, pa, flags))
            && (o == MapSuperpage(t, va, pa, flags) <==> LinksToRoot(t, va))
  {
    var v2, v1 := ExtractVpn(va, 2), ExtractVpn(va, 1);
    assert RootEntryOk(t, tree, v2);
    PathOk(t, tree, v2, v1);
    if LinksToRoot(t, va) {
      tree' := SuperpageAgrees(t, tree, flat, va, pa, flags);
      if Level1(v2) !in tree {
        SuperpageOnFirstNode(t, tree, va, pa, flags);
      }
    } else {
      tree' := tree[Level1(v2) := t.next];
      FreshLeafAgrees(t, tree, flat, va, pa, flags);
      StraySuperpageFaults(t, tree, va, pa, flags, va);
      TranslateAgrees(MapSuperpageAtRoot(t, va, pa, flags).table, tree', FlatMapSuperpage(flat, va, pa, flags));
      assert PageOf(va) in FlatMapSuperpage(flat, va, pa, flags) by {
        assert SameRegion(PageOf(va), PageOf(va));
      }
    }
  }

  lemma FreshLeafAgrees(t: Table, tree: Tree, flat: Flat, va: u64, pa: u64, flags: u64)
    requires Inv(t, tree) && Agrees(t, flat) && SuperpageRequest(va, pa, flags)
    requires Level1(ExtractVpn(va, 2)) !in tree
    ensures var t' := Link(t, t.root, ExtractVpn(va, 2)).Write(t.next, ExtractVpn(va, 1), LeafPte(pa, flags));
            Inv(t', tree[Level1(ExtractVpn(va, 2)) := t.next]) && Agrees(t', FlatMapSuperpage(flat, va, pa, flags))
  {
    var v2, v1 := ExtractVpn(va, 2), ExtractVpn(va, 1);
    var t1, tree1 := Link(t, t.root, v2), tree[Level1(v2) := t.next];
    LeafFacts(pa, flags);
    GrowLevel1(t, tree, v2);
    WriteLevel1Leaf(t1, tree1, v2, v1, LeafPte(pa, flags));
    RegionAgrees(t, t1.Write(t.next, v1, LeafPte(pa, flags)), flat, va, pa, flags);
  }

  lemma RegionAgrees(t: Table, t': Table, flat: Flat, va: u64, pa: u64, flags: u64)
    requires Agrees(t, flat) && RegionUpdated(t, t', ExtractVpn(va, 2), ExtractVpn(va, 1), LeafPpn(pa, flags))
    ensures Agrees(t', FlatMapSuperpage(flat, va, pa, flags))
  {
    var flat' := FlatMapSuperpage(flat, va, pa, flags);
    VpnsOfPage(va);
    forall v: nat | v < PAGES ensures PageWalkOf(t', v) == Lookup(flat', v) {
      assert PageWalkOf(t, v) == Lookup(flat, v);
      PageSplit(v, PageOf(va));
    }
  }

  // ---------- a superpage is 512 pages ----------

  /** The address of page k in the region that starts at a. */
  function NthPage(a: u64, k: nat): u64 {
    (a + k * 4096) % 0x1_0000_0000_0000_0000
  }

  lemma NthPageFits(a: u64, k: nat)
    requires MegaAligned(a) && k < 512
    ensures NthPage(a, k) == a + k * 4096
  {
    assert a <= U64 - 0x20_0000;
  }

  /** map_page on page k of a region, unless something has gone wrong before. */
  function MapNth(o: Outcome, va: u64, pa: u64, flags: u64, k: nat): Outcome {
    if o.panicked then o else MapPage(o.table, NthPage(va, k), NthPage(pa, k), flags)
  }

  /** map_page on the first n pages of a region. */
  function MapPages(t: Table, va: u64, pa: u64, flags: u64, n: nat): Outcome {
    if n == 0 then Outcome(t, false) else MapNth(MapPages(t, va, pa, flags, n - 1), va, pa, flags, n - 1)
  }

  function FlatMapPages(flat: Flat, va: u64, pa: u64, flags: u64, n: nat): Flat {
    if n == 0 then flat
    else FlatMapPage(FlatMapPages(flat, va, pa, flags, n - 1), NthPage(va, n - 1), NthPage(pa, n - 1), flags)
  }

  lemma RegionMapGrows(base: nat, ppn: nat, n: nat, k: nat)
    requires base % 512 == 0 && base + k < PAGES && n <= 512 && n == k + 1
    ensures RegionMap(base, ppn, n) == RegionMap(base, ppn, k)[base + k := Or(ppn, k)]
  {
    var m, m' := RegionMap(base, ppn, n), RegionMap(base, ppn, k)[base + k := Or(ppn, k)];
    assert (base + k) / 512 == base / 512 && (base + k) % 512 == k;
    forall v: nat ensures v in m <==> v in m' {
      if SameRegion(v, base) && v % 512 == k {
        assert v == base + k;
      }
    }
  }

  lemma {:induction false} FlatMapPagesRegion(flat: Flat, va: u64, pa: u64, flags: u64, n: nat)
    requires n <= 512 && SuperpageRequest(va, pa, flags)
    ensures FlatMapPages(flat, va, pa, flags, n) == flat + RegionMap(PageOf(va), LeafPpn(pa, flags), n)
  {
    if n == 0 {
      EmptyRegion(flat, PageOf(va), LeafPpn(pa, flags));
    } else {
      FlatMapPagesRegion(flat, va, pa, flags, n - 1);
      FlatMapNextPage(flat, va, pa, flags, n, n - 1, FlatMapPages(flat, va, pa, flags, n - 1));
    }
  }

  lemma EmptyRegion(flat: Flat, base: nat, ppn: nat)
    ensures flat + RegionMap(base, ppn, 0) == flat
  {
    assert RegionMap(base, ppn, 0) == map[];
  }

  lemma FlatMapNextPage(flat: Flat, va: u64, pa: u64, flags: u64, n: nat, k: nat, before: Flat)
    requires n <= 512 && n == k + 1 && SuperpageRequest(va, pa, flags)
    requires before == flat + RegionMap(PageOf(va), LeafPpn(pa, flags), k)
    ensures FlatMapPage(before, NthPage(va, k), NthPage(pa, k), flags)
         == flat + RegionMap(PageOf(va), LeafPpn(pa, flags), n)
  {
    FlatMapNthPage(before, va, pa, flags, k);
    RegionStep(flat, PageOf(va), LeafPpn(pa, flags), n, k, before);
  }

  lemma RegionStep(flat: Flat, base: nat, ppn: nat, n: nat, k: nat, before: Flat)
    requires base % 512 == 0 && base + k < PAGES && n <= 512 && n == k + 1
    requires before == flat + RegionMap(base, ppn, k)
    ensures before[base + k := Or(ppn, k)] == flat + RegionMap(base, ppn, n)
  {
    RegionMapGrows(base, ppn, n, k);
    UpdateOfUnion(flat, RegionMap(base, ppn, k), RegionMap(base, ppn, n), before, base + k, Or(ppn, k));
  }

  lemma UpdateOfUnion(a: Flat, b: Flat, b': Flat, before: Flat, k: nat, x: nat)
    requires before == a + b && b' == b[k := x]
    ensures before[k := x] == a + b'
  {
  }

  lemma FlatMapNthPage(flat: Flat, va: u64, pa: u64, flags: u64, k: nat)
    requires k < 512 && SuperpageRequest(va, pa, flags)
    ensures FlatMapPage(flat, NthPage(va, k), NthPage(pa, k), flags)
         == flat[PageOf(va) + k := Or(LeafPpn(pa, flags), k)]
    ensures PageOf(va) % 512 == 0 && PageOf(va) + k < PAGES
  {
    PageNumberInRegion(va, k);
    LeafPpnInRegion(pa, flags, k);
  }

  lemma PageInRegion(va: u64, k: nat)
    requires MegaAligned(va) && k < 512
    ensures SameRegion(PageOf(NthPage(va, k)), PageOf(va)) && PageOf(NthPage(va, k)) % 512 == k
    ensures ExtractVpn(NthPage(va, k), 2) == ExtractVpn(va, 2) && ExtractVpn(NthPage(va, k), 1) == ExtractVpn(va, 1)
  {
    VpnsOfPage(va);
    VpnsOfPage(NthPage(va, k));
    PageNumberInRegion(va, k);
    PageSplit(PageOf(va), PageOf(NthPage(va, k)));
  }

  lemma PageNumberInRegion(va: u64, k: nat)
    requires MegaAligned(va) && k < 512
    ensures PageOf(NthPage(va, k)) == PageOf(va) + k && PageOf(va) % 512 == 0
  {
    var m := va / 0x20_0000;
    var hi, lo := m / 0x4_0000, m % 0x4_0000;
    NthPageFits(va, k);
    assert va / 4096 == 512 * m && NthPage(va, k) / 4096 == 512 * m + k;
    DivUnique(512 * m, PAGES, hi, 512 * lo);
    DivUnique(512 * m + k, PAGES, hi, 512 * lo + k);
  }

  lemma LeafPpnInRegion(pa: u64, flags: u64, k: nat)
    requires MegaAligned(pa) && k < 512
    ensures LeafPpn(NthPage(pa, k), flags) == Or(LeafPpn(pa, flags), k)
  {
    var m, f := pa / 0x20_0000, Shr(flags, PPN_SHIFT);
    NthPageFits(pa, k);
    Pow2Values();
    ShrIsDiv(pa, 12);
    ShrIsDiv(NthPage(pa, k), 12);
    assert pa / 4096 == m * 512 && NthPage(pa, k) / 4096 == m * 512 + k;
    OrAdds(m, k, 9);
    OrAssociative(m * 512, k, f);
    OrCommutative(k, f);
    OrAssociative(m * 512, f, k);
  }

  /** The first n pages of the region are mapped and nothing has gone wrong. */
  ghost predicate MappedSoFar(o: Outcome, tree: Tree, flat: Flat, va: u64) {
    !o.panicked && Inv(o.table, tree) && !SuperpageAt(o.table, va) && Agrees(o.table, flat)
  }

  lemma {:induction false} MapPagesAgrees(t: Table, tree: Tree, flat: Flat, va: u64, pa: u64, flags: u64, n: nat)
    returns (tree': Tree)
    requires Inv(t, tree) && Agrees(t, flat) && !SuperpageAt(t, va)
    requires n <= 512 && MegaAligned(va) && MegaAligned(pa)
    ensures MappedSoFar(MapPages(t, va, pa, flags, n), tree', FlatMapPages(flat, va, pa, flags, n), va)
  {
    if n == 0 {
      tree' := tree;
    } else {
      var tree1 := MapPagesAgrees(t, tree, flat, va, pa, flags, n - 1);
      tree' := MapNthPage(MapPages(t, va, pa, flags, n - 1), tree1, FlatMapPages(flat, va, pa, flags, n - 1),
                          va, pa, flags, n - 1);
    }
  }

  lemma MapNthPage(o: Outcome, tree: Tree, flat: Flat, va: u64, pa: u64, flags: u64, k: nat) returns (tree': Tree)
    requires MappedSoFar(o, tree, flat, va)
    requires k < 512 && MegaAligned(va) && MegaAligned(pa)
    ensures MappedSoFar(MapNth(o, va, pa, flags, k), tree',
                        FlatMapPage(flat, NthPage(va, k), NthPage(pa, k), flags), va)
  {
    PageInRegion(va, k);
    tree' := MapPageAgrees(o.table, tree, flat, NthPage(va, k), NthPage(pa, k), flags);
  }

  /** The flat map a table stands for. */
  function Denote(t: Table): Flat {
    map v: nat | v < PAGES && PageWalkOf(t, v).Some? :: PageWalkOf(t, v).value
  }

  // One map_superpage call translates like 512 map_page calls at every address,
  // in a region that no superpage covers yet.
  lemma SuperpageIs512Pages(t: Table, tree: Tree, va: u64, pa: u64, flags: u64)
    requires Inv(t, tree) && SuperpageRequest(va, pa, flags) && LinksToRoot(t, va) && !SuperpageAt(t, va)
    ensures var s, p := MapSuperpage(t, va, pa, flags), MapPages(t, va, pa, flags, 512);
            !s.panicked && !p.panicked && forall x: u64 :: Translate(s.table, x) == Translate(p.table, x)
  {
    var flat := Denote(t);
    assert Agrees(t, flat);
    var tree1 := SuperpageAgrees(t, tree, flat, va, pa, flags);
    var tree2 := MapPagesAgrees(t, tree, flat, va, pa, flags, 512);
    FlatMapPagesRegion(flat, va, pa, flags, 512);
    assert FlatMapPages(flat, va, pa, flags, 512) == FlatMapSuperpage(flat, va, pa, flags);
    TranslateAgrees(MapSuperpage(t, va, pa, flags).table, tree1, FlatMapSuperpage(flat, va, pa, flags));
    TranslateAgrees(MapPages(t, va, pa, flags, 512).table, tree2, FlatMapSuperpage(flat, va, pa, flags));
  }
}
