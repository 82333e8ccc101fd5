/** Which entry a translation ends at, permissions and all, and how the two mapping calls
    change it. */
module Sv39Leaves {
  import opened Bits
  import opened Sv39Bits
  import opened Sv39Model
  import opened Sv39Tree
  import opened Sv39Theorems
  import opened Sv39Stray
  import opened Wrappers

  /** A leaf entry and the level it was found at. */
  datatype Leaf = Leaf(entry: nat, level: nat)

  function ResumeLeaf(t: Table, e: nat, va: u64, level: nat): Option<Leaf>
    requires level <= 2
    decreases level, 0
  {
    if !IsValid(e) then None
    else if IsLeaf(e) then Some(Leaf(e, level))
    else if level == 0 then None
    else LeafFrom(t, Ppn(e), va, level - 1)
  }

  function LeafFrom(t: Table, ppn: nat, va: u64, level: nat): Option<Leaf>
    requires level <= 2
    decreases level, 1
  {
    ResumeLeaf(t, t.Entry(ppn, ExtractVpn(va, level)), va, level)
  }

  /** The leaf that decides the translation of an address, if there is one. */
  function LeafOf(t: Table, va: u64): Option<Leaf> {
    LeafFrom(t, t.root, va, 2)
  }

  // translate is the address in that leaf, or a fault if there is none.
  lemma {:induction false} LeafDecides(t: Table, ppn: nat, va: u64, level: nat)
    requires level <= 2
    ensures WalkFrom(t, ppn, va, level)
         == (match LeafFrom(t, ppn, va, level)
             case None => PageFault
             case Some(leaf) => Ok(LeafAddress(leaf.entry, va, leaf.level)))
    decreases level
  {
    if level > 0 {
      LeafDecides(t, Ppn(t.Entry(ppn, ExtractVpn(va, level))), va, level - 1);
    }
  }

  // Overwriting one entry of any node changes exactly the leaves of the walks that read it.
  lemma LeafOverwritten(t: Table, t': Table, tree: Tree, r: Role, i: nat, e: nat, x: u64)
    requires Inv(t, tree) && r in tree && i < PT_ENTRIES && Overwritten(t, t', tree[r], i, e)
    ensures LeafOf(t', x) == if Reads(t, r, i, x) then ResumeLeaf(t', e, x, LevelOf(r)) else LeafOf(t, x)
  {
    var v2, v1 := ExtractVpn(x, 2), ExtractVpn(x, 1);
    PathOk(t, tree, v2, v1);
    if !(r == Root && v2 == i) && Level1(v2) in tree {
      LeafBelowOverwritten(t, t', tree, r, i, e, x);
    }
  }

  lemma LeafBelowOverwritten(t: Table, t': Table, tree: Tree, r: Role, i: nat, e: nat, x: u64)
    requires Inv(t, tree) && r in tree && i < PT_ENTRIES && Overwritten(t, t', tree[r], i, e)
    requires Level1(ExtractVpn(x, 2)) in tree && !(r == Root && ExtractVpn(x, 2) == i)
    ensures var p1 := tree[Level1(ExtractVpn(x, 2))];
            LeafFrom(t', p1, x, 1)
            == if Reads(t, r, i, x) then ResumeLeaf(t', e, x, LevelOf(r)) else LeafFrom(t, p1, x, 1)
  {
    PathOk(t, tree, ExtractVpn(x, 2), ExtractVpn(x, 1));
  }

  ghost predicate SameLeaves(t: Table, t': Table) {
    forall x: u64 :: LeafOf(t', x) == LeafOf(t, x)
  }

  // Linking a fresh node where there was no valid entry brings no leaf and loses none.
  lemma LinkKeepsLeaves(t: Table, tree: Tree, r: Role, i: nat)
    requires Inv(t, tree) && r in tree && !r.Level0? && i < PT_ENTRIES && !IsValid(t.Entry(tree[r], i))
    ensures SameLeaves(t, Link(t, tree[r], i))
  {
    var t', e := Link(t, tree[r], i), PointerPte(t.next);
    TreeSize(t, tree);
    PointerFacts(t.next);
    assert Overwritten(t, t', tree[r], i, e);
    forall x: u64 ensures LeafOf(t', x) == LeafOf(t, x) {
      LeafOverwritten(t, t', tree, r, i, e, x);
      FreshHasNoLeaf(t', t.next, x, LevelOf(r) - 1);
      InvalidHasNoLeaf(t, tree, r, i, x);
    }
  }

  lemma FreshHasNoLeaf(t: Table, ppn: nat, x: u64, level: nat)
    requires level <= 2 && forall j :: 0 <= j < PT_ENTRIES ==> t.Entry(ppn, j) == 0
    ensures LeafFrom(t, ppn, x, level) == None
  {
  }

  lemma InvalidHasNoLeaf(t: Table, tree: Tree, r: Role, i: nat, x: u64)
    requires Inv(t, tree) && r in tree && !r.Level0? && i < PT_ENTRIES && !IsValid(t.Entry(tree[r], i))
    ensures Reads(t, r, i, x) ==> LeafOf(t, x) == None
  {
    PathOk(t, tree, ExtractVpn(x, 2), ExtractVpn(x, 1));
  }

  /** The leaf entry x ends at after a call that gives the addresses of `mine` the entry e
      at this level. */
  function Given(t: Table, mine: bool, e: nat, level: nat, x: u64): Option<Leaf> {
    if !mine then LeafOf(t, x) else if HasRwx(e) then Some(Leaf(e, level)) else None
  }

  lemma PathKeepsLeaves(t: Table, tree: Tree, va: u64, pa: u64, flags: u64) returns (t2: Table, tree2: Tree)
    requires Inv(t, tree) && !SuperpageAt(t, va)
    ensures Inv(t2, tree2) && !SuperpageAt(t2, va) && SameLeaves(t, t2)
    ensures Level1(ExtractVpn(va, 2)) in tree2 && Level0(ExtractVpn(va, 2), ExtractVpn(va, 1)) in tree2
    ensures MapPage(t2, va, pa, flags) == MapPage(t, va, pa, flags)
  {
    var v2, v1 := ExtractVpn(va, 2), ExtractVpn(va, 1);
    var t1, tree1 := EnsureLevel1(t, tree, va, pa, flags);
    if Level1(v2) !in tree {
      assert RootEntryOk(t, tree, v2);
      LinkKeepsLeaves(t, tree, Root, v2);
    }
    t2, tree2 := EnsureLevel0(t1, tree1, va, pa, flags);
    if Level0(v2, v1) !in tree1 {
      PathOk(t1, tree1, v2, v1);
      LinkKeepsLeaves(t1, tree1, Level1(v2), v1);
    }
  }

  // Where no superpage is, map_page gives its page the leaf it was asked for, with all
  // permission bits, or no leaf if R, W and X are clear; every other address keeps its leaf.
  lemma MapPageStores(t: Table, tree: Tree, va: u64, pa: u64, flags: u64)
    requires Inv(t, tree) && !SuperpageAt(t, va)
    ensures forall x: u64 ::
              LeafOf(MapPage(t, va, pa, flags).table, x)
              == Given(t, (x / 4096) % 0x800_0000 == (va / 4096) % 0x800_0000, LeafPte(pa, flags), 0, x)
  {
    var t2, tree2 := PathKeepsLeaves(t, tree, va, pa, flags);
    MapPageLeaf(t2, tree2, va, pa, flags);
    WriteStores(t2, tree2, va, LeafPte(pa, flags));
    LeafFacts(pa, flags);
  }

  lemma WriteStores(t: Table, tree: Tree, va: u64, e: u64)
    requires Inv(t, tree) && !SuperpageAt(t, va) && Level0(ExtractVpn(va, 2), ExtractVpn(va, 1)) in tree
    requires IsValid(e)
    ensures var t' := t.Write(tree[Level0(ExtractVpn(va, 2), ExtractVpn(va, 1))], ExtractVpn(va, 0), e);
            forall x: u64 :: LeafOf(t', x) == Given(t, PageOf(x) == PageOf(va), e, 0, x)
  {
    var r, v0 := Level0(ExtractVpn(va, 2), ExtractVpn(va, 1)), ExtractVpn(va, 0);
    var t' := t.Write(tree[r], v0, e);
    assert Overwritten(t, t', tree[r], v0, e);
    EntryBits(e);
    VpnsOfPage(va);
    forall x: u64 ensures LeafOf(t', x) == Given(t, PageOf(x) == PageOf(va), e, 0, x) {
      LeafOverwritten(t, t', tree, r, v0, e, x);
      VpnsOfPage(x);
      PageSplit(PageOf(x), PageOf(va));
    }
  }

  // map_superpage, linked to the root, does the same for the 512 pages of its region.
  lemma MapSuperpageStores(t: Table, tree: Tree, va: u64, pa: u64, flags: u64)
    requires Inv(t, tree) && SuperpageRequest(va, pa, flags) && LinksToRoot(t, va)
    ensures forall x: u64 ::
              LeafOf(MapSuperpage(t, va, pa, flags).table, x)
              == Given(t, SameRegion(PageOf(x), PageOf(va)), LeafPte(pa, flags), 1, x)
  {
    var v2 := ExtractVpn(va, 2);
    LeafFacts(pa, flags);
    assert RootEntryOk(t, tree, v2);
    if Level1(v2) in tree {
      SuperpageOnExisting(t, tree, va, pa, flags);
      LeafStores(t, tree, va, LeafPte(pa, flags));
    } else {
      PathOk(t, tree, v2, 0);
      SuperpageOnFirstNode(t, tree, va, pa, flags);
      GrowLevel1(t, tree, v2);
      LinkKeepsLeaves(t, tree, Root, v2);
      LeafStores(Link(t, t.root, v2), tree[Level1(v2) := t.next], va, LeafPte(pa, flags));
    }
  }

  lemma LeafStores(t: Table, tree: Tree, va: u64, e: u64)
    requires Inv(t, tree) && Level1(ExtractVpn(va, 2)) in tree && IsValid(e) && IsLeaf(e)
    ensures var t' := t.Write(tree[Level1(ExtractVpn(va, 2))], ExtractVpn(va, 1), e);
            forall x: u64 :: LeafOf(t', x) == Given(t, SameRegion(PageOf(x), PageOf(va)), e, 1, x)
  {
    var r, v1 := Level1(ExtractVpn(va, 2)), ExtractVpn(va, 1);
    var t' := t.Write(tree[r], v1, e);
    assert Overwritten(t, t', tree[r], v1, e);
    EntryBits(e);
    VpnsOfPage(va);
    forall x: u64 ensures LeafOf(t', x) == Given(t, SameRegion(PageOf(x), PageOf(va)), e, 1, x) {
      LeafOverwritten(t, t', tree, r, v1, e, x);
      VpnsOfPage(x);
      PageSplit(PageOf(x), PageOf(va));
    }
  }
}
