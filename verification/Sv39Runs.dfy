/** Whole runs of the page table: the main theorems. */
module Sv39Runs {
  import opened Bits
  import opened Sv39Bits
  import opened Sv39Model
  import opened Sv39Tree
  import opened Sv39Theorems

  datatype Op = Page(va: u64, pa: u64, flags: u64) | Superpage(va: u64, pa: u64, flags: u64)

  function Apply(t: Table, op: Op): Outcome {
    match op
    case Page(va, pa, flags) => MapPage(t, va, pa, flags)
    case Superpage(va, pa, flags) => MapSuperpage(t, va, pa, flags)
  }

  /** What a caller must check before a call. */
  predicate Admissible(t: Table, op: Op) {
    match op
    case Page(va, _, _) => !SuperpageAt(t, va)
    case Superpage(va, pa, flags) => SuperpageRequest(va, pa, flags) && LinksToRoot(t, va)
  }

  function Run(t: Table, ops: seq<Op>): Outcome
    decreases |ops|
  {
    if ops == [] then Outcome(t, false)
    else
      var first := Apply(t, ops[0]);
      if first.panicked then first else Run(first.table, ops[1..])
  }

  predicate AllAdmissible(t: Table, ops: seq<Op>)
    decreases |ops|
  {
    ops == [] || (Admissible(t, ops[0]) && AllAdmissible(Apply(t, ops[0]).table, ops[1..]))
  }

  function FlatApply(flat: Flat, op: Op): Flat {
    match op
    case Page(va, pa, flags) => FlatMapPage(flat, va, pa, flags)
    case Superpage(va, pa, flags) => FlatMapSuperpage(flat, va, pa, flags)
  }

  function FlatRun(flat: Flat, ops: seq<Op>): Flat
    decreases |ops|
  {
    if ops == [] then flat else FlatRun(FlatApply(flat, ops[0]), ops[1..])
  }

  function Level1Of(op: Op): nat {
    ExtractVpn(op.va, 2)
  }

  function Level0Of(op: Op): (nat, nat) {
    (ExtractVpn(op.va, 2), ExtractVpn(op.va, 1))
  }

  /** The distinct VPN[2] values of a run, and the distinct (VPN[2], VPN[1]) pairs
      of its map_page calls. */
  function Level1Set(ops: seq<Op>): set<nat> {
    set op | op in ops :: Level1Of(op)
  }

  function Level0Set(ops: seq<Op>): set<(nat, nat)> {
    set op | op in ops && op.Page? :: Level0Of(op)
  }

  function Roles(level1: set<nat>, level0: set<(nat, nat)>): set<Role> {
    (set v2 | v2 in level1 :: Level1(v2)) + (set p | p in level0 :: Level0(p.0, p.1))
  }

  function RolesOf(op: Op): set<Role> {
    if op.Page? then PathRoles(op.va) else {Level1(ExtractVpn(op.va, 2))}
  }

  lemma ApplyAgrees(t: Table, tree: Tree, flat: Flat, op: Op) returns (tree': Tree)
    requires Inv(t, tree) && Agrees(t, flat) && Admissible(t, op)
    ensures !Apply(t, op).panicked
    ensures Inv(Apply(t, op).table, tree') && Agrees(Apply(t, op).table, FlatApply(flat, op))
    ensures tree'.Keys == tree.Keys + RolesOf(op)
  {
    match op
    case Page(va, pa, flags) =>
      tree' := MapPageAgrees(t, tree, flat, va, pa, flags);
    case Superpage(va, pa, flags) =>
      tree' := SuperpageAgrees(t, tree, flat, va, pa, flags);
  }

  lemma {:induction false} RunAgrees(t: Table, tree: Tree, flat: Flat, ops: seq<Op>) returns (tree': Tree)
    requires Inv(t, tree) && Agrees(t, flat) && AllAdmissible(t, ops)
    ensures !Run(t, ops).panicked
    ensures Inv(Run(t, ops).table, tree') && Agrees(Run(t, ops).table, FlatRun(flat, ops))
    ensures tree'.Keys == tree.Keys + Roles(Level1Set(ops), Level0Set(ops))
    decreases |ops|
  {
    if ops == [] {
      tree' := tree;
    } else {
      var tree1 := ApplyAgrees(t, tree, flat, ops[0]);
      tree' := RunAgrees(Apply(t, ops[0]).table, tree1, FlatApply(flat, ops[0]), ops[1..]);
      RolesOfFirst(ops);
    }
  }

  lemma RolesOfFirst(ops: seq<Op>)
    requires ops != []
    ensures Roles(Level1Set(ops), Level0Set(ops))
         == RolesOf(ops[0]) + Roles(Level1Set(ops[1..]), Level0Set(ops[1..]))
  {
    assert forall op :: op in ops <==> op == ops[0] || op in ops[1..];
    assert Level1Set(ops) == {Level1Of(ops[0])} + Level1Set(ops[1..]);
    assert Level0Set(ops) == (if ops[0].Page? then {Level0Of(ops[0])} else {}) + Level0Set(ops[1..]);
  }

  lemma RunFromNew(ops: seq<Op>) returns (tree': Tree)
    requires AllAdmissible(New(), ops)
    ensures !Run(New(), ops).panicked
    ensures Inv(Run(New(), ops).table, tree') && Agrees(Run(New(), ops).table, FlatRun(map[], ops))
    ensures tree'.Keys == {Root} + Roles(Level1Set(ops), Level0Set(ops))
  {
    NewInv();
    assert Agrees(New(), map[]);
    var tree: Tree := map[Root := ROOT_PPN];
    assert tree.Keys == {Root};
    tree' := RunAgrees(New(), tree, map[], ops);
  }

  // The main theorem: any run of map_page and map_superpage calls whose guards
  // hold translates every 64-bit address like the flat map does.
  lemma RunRefinesFlatMap(ops: seq<Op>)
    requires AllAdmissible(New(), ops)
    ensures !Run(New(), ops).panicked
    ensures forall va: u64 :: Translate(Run(New(), ops).table, va) == FlatTranslate(FlatRun(map[], ops), va)
  {
    var tree' := RunFromNew(ops);
    TranslateAgrees(Run(New(), ops).table, tree', FlatRun(map[], ops));
  }

  // Without superpages every call is admissible.
  lemma {:induction false} PagesAreAdmissible(t: Table, tree: Tree, ops: seq<Op>)
    requires Inv(t, tree) && NoSuperpages(t) && forall op :: op in ops ==> op.Page?
    ensures AllAdmissible(t, ops)
    decreases |ops|
  {
    if ops != [] {
      assert ops[0] in ops;
      var tree1 := PageAddsNoSuperpage(t, tree, ops[0].va, ops[0].pa, ops[0].flags);
      PagesAreAdmissible(Apply(t, ops[0]).table, tree1, ops[1..]);
    }
  }

  ghost predicate NoSuperpages(t: Table) {
    forall v2, v1 :: 0 <= v2 < PT_ENTRIES && 0 <= v1 < PT_ENTRIES ==> !Superpaged(t, v2, v1)
  }

  lemma PageAddsNoSuperpage(t: Table, tree: Tree, va: u64, pa: u64, flags: u64) returns (tree': Tree)
    requires Inv(t, tree) && NoSuperpages(t)
    ensures Inv(MapPage(t, va, pa, flags).table, tree') && NoSuperpages(MapPage(t, va, pa, flags).table)
  {
    tree' := WithPath(t, tree, va);
    MapPageWalks(t, tree, va, pa, flags);
    forall v2, v1 | 0 <= v2 < PT_ENTRIES && 0 <= v1 < PT_ENTRIES
      ensures !Superpaged(MapPage(t, va, pa, flags).table, v2, v1)
    {
      assert !Superpaged(t, v2, v1);
    }
  }

  lemma PagesRefineFlatMap(ops: seq<Op>)
    requires forall op :: op in ops ==> op.Page?
    ensures AllAdmissible(New(), ops) && !Run(New(), ops).panicked
    ensures forall va: u64 :: Translate(Run(New(), ops).table, va) == FlatTranslate(FlatRun(map[], ops), va)
  {
    NewInv();
    PagesAreAdmissible(New(), map[Root := ROOT_PPN], ops);
    RunRefinesFlatMap(ops);
  }

  // Bits 39 and above of an address play no part, whatever the table.
  lemma HighBitsIgnored(t: Table, x: u64, y: u64)
    requires x % 0x80_0000_0000 == y % 0x80_0000_0000
    ensures Translate(t, x) == Translate(t, y)
  {
    SameWalk(t, t.root, x, y, 2);
  }

  lemma {:induction false} SameWalk(t: Table, ppn: nat, x: u64, y: u64, level: nat)
    requires x % 0x80_0000_0000 == y % 0x80_0000_0000 && level <= 2
    ensures WalkFrom(t, ppn, x, level) == WalkFrom(t, ppn, y, level)
    decreases level
  {
    SameFields(x, y, level);
    if ppn < U64 && ppn in t.nodes && level > 0 {
      SameWalk(t, Ppn(t.nodes[ppn][ExtractVpn(x, level)]), x, y, level - 1);
    }
  }

  lemma SameFields(x: nat, y: nat, level: nat)
    requires x % 0x80_0000_0000 == y % 0x80_0000_0000 && level <= 2
    ensures ExtractVpn(x, level) == ExtractVpn(y, level)
    ensures And(x, Pow2(12 + level * 9) - 1) == And(y, Pow2(12 + level * 9) - 1)
  {
    PageOfLow(x);
    PageOfLow(y);
    VpnsOfPage(x);
    VpnsOfPage(y);
    MaskOfLow(x, level);
    MaskOfLow(y, level);
  }

  lemma MaskOfLow(x: nat, level: nat)
    requires level <= 2
    ensures And(x, Pow2(12 + level * 9) - 1) == And(x % 0x80_0000_0000, Pow2(12 + level * 9) - 1)
  {
    var k := 12 + level * 9;
    LowFields(x, k, 39 - k);
    Pow2Values();
    Pow2Add(9, 30);
    ShrIsDiv(x, 39);
    AndMask(x, k);
    AndMask(x % 0x80_0000_0000, k);
  }

  lemma PageOfLow(x: nat)
    ensures PageOf(x) == (x % 0x80_0000_0000) / 4096 && x % 4096 == (x % 0x80_0000_0000) % 4096
  {
    var hi, lo := x / 0x80_0000_0000, x % 0x80_0000_0000;
    assert x == 4096 * (PAGES * hi + lo / 4096) + lo % 4096;
    assert x / 4096 == PAGES * hi + lo / 4096;
    DivUnique(x / 4096, PAGES, hi, lo / 4096);
  }

  // ---------- how many nodes a run allocates ----------

  lemma {:induction false} Level1Size(level1: set<nat>)
    ensures |set v2 | v2 in level1 :: Level1(v2)| == |level1|
    decreases |level1|
  {
    if level1 != {} {
      var v2 :| v2 in level1;
      Level1Size(level1 - {v2});
      assert (set w | w in level1 :: Level1(w)) == (set w | w in level1 - {v2} :: Level1(w)) + {Level1(v2)};
    }
  }

  lemma {:induction false} Level0Size(level0: set<(nat, nat)>)
    ensures |set p | p in level0 :: Level0(p.0, p.1)| == |level0|
    decreases |level0|
  {
    if level0 != {} {
      var p :| p in level0;
      Level0Size(level0 - {p});
      assert (set q | q in level0 :: Level0(q.0, q.1))
          == (set q | q in level0 - {p} :: Level0(q.0, q.1)) + {Level0(p.0, p.1)};
    }
  }

  // Every run allocates one node per distinct VPN[2] and one per distinct pair
  // (VPN[2], VPN[1]) of a map_page call, so node numbers always fit in an entry.
  lemma NodeCount(ops: seq<Op>)
    requires AllAdmissible(New(), ops)
    ensures var t := Run(New(), ops).table;
            t.next - t.root == 1 + |Level1Set(ops)| + |Level0Set(ops)| <= MAX_NODES && t.next < PPN_LIMIT
  {
    var tree' := RunFromNew(ops);
    NodesOfRoles(Run(New(), ops).table, tree', Level1Set(ops), Level0Set(ops));
  }

  lemma NodesOfRoles(t: Table, tree: Tree, level1: set<nat>, level0: set<(nat, nat)>)
    requires Inv(t, tree) && tree.Keys == {Root} + Roles(level1, level0)
    ensures t.next - t.root == 1 + |level1| + |level0| <= MAX_NODES && t.next < PPN_LIMIT
  {
    var a, b := set v2 | v2 in level1 :: Level1(v2), set p | p in level0 :: Level0(p.0, p.1);
    TreeSize(t, tree);
    Level1Size(level1);
    Level0Size(level0);
    assert tree.Keys == {Root} + (a + b) && a !! b;
    assert |a + b| == |a| + |b| && |tree.Keys| == 1 + |a + b|;
    assert |tree| == |tree.Keys|;
  }
}
