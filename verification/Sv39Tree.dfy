/** The shape of the page table: the nodes form a tree of three typed levels
    without sharing. `tree` records which node plays which role; it is a proof
    device, the table itself does not store it. */
module Sv39Tree {
  import opened Bits
  import opened Sv39Bits
  import opened Sv39Model
  import opened Wrappers

  datatype Role = Root | Level1(v2: nat) | Level0(v2: nat, v1: nat)

  type Tree = map<Role, u64>

  predicate RoleOk(r: Role) {
    match r
    case Root => true
    case Level1(v2) => v2 < PT_ENTRIES
    case Level0(v2, v1) => v2 < PT_ENTRIES && v1 < PT_ENTRIES
  }

  ghost predicate NodesOk(t: Table, tree: Tree) {
    && t.root == ROOT_PPN
    && t.next == ROOT_PPN + |tree|
    && (forall p: u64 :: p in t.nodes <==> t.root <= p < t.next)
  }

  ghost predicate RolesOk(t: Table, tree: Tree) {
    && Root in tree && tree[Root] == t.root
    && (forall r :: r in tree ==> RoleOk(r) && tree[r] in t.nodes)
    && (forall v2, v1 :: Level0(v2, v1) in tree ==> Level1(v2) in tree)
    && (forall r1, r2 :: r1 in tree && r2 in tree && tree[r1] == tree[r2] ==> r1 == r2)
  }

  /** A root entry is invalid or points to its own level-1 node. */
  ghost predicate RootEntryOk(t: Table, tree: Tree, v2: nat)
    requires v2 < PT_ENTRIES
  {
    var e := t.Entry(t.root, v2);
    if Level1(v2) in tree then e == PointerPte(tree[Level1(v2)]) else !IsValid(e)
  }

  /** A level-1 entry is a superpage leaf, or it is invalid or points to its own
      level-0 node. */
  ghost predicate Level1EntryOk(t: Table, tree: Tree, v2: nat, v1: nat)
    requires v1 < PT_ENTRIES && Level1(v2) in tree
  {
    var e := t.Entry(tree[Level1(v2)], v1);
    || (IsValid(e) && IsLeaf(e))
    || if Level0(v2, v1) in tree then e == PointerPte(tree[Level0(v2, v1)]) else !IsValid(e)
  }

  ghost predicate Inv(t: Table, tree: Tree) {
    && NodesOk(t, tree)
    && RolesOk(t, tree)
    && (forall v2 :: 0 <= v2 < PT_ENTRIES ==> RootEntryOk(t, tree, v2))
    && (forall v2, v1 :: Level1(v2) in tree && 0 <= v1 < PT_ENTRIES ==> Level1EntryOk(t, tree, v2, v1))
  }

  /** How the walk for a 4 KB virtual page ends: in a fault, in a 4 KB leaf, or in
      a 2 MB leaf, with the physical page number that results. */
  datatype Walk = Fault | Small(ppn: nat) | Mega(ppn: nat) {
    function Resolve(): Option<nat> {
      if Fault? then None else Some(ppn)
    }
  }

  /** The walk of the virtual page (v2, v1, v0), read off the entries on its path. */
  function PageWalk(t: Table, v2: nat, v1: nat, v0: nat): Walk
    requires v2 < PT_ENTRIES && v1 < PT_ENTRIES && v0 < PT_ENTRIES
  {
    var e2 := t.Entry(t.root, v2);
    if !IsValid(e2) then Fault
    else
      var e1 := t.Entry(Ppn(e2), v1);
      if !IsValid(e1) then Fault
      else if IsLeaf(e1) then Mega(Or(Ppn(e1), v0))
      else LeafWalk(t.Entry(Ppn(e1), v0))
  }

  /** What a level-0 entry contributes to a walk. */
  function LeafWalk(e: nat): Walk {
    if IsValid(e) && IsLeaf(e) then Small(Ppn(e)) else Fault
  }

  /** Does a superpage cover the region? A caller can ask this of the table. */
  predicate Superpaged(t: Table, v2: nat, v1: nat)
    requires v2 < PT_ENTRIES && v1 < PT_ENTRIES
  {
    PageWalk(t, v2, v1, 0).Mega?
  }

  ghost predicate SameWalks(t: Table, t': Table) {
    forall v2, v1, v0 :: 0 <= v2 < PT_ENTRIES && 0 <= v1 < PT_ENTRIES && 0 <= v0 < PT_ENTRIES ==>
      PageWalk(t', v2, v1, v0) == PageWalk(t, v2, v1, v0)
  }

  // ---------- size of the tree ----------

  function RoleCode(r: Role): nat {
    match r
    case Root => 0
    case Level1(v2) => 1 + v2
    case Level0(v2, v1) => 513 + v2 * 512 + v1
  }

  const MAX_NODES: nat := 1 + 512 + 512 * 512

  lemma RoleCodeInjective(r1: Role, r2: Role)
    requires RoleOk(r1) && RoleOk(r2) && RoleCode(r1) == RoleCode(r2)
    ensures r1 == r2
  {
  }

  lemma {:induction false} RoleSetSize(roles: set<Role>, bound: nat)
    requires forall r :: r in roles ==> RoleOk(r) && RoleCode(r) < bound
    ensures |roles| <= bound
    decreases bound
  {
    if bound == 0 {
      assert roles == {};
    } else if r :| r in roles && RoleCode(r) == bound - 1 {
      forall q | q in roles - {r} ensures RoleOk(q) && RoleCode(q) < bound - 1 {
        if RoleCode(q) == bound - 1 {
          RoleCodeInjective(q, r);
        }
      }
      RoleSetSize(roles - {r}, bound - 1);
    } else {
      RoleSetSize(roles, bound - 1);
    }
  }

  // A tree has at most 2^18 + 2^9 + 1 nodes, so page numbers of nodes fit in an entry.
  lemma TreeSize(t: Table, tree: Tree)
    requires Inv(t, tree)
    ensures |tree| <= MAX_NODES && t.next < PPN_LIMIT
  {
    forall r | r in tree.Keys ensures RoleOk(r) && RoleCode(r) < MAX_NODES {
    }
    RoleSetSize(tree.Keys, MAX_NODES);
    assert |tree.Keys| == |tree|;
  }

  // The entries on the path to a level-0 node, decoded.
  lemma PathOk(t: Table, tree: Tree, v2: nat, v1: nat)
    requires Inv(t, tree) && v2 < PT_ENTRIES && v1 < PT_ENTRIES
    ensures RootEntryOk(t, tree, v2)
    ensures forall r :: r in tree ==>
              var e := PointerPte(tree[r]);
              IsValid(e) && !IsLeaf(e) && Ppn(e) == tree[r]
    ensures Level1(v2) in tree ==> Level1EntryOk(t, tree, v2, v1)
  {
    TreeSize(t, tree);
    forall r | r in tree
      ensures var e := PointerPte(tree[r]); IsValid(e) && !IsLeaf(e) && Ppn(e) == tree[r]
    {
      PointerFacts(tree[r]);
    }
  }

  function Range(a: nat, b: nat): (r: set<u64>)
    requires a <= b < U64
    ensures |r| == b - a && forall p :: p in r <==> a <= p < b
    decreases b
  {
    if a == b then {} else Range(a, b - 1) + {b - 1}
  }

  lemma {:induction false} ImageSize(tree: Tree, roles: set<Role>)
    requires roles <= tree.Keys
    requires forall r1, r2 :: r1 in tree && r2 in tree && tree[r1] == tree[r2] ==> r1 == r2
    ensures |set r | r in roles :: tree[r]| == |roles|
    decreases |roles|
  {
    if roles != {} {
      var r :| r in roles;
      ImageSize(tree, roles - {r});
      assert (set q | q in roles :: tree[q]) == (set q | q in roles - {r} :: tree[q]) + {tree[r]};
    }
  }

  lemma SubsetOfSameSize(a: set<u64>, b: set<u64>)
    requires a <= b && |a| == |b|
    ensures a == b
  {
    assert b == a + (b - a);
  }

  // Every node plays a role: there are no orphans.
  lemma NodeHasRole(t: Table, tree: Tree, p: u64) returns (r: Role)
    requires Inv(t, tree) && p in t.nodes
    ensures r in tree && tree[r] == p
  {
    var image, range := set q | q in tree.Keys :: tree[q], Range(t.root, t.next);
    ImageSize(tree, tree.Keys);
    assert image <= range && |tree.Keys| == |tree|;
    SubsetOfSameSize(image, range);
    assert p in image;
    r :| r in tree && tree[r] == p;
  }

  // ---------- growing the tree ----------

  /** Allocate a node and link it at entry i of node p. */
  function Link(t: Table, p: u64, i: nat): Table
    requires p in t.nodes && i < PT_ENTRIES
  {
    t.Alloc().Write(p, i, PointerPte(t.next))
  }

  lemma NewInv()
    ensures Inv(New(), map[Root := ROOT_PPN])
    ensures forall v2, v1, v0 :: 0 <= v2 < PT_ENTRIES && 0 <= v1 < PT_ENTRIES && 0 <= v0 < PT_ENTRIES ==>
              PageWalk(New(), v2, v1, v0) == Fault
  {
  }

  /** t' differs from t in the one entry i of node p, which is e in t'. */
  ghost predicate OneEntry(t: Table, t': Table, p: nat, i: nat, e: nat)
    requires i < PT_ENTRIES
  {
    && t'.root == t.root
    && (forall q: nat, j: nat :: j < PT_ENTRIES ==>
          t'.Entry(q, j) == if q == p && j == i then e else t.Entry(q, j))
  }

  // Linking a fresh node changes one entry: the fresh node reads as it did before,
  // without valid entries.
  lemma LinkIsOneEntry(t: Table, tree: Tree, p: u64, i: nat)
    requires NodesOk(t, tree) && t.next < PPN_LIMIT && p in t.nodes && i < PT_ENTRIES
    ensures OneEntry(t, Link(t, p, i), p, i, PointerPte(t.next))
  {
  }

  lemma GrowNodes(t: Table, tree: Tree, p: u64, i: nat, r: Role)
    requires NodesOk(t, tree) && RolesOk(t, tree) && t.next < PPN_LIMIT
    requires p in t.nodes && i < PT_ENTRIES
    requires RoleOk(r) && r !in tree && (r.Level0? ==> Level1(r.v2) in tree)
    ensures NodesOk(Link(t, p, i), tree[r := t.next]) && RolesOk(Link(t, p, i), tree[r := t.next])
  {
    var t', tree' := Link(t, p, i), tree[r := t.next];
    assert |tree'| == |tree| + 1;
    assert forall q: u64 :: q in t'.nodes <==> q in t.nodes || q == t.next;
    assert t.next !in t.nodes;
  }

  lemma GrowLevel1(t: Table, tree: Tree, v2: nat)
    requires Inv(t, tree) && v2 < PT_ENTRIES && Level1(v2) !in tree
    ensures Inv(Link(t, t.root, v2), tree[Level1(v2) := t.next])
    ensures SameWalks(t, Link(t, t.root, v2))
  {
    var t', tree' := Link(t, t.root, v2), tree[Level1(v2) := t.next];
    TreeSize(t, tree);
    LinkIsOneEntry(t, tree, t.root, v2);
    GrowNodes(t, tree, t.root, v2, Level1(v2));
    forall w2 | 0 <= w2 < PT_ENTRIES ensures RootEntryOk(t', tree', w2) {
      assert RootEntryOk(t, tree, w2);
    }
    forall w2, w1 | Level1(w2) in tree' && 0 <= w1 < PT_ENTRIES ensures Level1EntryOk(t', tree', w2, w1) {
      if w2 != v2 {
        assert Level1EntryOk(t, tree, w2, w1);
      }
    }
    Level1LinkWalks(t, t', tree, v2);
  }

  lemma Level1LinkWalks(t: Table, t': Table, tree: Tree, v2: nat)
    requires Inv(t, tree) && v2 < PT_ENTRIES && Level1(v2) !in tree && t.next < PPN_LIMIT
    requires OneEntry(t, t', t.root, v2, PointerPte(t.next))
    ensures SameWalks(t, t')
  {
    PointerFacts(t.next);
    forall w2, w1, w0 | 0 <= w2 < PT_ENTRIES && 0 <= w1 < PT_ENTRIES && 0 <= w0 < PT_ENTRIES
      ensures PageWalk(t', w2, w1, w0) == PageWalk(t, w2, w1, w0)
    {
      PathOk(t, tree, w2, w1);
    }
  }

  lemma GrowLevel0(t: Table, tree: Tree, v2: nat, v1: nat)
    requires Inv(t, tree) && v1 < PT_ENTRIES
    requires Level1(v2) in tree && Level0(v2, v1) !in tree && v2 < PT_ENTRIES && !Superpaged(t, v2, v1)
    ensures Inv(Link(t, tree[Level1(v2)], v1), tree[Level0(v2, v1) := t.next])
    ensures SameWalks(t, Link(t, tree[Level1(v2)], v1))
  {
    var p1 := tree[Level1(v2)];
    var t', tree' := Link(t, p1, v1), tree[Level0(v2, v1) := t.next];
    TreeSize(t, tree);
    LinkIsOneEntry(t, tree, p1, v1);
    GrowNodes(t, tree, p1, v1, Level0(v2, v1));
    forall w2 | 0 <= w2 < PT_ENTRIES ensures RootEntryOk(t', tree', w2) {
      assert RootEntryOk(t, tree, w2);
    }
    forall w2, w1 | Level1(w2) in tree' && 0 <= w1 < PT_ENTRIES ensures Level1EntryOk(t', tree', w2, w1) {
      assert Level1EntryOk(t, tree, w2, w1);
    }
    Level0LinkWalks(t, t', tree, v2, v1);
  }

  lemma Level0LinkWalks(t: Table, t': Table, tree: Tree, v2: nat, v1: nat)
    requires Inv(t, tree) && v2 < PT_ENTRIES && v1 < PT_ENTRIES && t.next < PPN_LIMIT
    requires Level1(v2) in tree && Level0(v2, v1) !in tree && !Superpaged(t, v2, v1)
    requires OneEntry(t, t', tree[Level1(v2)], v1, PointerPte(t.next))
    ensures SameWalks(t, t')
  {
    PointerFacts(t.next);
    forall w2, w1, w0 | 0 <= w2 < PT_ENTRIES && 0 <= w1 < PT_ENTRIES && 0 <= w0 < PT_ENTRIES
      ensures PageWalk(t', w2, w1, w0) == PageWalk(t, w2, w1, w0)
    {
      PathOk(t, tree, w2, w1);
    }
  }

  // ---------- writing leaves ----------

  ghost predicate WalksUpdated(t: Table, t': Table, v2: nat, v1: nat, v0: nat, r: Walk) {
    forall w2, w1, w0 :: 0 <= w2 < PT_ENTRIES && 0 <= w1 < PT_ENTRIES && 0 <= w0 < PT_ENTRIES ==>
      PageWalk(t', w2, w1, w0) == if w2 == v2 && w1 == v1 && w0 == v0 then r else PageWalk(t, w2, w1, w0)
  }

  ghost predicate RegionUpdated(t: Table, t': Table, v2: nat, v1: nat, base: nat) {
    forall w2, w1, w0 :: 0 <= w2 < PT_ENTRIES && 0 <= w1 < PT_ENTRIES && 0 <= w0 < PT_ENTRIES ==>
      PageWalk(t', w2, w1, w0) == if w2 == v2 && w1 == v1 then Mega(Or(base, w0)) else PageWalk(t, w2, w1, w0)
  }

  lemma WriteLevel0(t: Table, tree: Tree, v2: nat, v1: nat, v0: nat, e: u64)
    requires Inv(t, tree) && v2 < PT_ENTRIES && v1 < PT_ENTRIES && v0 < PT_ENTRIES
    requires Level0(v2, v1) in tree && Level1(v2) in tree && !Superpaged(t, v2, v1)
    ensures Inv(t.Write(tree[Level0(v2, v1)], v0, e), tree)
    ensures WalksUpdated(t, t.Write(tree[Level0(v2, v1)], v0, e), v2, v1, v0, LeafWalk(e))
  {
    var p0 := tree[Level0(v2, v1)];
    var t' := t.Write(p0, v0, e);
    assert OneEntry(t, t', p0, v0, e);
    TreeSize(t, tree);
    forall w2 | 0 <= w2 < PT_ENTRIES ensures RootEntryOk(t', tree, w2) {
      assert RootEntryOk(t, tree, w2);
    }
    forall w2, w1 | Level1(w2) in tree && 0 <= w1 < PT_ENTRIES ensures Level1EntryOk(t', tree, w2, w1) {
      assert Level1EntryOk(t, tree, w2, w1);
    }
    forall w2, w1, w0 | 0 <= w2 < PT_ENTRIES && 0 <= w1 < PT_ENTRIES && 0 <= w0 < PT_ENTRIES
      ensures PageWalk(t', w2, w1, w0)
           == if w2 == v2 && w1 == v1 && w0 == v0 then LeafWalk(e) else PageWalk(t, w2, w1, w0)
    {
      PathOk(t, tree, w2, w1);
    }
  }

  // A leaf at level 1 covers the whole region, whatever the entry was before.
  lemma WriteLevel1Leaf(t: Table, tree: Tree, v2: nat, v1: nat, e: u64)
    requires Inv(t, tree) && v2 < PT_ENTRIES && v1 < PT_ENTRIES
    requires Level1(v2) in tree && IsValid(e) && IsLeaf(e)
    ensures Inv(t.Write(tree[Level1(v2)], v1, e), tree)
    ensures RegionUpdated(t, t.Write(tree[Level1(v2)], v1, e), v2, v1, Ppn(e))
  {
    var p1 := tree[Level1(v2)];
    var t' := t.Write(p1, v1, e);
    assert OneEntry(t, t', p1, v1, e);
    TreeSize(t, tree);
    forall w2 | 0 <= w2 < PT_ENTRIES ensures RootEntryOk(t', tree, w2) {
      assert RootEntryOk(t, tree, w2);
    }
    forall w2, w1 | Level1(w2) in tree && 0 <= w1 < PT_ENTRIES ensures Level1EntryOk(t', tree, w2, w1) {
      assert Level1EntryOk(t, tree, w2, w1);
    }
    forall w2, w1, w0 | 0 <= w2 < PT_ENTRIES && 0 <= w1 < PT_ENTRIES && 0 <= w0 < PT_ENTRIES
      ensures PageWalk(t', w2, w1, w0)
           == if w2 == v2 && w1 == v1 then Mega(Or(Ppn(e), w0)) else PageWalk(t, w2, w1, w0)
    {
      PathOk(t, tree, w2, w1);
    }
  }

  // ---------- one map_page call ----------

  // Creating a missing node first and then calling map_page again comes to the same.
  lemma MapPageLevel1(t: Table, tree: Tree, va: u64, pa: u64, flags: u64)
    requires Inv(t, tree) && Level1(ExtractVpn(va, 2)) !in tree
    ensures MapPage(t, va, pa, flags) == MapPage(Link(t, t.root, ExtractVpn(va, 2)), va, pa, flags)
  {
    var v2 := ExtractVpn(va, 2);
    TreeSize(t, tree);
    PointerFacts(t.next);
    assert RootEntryOk(t, tree, v2);
    var t' := Link(t, t.root, v2);
    assert t'.nodes[t'.root][v2] == PointerPte(t.next);
    assert MapPage(t', va, pa, flags) == MapFrom(t', t.next, va, pa, flags, 1);
  }

  lemma MapPageLevel0(t: Table, tree: Tree, va: u64, pa: u64, flags: u64)
    requires Inv(t, tree) && Level1(ExtractVpn(va, 2)) in tree
    requires Level0(ExtractVpn(va, 2), ExtractVpn(va, 1)) !in tree
    requires !Superpaged(t, ExtractVpn(va, 2), ExtractVpn(va, 1))
    ensures MapPage(t, va, pa, flags)
         == MapPage(Link(t, tree[Level1(ExtractVpn(va, 2))], ExtractVpn(va, 1)), va, pa, flags)
  {
    var v2, v1 := ExtractVpn(va, 2), ExtractVpn(va, 1);
    var p1 := tree[Level1(v2)];
    TreeSize(t, tree);
    PointerFacts(t.next);
    PathOk(t, tree, v2, v1);
    var t' := Link(t, p1, v1);
    assert t'.nodes[t'.root][v2] == PointerPte(p1);
    assert t'.nodes[p1][v1] == PointerPte(t.next);
    assert MapPage(t, va, pa, flags) == MapFrom(t, p1, va, pa, flags, 1);
    assert MapPage(t', va, pa, flags) == MapFrom(t', p1, va, pa, flags, 1);
  }

  lemma MapPageLeaf(t: Table, tree: Tree, va: u64, pa: u64, flags: u64)
    requires Inv(t, tree) && Level1(ExtractVpn(va, 2)) in tree
    requires Level0(ExtractVpn(va, 2), ExtractVpn(va, 1)) in tree
    requires !Superpaged(t, ExtractVpn(va, 2), ExtractVpn(va, 1))
    ensures MapPage(t, va, pa, flags)
         == Outcome(t.Write(tree[Level0(ExtractVpn(va, 2), ExtractVpn(va, 1))],
                            ExtractVpn(va, 0), LeafPte(pa, flags)), false)
  {
    var v2, v1 := ExtractVpn(va, 2), ExtractVpn(va, 1);
    var p1, p0 := tree[Level1(v2)], tree[Level0(v2, v1)];
    PathOk(t, tree, v2, v1);
    assert MapPage(t, va, pa, flags) == MapFrom(t, p1, va, pa, flags, 1);
    assert MapFrom(t, p1, va, pa, flags, 1) == MapFrom(t, p0, va, pa, flags, 0);
  }
}
