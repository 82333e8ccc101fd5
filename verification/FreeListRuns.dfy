/** Whole runs of the free-list allocator: safety, byte accounting, and what happens
    when every request has the same layout. */
module FreeListRuns {
  import opened Bits
  import opened Alignment
  import opened HeapRoom
  import opened FreeListModel
  import opened Wrappers

  /** A client allocates, or frees one of its live chunks (by its place in `live`). */
  datatype Op = Malloc(layout: Layout) | Free(i: nat)

  predicate Disciplined(h: Heap, s: State, op: Op) {
    match op
    case Malloc(layout) => Allowed(h, s, layout)
    case Free(i) => i < |s.live|
  }

  function Apply(h: Heap, s: State, op: Op): State
    requires Disciplined(h, s, op)
  {
    match op
    case Malloc(layout) => Alloc(h, s, layout).0
    case Free(i) => Dealloc(s, i)
  }

  predicate AllDisciplined(h: Heap, s: State, ops: seq<Op>)
    decreases |ops|
  {
    ops == [] || (Disciplined(h, s, ops[0]) && AllDisciplined(h, Apply(h, s, ops[0]), ops[1..]))
  }

  function Run(h: Heap, s: State, ops: seq<Op>): State
    requires AllDisciplined(h, s, ops)
    decreases |ops|
  {
    if ops == [] then s else Run(h, Apply(h, s, ops[0]), ops[1..])
  }

  lemma {:induction false} RunKeepsInv(h: Heap, s: State, ops: seq<Op>)
    requires h.Valid() && Inv(h, s) && AllDisciplined(h, s, ops)
    ensures Inv(h, Run(h, s, ops))
    decreases |ops|
  {
    if ops != [] {
      match ops[0] {
        case Malloc(layout) => AllocKeepsInvIff(h, s, layout);
        case Free(i) => DeallocKeepsInv(h, s, i);
      }
      RunKeepsInv(h, Apply(h, s, ops[0]), ops[1..]);
    }
  }

  // In every run the free and the live chunks together are pairwise disjoint,
  // 8-aligned, large enough for a header, and inside the part of the heap used so far.
  lemma ChunksAreDisjoint(h: Heap, ops: seq<Op>)
    requires h.Valid() && AllDisciplined(h, Start(h), ops)
    ensures var s := Run(h, Start(h), ops);
            var all := s.free + s.live;
            && h.start <= s.bump <= h.end
            && (forall i, j :: 0 <= i < j < |all| ==> Apart(all[i], all[j]))
            && (forall c :: c in all ==> c.addr % 8 == 0 && c.size >= 16 && h.start <= c.addr && c.End() <= s.bump)
  {
    RunKeepsInv(h, Start(h), ops);
    var s := Run(h, Start(h), ops);
    forall i, j | 0 <= i < j < |s.free + s.live| ensures Apart((s.free + s.live)[i], (s.free + s.live)[j]) {
    }
  }

  // The chunk an allocation returns is aligned as asked, and covers what was asked.
  lemma AllocMeetsRequest(h: Heap, s: State, layout: Layout)
    requires Inv(h, s) && Allowed(h, s, layout) && Alloc(h, s, layout).1.Some?
    ensures var (s', p) := Alloc(h, s, layout);
            var c := s'.live[|s'.live| - 1];
            && |s'.live| == |s.live| + 1 && c.addr == p.value && c.size >= layout.size
            && c.addr % layout.Align() == 0
  {
    var request := Normal(layout);
    if FirstFit(s.free, request, 0).None? {
      FreshBlock(h, s, layout);
    }
    MultipleOfSmaller(Alloc(h, s, layout).1.value, layout.alignLog, request.alignLog);
  }

  // ---------- what an allocation answers, in plain numbers ----------

  /** The size and the alignment a request is served with. */
  function ServedSize(layout: Layout): nat {
    if layout.size < 16 then 16 else layout.size
  }

  function ServedAlign(layout: Layout): nat {
    if layout.Align() < 8 then 8 else layout.Align()
  }

  predicate Usable(c: Chunk, layout: Layout) {
    ServedAlign(layout) > 0 && c.addr % ServedAlign(layout) == 0 && c.size >= ServedSize(layout)
  }

  /** Chunk k is the first in the list that can serve the request. */
  predicate IsFirstUsable(free: seq<Chunk>, layout: Layout, k: nat) {
    k < |free| && Usable(free[k], layout) && forall j :: 0 <= j < k ==> !Usable(free[j], layout)
  }

  ghost predicate NoneUsable(free: seq<Chunk>, layout: Layout) {
    forall i :: 0 <= i < |free| ==> !Usable(free[i], layout)
  }

  /** An aligned place for the request from the bump pointer up to the heap's end. */
  predicate IsPlace(h: Heap, s: State, layout: Layout, r: nat) {
    ServedAlign(layout) > 0 && s.bump <= r && r % ServedAlign(layout) == 0 && r + ServedSize(layout) <= h.end
  }

  lemma NormalIsServed(layout: Layout)
    ensures Normal(layout).size == ServedSize(layout) && Normal(layout).Align() == ServedAlign(layout)
    ensures forall c: Chunk :: Usable(c, layout) <==> Suits(c, Normal(layout))
  {
    assert Pow2(3) == 8;
    if layout.alignLog >= 3 {
      Pow2Monotone(3, layout.alignLog);
    } else {
      Pow2Add(layout.alignLog, 3 - layout.alignLog);
      assert Pow2(2) == 4 && Pow2(1) == 2;
    }
  }

  // If a free chunk can serve the request, the first such chunk in the list does: its
  // address is the answer, it leaves the list, and the bump pointer stays.
  lemma AllocReuses(h: Heap, s: State, layout: Layout, k: nat)
    requires layout.alignLog < 64 && IsFirstUsable(s.free, layout, k)
    ensures var c := s.free[k];
            Alloc(h, s, layout) == (State(s.bump, s.free[..k] + s.free[k + 1..],
                                          s.live + [Chunk(c.addr, ServedSize(layout))]), Some(c.addr))
  {
    NormalIsServed(layout);
  }

  // Otherwise, if the bump pointer can be aligned, the answer is the first aligned place
  // that ends inside the heap, and the pointer moves to its end; or null, and nothing
  // changes, if there is no such place.
  lemma AllocBumps(h: Heap, s: State, layout: Layout)
    requires Inv(h, s) && layout.alignLog < 64 && NoneUsable(s.free, layout)
    requires s.bump + ServedAlign(layout) <= U64 || ServedSize(layout) > h.end
    ensures var (s', p) := Alloc(h, s, layout);
            if p.None? then s' == s && forall r: nat :: !IsPlace(h, s, layout, r)
            else
              && IsPlace(h, s, layout, p.value) && (forall r: nat :: IsPlace(h, s, layout, r) ==> p.value <= r)
              && s' == State(p.value + ServedSize(layout), s.free, s.live + [Chunk(p.value, ServedSize(layout))])
  {
    var request := Normal(layout);
    NormalIsServed(layout);
    FitIffRoom(h, s.bump, request);
    assert FirstFit(s.free, request, 0) == None;
    forall r: nat | IsPlace(h, s, layout, r)
      ensures Fit(h, s.bump, request).Some? && Fit(h, s.bump, request).value <= r
    {
      assert AlignedFrom(r, s.bump, request.Align());
      FirstMultipleLeast(Fit(h, s.bump, request).value, r, s.bump, request.Align());
    }
  }

  // So null is the answer exactly when no free chunk and no place in the rest of the heap
  // can serve the request.
  lemma NullIffNoRoom(h: Heap, s: State, layout: Layout)
    requires Inv(h, s) && Allowed(h, s, layout)
    ensures Alloc(h, s, layout).1 == None <==>
            NoneUsable(s.free, layout) && forall r: nat :: !IsPlace(h, s, layout, r)
  {
    AllowedIff(h, s, layout);
    if !NoneUsable(s.free, layout) {
      var k := FirstUsable(s.free, layout);
      AllocReuses(h, s, layout, k);
    } else {
      AllocBumps(h, s, layout);
    }
  }

  lemma {:induction false} FirstUsable(free: seq<Chunk>, layout: Layout) returns (k: nat)
    requires !NoneUsable(free, layout)
    ensures IsFirstUsable(free, layout, k)
  {
    if Usable(free[0], layout) {
      k := 0;
    } else {
      k := FirstUsable(free[1..], layout);
      k := k + 1;
    }
  }

  // A freed chunk is the first to be reused: the next request it can serve gets it.
  lemma FreedIsReusedFirst(h: Heap, s: State, i: nat, layout: Layout)
    requires i < |s.live| && layout.alignLog < 64 && Usable(s.live[i], layout)
    ensures Alloc(h, Dealloc(s, i), layout).1 == Some(s.live[i].addr)
    ensures Alloc(h, Dealloc(s, i), layout).0.free == s.free
    ensures Alloc(h, Dealloc(s, i), layout).0.live
         == s.live[..i] + s.live[i + 1..] + [Chunk(s.live[i].addr, ServedSize(layout))]
  {
    AllocReuses(h, Dealloc(s, i), layout, 0);
  }

  // What the caller has to check, in the same numbers.
  lemma AllowedIff(h: Heap, s: State, layout: Layout)
    ensures Allowed(h, s, layout) <==>
            layout.alignLog < 64
            && (!NoneUsable(s.free, layout) || s.bump + ServedAlign(layout) <= 0x1_0000_0000_0000_0000
                || ServedSize(layout) > h.end)
  {
    NormalIsServed(layout);
  }

  // ---------- byte accounting ----------

  function Bytes(cs: seq<Chunk>): nat {
    if cs == [] then 0 else cs[0].size + Bytes(cs[1..])
  }

  lemma {:induction false} BytesAppend(cs: seq<Chunk>, ds: seq<Chunk>)
    ensures Bytes(cs + ds) == Bytes(cs) + Bytes(ds)
  {
    if cs == [] {
      assert cs + ds == ds;
    } else {
      assert (cs + ds)[1..] == cs[1..] + ds;
      BytesAppend(cs[1..], ds);
    }
  }

  lemma BytesWithout(cs: seq<Chunk>, k: nat)
    requires k < |cs|
    ensures Bytes(Without(cs, k)) == Bytes(cs) - cs[k].size
  {
    assert cs == cs[..k] + cs[k..] && cs[k..][1..] == cs[k + 1..];
    BytesAppend(cs[..k], cs[k..]);
    BytesAppend(cs[..k], cs[k + 1..]);
  }

  /** The bytes one operation loses: alignment padding when it takes fresh memory, and
      what a reused chunk has beyond the request. */
  function Lost(h: Heap, s: State, op: Op): int
    requires Disciplined(h, s, op)
  {
    match op
    case Free(_) => 0
    case Malloc(layout) =>
      var request := Normal(layout);
      match FirstFit(s.free, request, 0)
      case Some(k) => s.free[k].size - request.size
      case None =>
        match Fit(h, s.bump, request)
        case None => 0
        case Some(start) => start - s.bump
  }

  function Waste(h: Heap, s: State, ops: seq<Op>): int
    requires AllDisciplined(h, s, ops)
    decreases |ops|
  {
    if ops == [] then 0 else Lost(h, s, ops[0]) + Waste(h, Apply(h, s, ops[0]), ops[1..])
  }

  lemma ApplyAccounts(h: Heap, s: State, op: Op)
    requires h.Valid() && Inv(h, s) && Disciplined(h, s, op)
    ensures var s' := Apply(h, s, op);
            s'.bump - s.bump == Bytes(s'.free) + Bytes(s'.live) - Bytes(s.free) - Bytes(s.live) + Lost(h, s, op)
    ensures Lost(h, s, op) >= 0
  {
    match op
    case Free(i) =>
      BytesWithout(s.live, i);
      BytesAppend([s.live[i]], s.free);
    case Malloc(layout) =>
      var request := Normal(layout);
      match FirstFit(s.free, request, 0)
      case Some(k) =>
        BytesWithout(s.free, k);
        BytesAppend(s.live, [Chunk(s.free[k].addr, request.size)]);
      case None =>
        if Fit(h, s.bump, request).Some? {
          FreshBlock(h, s, layout);
          BytesAppend(s.live, [Chunk(Fit(h, s.bump, request).value, request.size)]);
        }
  }

  lemma {:induction false} RunAccounts(h: Heap, s: State, ops: seq<Op>)
    requires h.Valid() && Inv(h, s) && AllDisciplined(h, s, ops)
    ensures var s' := Run(h, s, ops);
            s'.bump - s.bump
            == Bytes(s'.free) + Bytes(s'.live) - Bytes(s.free) - Bytes(s.live) + Waste(h, s, ops)
    ensures Waste(h, s, ops) >= 0
    decreases |ops|
  {
    if ops != [] {
      ApplyAccounts(h, s, ops[0]);
      RunKeepsInv(h, s, [ops[0]]);
      assert Run(h, s, [ops[0]]) == Apply(h, s, ops[0]);
      RunAccounts(h, Apply(h, s, ops[0]), ops[1..]);
    }
  }

  // Every byte taken from the heap is free, live or accounted for as waste.
  lemma EveryByteAccountedFor(h: Heap, ops: seq<Op>)
    requires h.Valid() && AllDisciplined(h, Start(h), ops)
    ensures var s := Run(h, Start(h), ops);
            s.bump - h.start == Bytes(s.free) + Bytes(s.live) + Waste(h, Start(h), ops)
  {
    RunAccounts(h, Start(h), ops);
  }

  // ---------- one layout for every request ----------

  predicate TakesFresh(h: Heap, s: State, op: Op)
    requires Disciplined(h, s, op)
  {
    Apply(h, s, op).bump != s.bump
  }

  /** How many operations of the run take memory from the bump region. */
  function FreshCount(h: Heap, s: State, ops: seq<Op>): nat
    requires AllDisciplined(h, s, ops)
    decreases |ops|
  {
    if ops == [] then 0
    else (if TakesFresh(h, s, ops[0]) then 1 else 0) + FreshCount(h, Apply(h, s, ops[0]), ops[1..])
  }

  /** The largest number of simultaneously live chunks, at least `peak`. */
  function Peak(h: Heap, s: State, ops: seq<Op>, peak: nat): nat
    requires AllDisciplined(h, s, ops)
    decreases |ops|
  {
    var now := if |s.live| > peak then |s.live| else peak;
    if ops == [] then now else Peak(h, Apply(h, s, ops[0]), ops[1..], now)
  }

  lemma PeakFrom(h: Heap, s: State, ops: seq<Op>, a: nat, b: nat)
    requires AllDisciplined(h, s, ops) && a <= b && (a == b || b <= |s.live|)
    ensures Peak(h, s, ops, a) == Peak(h, s, ops, b)
  {
  }

  predicate OneLayout(ops: seq<Op>, layout: Layout) {
    forall op :: op in ops && op.Malloc? ==> op.layout == layout
  }

  /** All chunks are interchangeable. */
  ghost predicate Uniform(s: State, layout: Layout) {
    forall c :: c in s.free || c in s.live ==> Suits(c, Normal(layout)) && c.size == Normal(layout).size
  }

  lemma UniformStep(h: Heap, s: State, op: Op, layout: Layout)
    requires h.Valid() && Inv(h, s) && Uniform(s, layout)
    requires Disciplined(h, s, op) && (op.Malloc? ==> op.layout == layout)
    ensures var s' := Apply(h, s, op);
            && Inv(h, s') && Uniform(s', layout)
            && |s'.free| + |s'.live| == |s.free| + |s.live| + (if TakesFresh(h, s, op) then 1 else 0)
            && (TakesFresh(h, s, op) ==> s.free == [] && |s'.live| == |s.live| + 1)
  {
    RunKeepsInv(h, s, [op]);
    assert Run(h, s, [op]) == Apply(h, s, op);
    match op
    case Free(i) =>
      assert s.live[i] in s.live;
    case Malloc(_) =>
      if s.free != [] {
        assert s.free[0] in s.free;
      } else if Fit(h, s.bump, Normal(layout)).Some? {
        FreshBlock(h, s, layout);
      }
  }

  // One more operation: fresh memory is taken only when every chunk is live.
  lemma PeakStep(h: Heap, s: State, ops: seq<Op>, layout: Layout, made: nat) returns (made': nat)
    requires h.Valid() && Inv(h, s) && Uniform(s, layout) && AllDisciplined(h, s, ops) && OneLayout(ops, layout)
    requires |s.free| + |s.live| == made && ops != []
    ensures var s' := Apply(h, s, ops[0]);
            && Inv(h, s') && Uniform(s', layout) && |s'.free| + |s'.live| == made'
            && Peak(h, s, ops, made) == Peak(h, s', ops[1..], made')
            && FreshCount(h, s, ops) == made' - made + FreshCount(h, s', ops[1..])
  {
    var s' := Apply(h, s, ops[0]);
    assert ops[0] in ops;
    UniformStep(h, s, ops[0], layout);
    made' := |s'.free| + |s'.live|;
    PeakFrom(h, s', ops[1..], made, made');
  }

  lemma {:induction false} UniformRun(h: Heap, s: State, ops: seq<Op>, layout: Layout, made: nat)
    requires h.Valid() && Inv(h, s) && Uniform(s, layout) && AllDisciplined(h, s, ops) && OneLayout(ops, layout)
    requires |s.free| + |s.live| == made
    ensures Peak(h, s, ops, made) == made + FreshCount(h, s, ops)
    decreases |ops|
  {
    if ops != [] {
      var made' := PeakStep(h, s, ops, layout, made);
      UniformRun(h, Apply(h, s, ops[0]), ops[1..], layout, made');
    }
  }

  // With a single layout, fresh memory is taken exactly as often as the peak number
  // of chunks live at once: no chunk is ever made that reuse could have saved.
  lemma FreshBlocksArePeak(h: Heap, ops: seq<Op>, layout: Layout)
    requires h.Valid() && AllDisciplined(h, Start(h), ops) && OneLayout(ops, layout)
    ensures FreshCount(h, Start(h), ops) == Peak(h, Start(h), ops, 0)
  {
    UniformRun(h, Start(h), ops, layout, 0);
  }

  /** The results of k allocations in a row. */
  function AllocMany(h: Heap, s: State, layout: Layout, k: nat): (State, seq<Option<nat>>)
    requires layout.alignLog < 64
    decreases k
  {
    if k == 0 then (s, [])
    else
      var (s1, p) := Alloc(h, s, layout);
      var (s2, ps) := AllocMany(h, s1, layout, k - 1);
      (s2, [p] + ps)
  }

  /** Free the last k live chunks, oldest first. */
  function FreeMany(s: State, k: nat): State
    requires k <= |s.live|
    decreases k
  {
    if k == 0 then s else FreeMany(Dealloc(s, |s.live| - k), k - 1)
  }

  function Addresses(cs: seq<Chunk>): (r: seq<Option<nat>>)
    ensures |r| == |cs|
  {
    seq(|cs|, i requires 0 <= i < |cs| => Some(cs[i].addr))
  }

  /** The last k chunks, latest first. */
  function LastReversed(cs: seq<Chunk>, k: nat): (r: seq<Chunk>)
    requires k <= |cs|
    ensures |r| == k
  {
    seq(k, i requires 0 <= i < k => cs[|cs| - 1 - i])
  }

  lemma LastReversedGrows(cs: seq<Chunk>, k: nat)
    requires 0 < k <= |cs|
    ensures LastReversed(cs, k) == LastReversed(Without(cs, |cs| - k), k - 1) + [cs[|cs| - k]]
  {
  }

  lemma {:induction false} FreeManyStacks(s: State, k: nat, layout: Layout)
    requires k <= |s.live| && Uniform(s, layout)
    ensures var s' := FreeMany(s, k);
            Uniform(s', layout) && s'.bump == s.bump && s'.free == LastReversed(s.live, k) + s.free
    decreases k
  {
    if k > 0 {
      var c := s.live[|s.live| - k];
      var s1 := Dealloc(s, |s.live| - k);
      assert c in s.live;
      FreeManyStacks(s1, k - 1, layout);
      LastReversedGrows(s.live, k);
      Reassociate(LastReversed(s1.live, k - 1), [c], s.free);
    }
  }

  lemma Reassociate(a: seq<Chunk>, b: seq<Chunk>, c: seq<Chunk>)
    ensures a + (b + c) == (a + b) + c
  {
  }

  lemma {:induction false} AllocManyPops(h: Heap, s: State, k: nat, layout: Layout)
    requires k <= |s.free| && Uniform(s, layout) && layout.alignLog < 64
    ensures var (s', ps) := AllocMany(h, s, layout, k);
            ps == Addresses(s.free[..k]) && s'.free == s.free[k..] && s'.bump == s.bump
    decreases k
  {
    if k > 0 {
      AllocPopsHead(h, s, layout);
      var s1 := Alloc(h, s, layout).0;
      AllocManyPops(h, s1, k - 1, layout);
      var (s2, ps) := AllocMany(h, s1, layout, k - 1);
      assert AllocMany(h, s, layout, k) == (s2, [Some(s.free[0].addr)] + ps);
      AddressesCons(s.free[0], s1.free[..k - 1]);
      TakeHead(s.free, k);
    }
  }

  lemma TakeHead(cs: seq<Chunk>, k: nat)
    requires 0 < k <= |cs|
    ensures cs[..k] == [cs[0]] + cs[1..][..k - 1] && cs[1..][k - 1..] == cs[k..]
  {
  }

  lemma AddressesCons(c: Chunk, cs: seq<Chunk>)
    ensures Addresses([c] + cs) == [Some(c.addr)] + Addresses(cs)
  {
  }

  lemma AllocPopsHead(h: Heap, s: State, layout: Layout)
    requires s.free != [] && Uniform(s, layout) && layout.alignLog < 64
    ensures var (s', p) := Alloc(h, s, layout);
            p == Some(s.free[0].addr) && s'.free == s.free[1..] && s'.bump == s.bump && Uniform(s', layout)
  {
    assert s.free[0] in s.free;
    assert Without(s.free, 0) == s.free[1..];
  }

  // Reuse is last in, first out: freeing the last k live chunks p1 .. pk and then
  // allocating k times returns pk .. p1 and restores the free list.
  lemma ReuseIsLifo(h: Heap, s: State, k: nat, layout: Layout)
    requires k <= |s.live| && Uniform(s, layout) && layout.alignLog < 64
    ensures var (s', ps) := AllocMany(h, FreeMany(s, k), layout, k);
            && s'.free == s.free && s'.bump == s.bump && |ps| == k
            && forall i :: 0 <= i < k ==> ps[i] == Some(s.live[|s.live| - 1 - i].addr)
  {
    FreeManyStacks(s, k, layout);
    AllocManyPops(h, FreeMany(s, k), k, layout);
    assert FreeMany(s, k).free[..k] == LastReversed(s.live, k) && FreeMany(s, k).free[k..] == s.free;
  }
}
