/** The free-list allocator (exercises/02_no_std_dev/03_free_list_allocator) as a
    sequence of free blocks, a list of live blocks, and a bump pointer. */
module FreeListModel {
  import opened Bits
  import opened Alignment
  import opened HeapRoom
  import opened Wrappers

  datatype Chunk = Chunk(addr: nat, size: nat) {
    function End(): nat {
      addr + size
    }
  }

  /** `free` is in list order, head first. A live chunk has the size its client asked
      for, raised to the size of a header. */
  datatype State = State(bump: u64, free: seq<Chunk>, live: seq<Chunk>)

  function Start(h: Heap): State {
    State(h.start, [], [])
  }

  const HEADER_SIZE: nat := 16
  const HEADER_ALIGN_LOG: nat := 3

  /** Room and alignment for a header are added to every request. */
  function Normal(layout: Layout): Layout {
    Layout(if layout.size < HEADER_SIZE then HEADER_SIZE else layout.size,
           if layout.alignLog < HEADER_ALIGN_LOG then HEADER_ALIGN_LOG else layout.alignLog)
  }

  predicate Suits(c: Chunk, request: Layout) {
    c.addr % request.Align() == 0 && c.size >= request.size
  }

  /** The first free chunk from i on that suits a request. */
  function FirstFit(free: seq<Chunk>, request: Layout, i: nat): (k: Option<nat>)
    requires i <= |free|
    ensures k.Some? ==> i <= k.value < |free| && Suits(free[k.value], request)
    ensures k.Some? ==> forall j :: i <= j < k.value ==> !Suits(free[j], request)
    ensures k.None? ==> forall j :: i <= j < |free| ==> !Suits(free[j], request)
    decreases |free| - i
  {
    if i == |free| then None
    else if Suits(free[i], request) then Some(i)
    else FirstFit(free, request, i + 1)
  }

  /** What the caller of an allocation has to check. A free chunk is reused whatever
      the alignment; fresh memory needs a pointer that can be aligned. */
  predicate Allowed(h: Heap, s: State, layout: Layout) {
    layout.alignLog < 64
    && (FirstFit(s.free, Normal(layout), 0).Some? || Aligns(h, s.bump, Normal(layout)))
  }

  function Without<T>(s: seq<T>, k: nat): seq<T>
    requires k < |s|
  {
    s[..k] + s[k + 1..]
  }

  function Alloc(h: Heap, s: State, layout: Layout): (State, Option<nat>)
    requires layout.alignLog < 64
  {
    var request := Normal(layout);
    match FirstFit(s.free, request, 0)
    case Some(k) =>
      var addr := s.free[k].addr;
      (s.(free := Without(s.free, k), live := s.live + [Chunk(addr, request.size)]), Some(addr))
    case None =>
      match Fit(h, s.bump, request)
      case None => (s, None)
      case Some(start) =>
        (s.(bump := start + request.size, live := s.live + [Chunk(start, request.size)]), Some(start))
  }

  /** Freeing live chunk i with the layout it was allocated with. */
  function Dealloc(s: State, i: nat): State
    requires i < |s.live|
  {
    s.(free := [s.live[i]] + s.free, live := Without(s.live, i))
  }

  // ---------- the invariant ----------

  predicate Apart(a: Chunk, b: Chunk) {
    a.End() <= b.addr || b.End() <= a.addr
  }

  ghost predicate ChunkOk(h: Heap, s: State, c: Chunk) {
    c.addr % 8 == 0 && c.size >= HEADER_SIZE && h.start <= c.addr && c.End() <= s.bump
  }

  ghost predicate AllApart(cs: seq<Chunk>) {
    forall i, j :: 0 <= i < j < |cs| ==> Apart(cs[i], cs[j])
  }

  ghost predicate ApartFrom(cs: seq<Chunk>, ds: seq<Chunk>) {
    forall i, j :: 0 <= i < |cs| && 0 <= j < |ds| ==> Apart(cs[i], ds[j])
  }

  ghost predicate Inv(h: Heap, s: State) {
    && h.start <= s.bump <= h.end
    && (forall c :: c in s.free ==> ChunkOk(h, s, c))
    && (forall c :: c in s.live ==> ChunkOk(h, s, c))
    && AllApart(s.free) && AllApart(s.live) && ApartFrom(s.free, s.live)
  }

  lemma MultipleOfSmaller(x: nat, j: nat, k: nat)
    requires j <= k && x % Pow2(k) == 0
    ensures x % Pow2(j) == 0
  {
    ShrIsDiv(x, k);
    ShrIsDiv(x, j);
    LowFields(x, j, k - j);
    FieldUnique(0, j, 0, 0);
  }

  // A fresh block lies past everything there is.
  lemma FreshBlock(h: Heap, s: State, layout: Layout)
    requires Inv(h, s) && layout.alignLog < 64 && Aligns(h, s.bump, Normal(layout))
    requires Fit(h, s.bump, Normal(layout)).Some?
    ensures var start := Fit(h, s.bump, Normal(layout)).value;
            s.bump <= start && start % 8 == 0 && start + Normal(layout).size <= h.end
            && start % Normal(layout).Align() == 0
  {
    var start := Fit(h, s.bump, Normal(layout)).value;
    FitIffRoom(h, s.bump, Normal(layout));
    MultipleOfSmaller(start, 3, Normal(layout).alignLog);
    MultipleOfEight(start);
  }

  lemma MultipleOfEight(x: nat)
    requires x % Pow2(3) == 0
    ensures x % 8 == 0
  {
    Pow2Values();
  }

  // Allocation keeps the invariant exactly when the call is allowed.
  lemma AllocKeepsInvIff(h: Heap, s: State, layout: Layout)
    requires h.Valid() && Inv(h, s) && layout.alignLog < 64
    ensures Inv(h, Alloc(h, s, layout).0) <==> Allowed(h, s, layout)
  {
    var request := Normal(layout);
    match FirstFit(s.free, request, 0)
    case Some(k) => ReuseKeepsInv(h, s, k, request.size);
    case None =>
      if Aligns(h, s.bump, request) {
        if Fit(h, s.bump, request).Some? {
          FreshBlock(h, s, layout);
          BumpKeepsInv(h, s, Chunk(Fit(h, s.bump, request).value, request.size));
        }
      } else {
        OverflowBreaks(h, s, layout);
      }
  }

  // Otherwise the client is handed the null address, as a chunk outside the heap.
  lemma OverflowBreaks(h: Heap, s: State, layout: Layout)
    requires h.Valid() && Inv(h, s) && layout.alignLog < 64 && !Allowed(h, s, layout)
    ensures Alloc(h, s, layout).1 == Some(0) && NoRoom(h, s.bump, Normal(layout))
    ensures !Inv(h, Alloc(h, s, layout).0)
  {
    var s', c := Alloc(h, s, layout).0, Chunk(0, Normal(layout).size);
    OverflowFits(h, s.bump, Normal(layout));
    assert c == s'.live[|s.live|];
    assert !ChunkOk(h, s', c);
  }

  lemma ReuseKeepsInv(h: Heap, s: State, k: nat, size: nat)
    requires Inv(h, s) && k < |s.free| && HEADER_SIZE <= size <= s.free[k].size
    ensures Inv(h, s.(free := Without(s.free, k), live := s.live + [Chunk(s.free[k].addr, size)]))
  {
    var free', live' := Without(s.free, k), s.live + [Chunk(s.free[k].addr, size)];
    assert s.free[k] in s.free;
    forall c | c in free' ensures c in s.free {
    }
    forall i | 0 <= i < |free'| ensures free'[i] == s.free[if i < k then i else i + 1] {
    }
  }

  lemma BumpKeepsInv(h: Heap, s: State, c: Chunk)
    requires Inv(h, s) && s.bump <= c.addr && c.addr % 8 == 0 && c.size >= HEADER_SIZE && c.End() <= h.end
    ensures Inv(h, s.(bump := c.End(), live := s.live + [c]))
  {
    var s' := s.(bump := c.End(), live := s.live + [c]);
    forall d | d in s.free || d in s.live ensures ChunkOk(h, s', d) && Apart(d, c) {
    }
  }

  lemma DeallocKeepsInv(h: Heap, s: State, i: nat)
    requires Inv(h, s) && i < |s.live|
    ensures Inv(h, Dealloc(s, i))
  {
    var live' := Without(s.live, i);
    assert s.live[i] in s.live;
    forall c | c in live' ensures c in s.live {
    }
    forall j | 0 <= j < |live'| ensures live'[j] == s.live[if j < i then j else j + 1] {
    }
  }
}
