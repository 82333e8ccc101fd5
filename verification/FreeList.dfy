/** The free-list allocator as the source has it: the list lives in the memory it
    manages. `ram[a]` is the 64-bit word at the 8-aligned address a; a free chunk holds
    its size in its first word and the address of the next one in its second. */
module FreeList {
  import opened Bits
  import opened Alignment
  import opened HeapRoom
  import opened FreeListModel

  /** The address that follows in the list: of chunk i, or null at the end. */
  function Addr(free: seq<Chunk>, i: nat): nat {
    if i < |free| then free[i].addr else 0
  }

  /** A header at chunk c that points to `next`. */
  predicate HeaderAt(ram: seq<nat>, c: Chunk, next: nat) {
    && c.addr != 0 && c.addr % 8 == 0 && c.addr + 8 < |ram|
    && ram[c.addr] == c.size
    && ram[c.addr + 8] == next
  }

  /** Memory holds the list of these chunks: each header gives the size of its chunk
      and the address of the next one, and the last one gives null. */
  ghost predicate Linked(ram: seq<nat>, free: seq<Chunk>) {
    forall i {:trigger NodeAt(ram, free, i)} :: 0 <= i < |free| ==> NodeAt(ram, free, i)
  }

  predicate NodeAt(ram: seq<nat>, free: seq<Chunk>, i: nat)
    requires i < |free|
  {
    HeaderAt(ram, free[i], Addr(free, i + 1))
  }

  predicate HeaderWord(c: Chunk, w: int) {
    w == c.addr || w == c.addr + 8
  }

  // Headers of chunks that lie apart share no word.
  lemma HeadersApart(c: Chunk, d: Chunk, w: int)
    requires c.size >= 16 && d.size >= 16 && Apart(c, d) && HeaderWord(c, w)
    ensures !HeaderWord(d, w)
  {
  }

  // A word inside one chunk is in no header of another.
  lemma WordApart(c: Chunk, d: Chunk, w: int)
    requires d.size >= 16 && Apart(c, d) && c.addr <= w < c.End()
    ensures !HeaderWord(d, w)
  {
  }

  ghost predicate ListOk(ram: seq<nat>, free: seq<Chunk>) {
    && Linked(ram, free) && AllApart(free)
    && (forall c :: c in free ==> c.addr % 8 == 0 && c.size >= 16)
  }

  // Writing the link of chunk p changes no other header.
  lemma LinkWrite(ram: seq<nat>, free: seq<Chunk>, p: nat, next: nat, j: nat)
    requires ListOk(ram, free) && p < |free| && j < |free|
    ensures free[p].addr + 8 < |ram|
    ensures HeaderAt(ram[free[p].addr + 8 := next], free[j], if j == p then next else Addr(free, j + 1))
  {
    assert NodeAt(ram, free, p) && NodeAt(ram, free, j);
    assert free[p] in free && free[j] in free;
    if j != p {
      assert if j < p then Apart(free[j], free[p]) else Apart(free[p], free[j]);
      HeadersApart(free[p], free[j], free[p].addr + 8);
    }
  }

  // Bypassing chunk k: its predecessor, if there is one, now points past it.
  lemma Unlink(ram: seq<nat>, free: seq<Chunk>, k: nat, ram': seq<nat>)
    requires ListOk(ram, free) && k < |free|
    requires k > 0 ==> free[k - 1].addr + 8 < |ram|
    requires ram' == if k == 0 then ram else ram[free[k - 1].addr + 8 := Addr(free, k + 1)]
    ensures Linked(ram', Without(free, k))
  {
    var free' := Without(free, k);
    forall i | 0 <= i < |free'| ensures NodeAt(ram', free', i) {
      var j := if i < k then i else i + 1;
      assert free'[i] == free[j] && NodeAt(ram, free, j);
      if k > 0 {
        LinkWrite(ram, free, k - 1, Addr(free, k + 1), j);
      }
    }
  }

  /** The address reached by following n links from a. */
  function Follow(ram: seq<nat>, a: nat, n: nat): nat
    decreases n
  {
    if n == 0 || a + 8 >= |ram| then a else Follow(ram, ram[a + 8], n - 1)
  }

  // Following the links from chunk i visits the rest of the list in order, and comes
  // to null after the last chunk and not before: the list is acyclic.
  lemma {:induction false} FollowVisitsList(ram: seq<nat>, free: seq<Chunk>, i: nat, n: nat)
    requires Linked(ram, free) && i + n <= |free|
    ensures Follow(ram, Addr(free, i), n) == Addr(free, i + n)
    ensures Follow(ram, Addr(free, i), n) == 0 <==> i + n == |free|
    decreases n
  {
    if i < |free| {
      assert NodeAt(ram, free, i);
    }
    if n > 0 {
      FollowVisitsList(ram, free, i + 1, n - 1);
    } else if i < |free| {
      assert free[i].addr != 0;
    }
  }

  class FreeListAllocator {
    const heapStart: u64
    const heapEnd: u64
    var bumpNext: u64
    var head: nat
    const ram: array<nat>
    ghost var free: seq<Chunk>
    ghost var live: seq<Chunk>

    function Region(): Heap {
      Heap(heapStart, heapEnd)
    }

    ghost function Value(): State
      reads this
    {
      State(bumpNext, free, live)
    }

    ghost predicate Valid()
      reads this, ram
    {
      && 0 < heapStart && heapEnd <= ram.Length
      && Inv(Region(), Value())
      && head == Addr(free, 0) && Linked(ram[..], free)
    }

    /** The region must be real memory, and address 0 is not in it. */
    constructor (heapStart: u64, heapEnd: u64, ram: array<nat>)
      requires 0 < heapStart <= heapEnd <= ram.Length
      ensures Valid() && Region() == Heap(heapStart, heapEnd) && Value() == Start(Region()) && this.ram == ram
    {
      this.heapStart, this.heapEnd, this.ram := heapStart, heapEnd, ram;
      bumpNext, head := heapStart, 0;
      free, live := [], [];
    }

    /** A client stores anything it likes anywhere in a live block. */
    method ClientWrite(ghost i: nat, addr: nat, value: nat)
      requires Valid() && i < |live| && addr % 8 == 0 && live[i].addr <= addr < live[i].End()
      modifies ram
      ensures Valid() && Value() == old(Value())
      ensures forall w :: 0 <= w < ram.Length ==> ram[w] == if w == addr then value else old(ram[w])
    {
      assert live[i] in live;
      ram[addr] := value;
      forall j | 0 <= j < |free| ensures NodeAt(ram[..], free, j) {
        assert free[j] in free && Apart(free[j], live[i]);
        assert NodeAt(old(ram[..]), free, j);
        WordApart(live[i], free[j], addr);
      }
    }

    /** Every word outside the free chunks' headers is as it was. */
    twostate predicate OnlyHeaders(headers: seq<Chunk>)
      reads ram
    {
      forall w :: 0 <= w < ram.Length && (forall c :: c in headers ==> !HeaderWord(c, w)) ==> ram[w] == old(ram[w])
    }

    /** Remove chunk k, at address curr with predecessor prev, from the list and hand
        out its first `size` bytes. */
    method Take(ghost k: nat, prev: nat, curr: nat, size: nat)
      requires Valid() && k < |free| && HEADER_SIZE <= size <= free[k].size
      requires curr == free[k].addr && prev == if k == 0 then 0 else free[k - 1].addr
      modifies this, ram
      ensures Valid() && OnlyHeaders(old(free))
      ensures bumpNext == old(bumpNext) && free == Without(old(free), k)
      ensures live == old(live) + [Chunk(curr, size)]
    {
      ghost var was := ram[..];
      ReuseKeepsInv(Region(), Value(), k, size);
      assert NodeAt(was, free, k);
      assert k > 0 ==> NodeAt(was, free, k - 1) && free[k - 1] in free;
      var next := ram[curr + 8];
      if prev == 0 {
        head := next;
      } else {
        ram[prev + 8] := next;
      }
      Unlink(was, free, k, ram[..]);
      assert prev != 0 ==> HeaderWord(free[k - 1], prev + 8);
      free := Without(free, k);
      live := live + [Chunk(curr, size)];
    }

    method Alloc(layout: Layout) returns (ptr: nat)
      requires Valid() && layout.alignLog < 64
      modifies this, ram
      ensures Valid() <==> Allowed(Region(), old(Value()), layout)
      ensures OnlyHeaders(old(free)) && head == Addr(free, 0) && Linked(ram[..], free)
      ensures var (s, r) := FreeListModel.Alloc(Region(), old(Value()), layout);
              Value() == s && ptr == if r.Some? then r.value else 0
    {
      var size := if layout.size < HEADER_SIZE then HEADER_SIZE else layout.size;
      var alignLog := if layout.alignLog < HEADER_ALIGN_LOG then HEADER_ALIGN_LOG else layout.alignLog;
      ghost var request := Normal(layout);
      AllocKeepsInvIff(Region(), Value(), layout);
      var prev, curr := 0, head;
      ghost var i := 0;
      while curr != 0
        invariant i <= |free| && curr == Addr(free, i) && prev == if i == 0 then 0 else free[i - 1].addr
        invariant FirstFit(free, request, 0) == FirstFit(free, request, i)
        invariant Valid() && Value() == old(Value()) && ram[..] == old(ram[..])
        decreases |free| - i
      {
        assert NodeAt(ram[..], free, i);
        if curr % Pow2(alignLog) == 0 && ram[curr] >= size {
          Take(i, prev, curr, size);
          return curr;
        }
        prev := curr;
        curr := ram[curr + 8];
        i := i + 1;
      }
      assert i < |free| ==> NodeAt(ram[..], free, i);
      var allocStart := AlignUp(bumpNext, alignLog);
      var allocEnd := allocStart + size;
      if allocEnd >= U64 || allocEnd > heapEnd {
        return 0;
      }
      bumpNext := allocEnd;
      live := live + [Chunk(allocStart, size)];
      return allocStart;
    }

    /** Freeing live chunk i: a header is written into it and it becomes the head. A
        null pointer is ignored. */
    method Dealloc(ptr: nat, layout: Layout, ghost i: nat)
      requires Valid()
      requires ptr != 0 ==> i < |live| && live[i] == Chunk(ptr, Normal(layout).size)
      modifies this, ram
      ensures Valid()
      ensures ptr == 0 ==> Value() == old(Value()) && ram[..] == old(ram[..])
      ensures ptr != 0 ==> Value() == FreeListModel.Dealloc(old(Value()), i) && OnlyHeaders([old(live[i])])
    {
      if ptr == 0 {
        return;
      }
      var size := if layout.size < HEADER_SIZE then HEADER_SIZE else layout.size;
      DeallocKeepsInv(Region(), Value(), i);
      assert live[i] in live;
      ghost var was, chunk := ram[..], live[i];
      ram[ptr] := size;
      ram[ptr + 8] := head;
      head := ptr;
      HeaderWrite(was, free, chunk, ram[..]);
      assert HeaderWord(chunk, ptr) && HeaderWord(chunk, ptr + 8) && chunk in [chunk];
      free := [chunk] + free;
      live := Without(live, i);
    }
  }

  // Writing a header into a chunk that lies apart from the list puts it in front.
  lemma HeaderWrite(ram: seq<nat>, free: seq<Chunk>, c: Chunk, ram': seq<nat>)
    requires ListOk(ram, free) && c.addr != 0 && c.addr % 8 == 0 && c.size >= 16 && c.addr + 8 < |ram|
    requires forall i :: 0 <= i < |free| ==> Apart(free[i], c)
    requires ram' == ram[c.addr := c.size][c.addr + 8 := Addr(free, 0)]
    ensures Linked(ram', [c] + free)
  {
    var free' := [c] + free;
    forall i | 0 <= i < |free'| ensures NodeAt(ram', free', i) {
      if i > 0 {
        var d := free[i - 1];
        assert NodeAt(ram, free, i - 1) && d in free;
        HeadersApart(c, d, c.addr);
        HeadersApart(c, d, c.addr + 8);
      }
    }
  }
}
