/** What both allocators do at the end of their memory: align the pointer up, and
    take the block if it ends inside the heap. */
module HeapRoom {
  import opened Bits
  import opened Alignment
  import opened Wrappers

  /** The managed region. */
  datatype Heap = Heap(start: u64, end: u64) {
    predicate Valid() {
      0 < start <= end
    }
  }

  /** The block an allocation from `prev` would take, if it fits. */
  function Fit(h: Heap, prev: u64, layout: Layout): Option<u64>
    requires layout.Valid()
  {
    var start := AlignUp(prev, layout.alignLog);
    if start + layout.size < U64 && start + layout.size <= h.end then Some(start) else None
  }

  /** No block of this layout fits between the pointer and the end of the heap. */
  ghost predicate NoRoom(h: Heap, next: nat, layout: Layout) {
    forall r: nat :: AlignedFrom(r, next, layout.Align()) ==> r + layout.size > h.end
  }

  /** Does aligning this pointer stay in the address space? If the request is larger
      than any address of the heap, it does not matter. */
  predicate Aligns(h: Heap, prev: u64, layout: Layout) {
    prev + layout.Align() <= U64 || layout.size > h.end
  }

  // Within the address space a request is refused exactly when there is no room, and
  // otherwise gets the first place that is aligned.
  lemma FitIffRoom(h: Heap, prev: u64, layout: Layout)
    requires layout.Valid() && prev <= h.end && Aligns(h, prev, layout)
    ensures Fit(h, prev, layout) == None <==> NoRoom(h, prev, layout)
    ensures Fit(h, prev, layout).Some? ==>
              && FirstMultiple(Fit(h, prev, layout).value, prev, layout.Align())
              && prev < Fit(h, prev, layout).value + layout.size <= h.end
  {
    if prev + layout.Align() <= U64 {
      var start := AlignUp(prev, layout.alignLog);
      AlignUpIff(prev, layout.alignLog);
      assert AlignedFrom(start, prev, layout.Align());
      forall r: nat | AlignedFrom(r, prev, layout.Align()) ensures start <= r {
        FirstMultipleLeast(start, r, prev, layout.Align());
      }
    }
  }

  // When the align-up sum overflows there is no room either, and the request is
  // refused only if no heap could hold it: otherwise it is given the null address.
  lemma OverflowFits(h: Heap, prev: u64, layout: Layout)
    requires layout.Valid() && prev <= h.end && prev + layout.Align() > U64
    ensures NoRoom(h, prev, layout)
    ensures Fit(h, prev, layout) == if layout.size > h.end then None else Some(0)
  {
    AlignUpIff(prev, layout.alignLog);
    forall r: nat | AlignedFrom(r, prev, layout.Align()) ensures r + layout.size > h.end {
      OverflowLeavesNothing(prev, r, layout.alignLog);
    }
  }

  lemma RefusalIsRight(h: Heap, prev: u64, layout: Layout)
    requires layout.Valid() && prev <= h.end && Fit(h, prev, layout) == None
    ensures NoRoom(h, prev, layout)
  {
    if prev + layout.Align() <= U64 {
      FitIffRoom(h, prev, layout);
    } else {
      OverflowFits(h, prev, layout);
    }
  }

  lemma NoRoomLater(h: Heap, prev: nat, next: nat, layout: Layout)
    requires prev <= next && NoRoom(h, prev, layout)
    ensures NoRoom(h, next, layout)
  {
    forall r: nat | AlignedFrom(r, next, layout.Align()) ensures r + layout.size > h.end {
      assert AlignedFrom(r, prev, layout.Align());
    }
  }
}
