/** The bump allocator as the source has it: one atomic word, updated in place by a
    load and a weak compare-exchange. */
module Bump {
  import opened Bits
  import opened Alignment
  import opened HeapRoom
  import opened BumpModel
  import opened Wrappers

  class BumpAllocator {
    const heapStart: u64
    const heapEnd: u64
    var next: u64
    var calls: map<Tid, Call>
    ghost var history: seq<Event>

    ghost function Value(): Sys
      reads this
    {
      Sys(next, calls, history)
    }

    function Region(): Heap {
      Heap(heapStart, heapEnd)
    }

    /** The region must be real memory, and address 0 is not in it. */
    constructor (heapStart: u64, heapEnd: u64)
      requires 0 < heapStart <= heapEnd
      ensures Region() == Heap(heapStart, heapEnd) && Value() == Init(Region())
    {
      this.heapStart, this.heapEnd, next := heapStart, heapEnd, heapStart;
      calls, history := map[], [];
    }

    /** The pointer goes back; calls in flight go on with what they have read. */
    method Reset()
      modifies this
      ensures Value() == Step(Region(), old(Value()), Act.Reset)
    {
      next := heapStart;
      history := history + [Restarted];
    }

    method Invoke(t: Tid, layout: Layout)
      requires Enabled(Region(), Value(), Act.Invoke(t, layout))
      modifies this
      ensures Value() == Step(Region(), old(Value()), Act.Invoke(t, layout))
    {
      calls := calls[t := Started(layout)];
    }

    method Load(t: Tid)
      requires Enabled(Region(), Value(), Act.Load(t))
      modifies this
      ensures Value() == Step(Region(), old(Value()), Act.Load(t))
    {
      var prevNext := next;
      history := history + RefusalAt(Region(), prevNext, t, calls[t].layout);
      calls := calls[t := Trying(calls[t].layout, prevNext, 0)];
    }

    method CompareExchangeWeak(expected: u64, new_: u64, spurious: bool) returns (ok: bool, actual: u64)
      modifies `next
      ensures ok == (old(next) == expected && !spurious) && actual == old(next)
      ensures next == if ok then new_ else old(next)
    {
      actual := next;
      ok := next == expected && !spurious;
      if ok {
        next := new_;
      }
    }

    /** The loop body: align, check the bound, and try to exchange. */
    method Attempt(t: Tid, spurious: bool)
      requires Enabled(Region(), Value(), Act.Attempt(t, spurious))
      modifies this
      ensures Value() == Step(Region(), old(Value()), Act.Attempt(t, spurious))
    {
      var Trying(layout, prevNext, retries) := calls[t];
      var allocStart := AlignUp(prevNext, layout.alignLog);
      var allocEnd := allocStart + layout.size;
      if allocEnd >= U64 || allocEnd > heapEnd {
        calls := calls[t := Returned(layout, None)];
        return;
      }
      var ok, actual := CompareExchangeWeak(prevNext, allocEnd, spurious);
      if ok {
        calls := calls[t := Returned(layout, Some(allocStart))];
        history := history + [Took(Block(t, layout, allocStart))];
      } else {
        history := history + RefusalAt(Region(), actual, t, layout);
        calls := calls[t := Trying(layout, actual, if actual == prevNext then retries else retries + 1)];
      }
    }
  }
}
