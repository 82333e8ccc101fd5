/** The bump allocator (exercises/02_no_std_dev/02_bump_allocator) as a protocol:
    any number of alloc() calls interleave at the load and at the weak
    compare-exchange, which may also fail for no reason. */
module BumpModel {
  import opened Bits
  import opened Alignment
  import opened HeapRoom
  import opened Wrappers

  /** One alloc() call; `retries` counts its failed exchanges that were not spurious. */
  datatype Call =
    | Started(layout: Layout)
    | Trying(layout: Layout, prev: u64, retries: nat)
    | Returned(layout: Layout, result: Option<u64>)

  type Tid = nat

  /** A successful call: its block is [start, start + layout.size). */
  datatype Block = Block(owner: Tid, layout: Layout, start: u64) {
    function End(): nat {
      start + layout.size
    }
  }

  /** What happened to the heap: a call took a block, a call was refused, a reset. */
  datatype Event = Took(block: Block) | Refused(owner: Tid, layout: Layout) | Restarted {
    predicate Of(t: Tid) {
      match this
      case Took(b) => b.owner == t
      case Refused(owner, _) => owner == t
      case Restarted => false
    }
  }

  /** `history` lists the events in order: a success at its exchange, a refusal when the
      call reads the pointer that will make it give up, a reset at its store. */
  datatype Sys = Sys(next: u64, calls: map<Tid, Call>, history: seq<Event>)

  datatype Act =
    | Invoke(t: Tid, layout: Layout)
    | Load(t: Tid)
    | Attempt(t: Tid, spurious: bool)
    | Reset

  function Init(h: Heap): Sys {
    Sys(h.start, map[], [])
  }

  /** The acts that can happen. A reset may come at any time, calls in flight or not. */
  predicate Enabled(h: Heap, y: Sys, act: Act) {
    match act
    case Invoke(t, layout) => t !in y.calls && layout.Valid()
    case Load(t) => t in y.calls && y.calls[t].Started? && y.calls[t].layout.Valid()
    case Attempt(t, _) => t in y.calls && y.calls[t].Trying? && y.calls[t].layout.Valid()
    case Reset => true
  }

  /** An exchange that is going to succeed must have aligned its pointer. */
  predicate Safe(h: Heap, y: Sys, act: Act)
    requires Enabled(h, y, act)
  {
    match act
    case Attempt(t, spurious) =>
      y.next != y.calls[t].prev || spurious || Aligns(h, y.next, y.calls[t].layout)
    case _ => true
  }

  /** The event of reading a pointer from which the request does not fit. */
  function RefusalAt(h: Heap, next: u64, t: Tid, layout: Layout): seq<Event>
    requires layout.Valid()
  {
    if Fit(h, next, layout) == None then [Refused(t, layout)] else []
  }

  /** Call t reads the pointer. */
  function Read(h: Heap, y: Sys, t: Tid, retries: nat): Sys
    requires t in y.calls && y.calls[t].layout.Valid()
  {
    var layout := y.calls[t].layout;
    Sys(y.next, y.calls[t := Trying(layout, y.next, retries)], y.history + RefusalAt(h, y.next, t, layout))
  }

  function Step(h: Heap, y: Sys, act: Act): Sys
    requires Enabled(h, y, act)
  {
    match act
    case Invoke(t, layout) => y.(calls := y.calls[t := Started(layout)])
    case Load(t) => Read(h, y, t, 0)
    case Attempt(t, spurious) =>
      var Trying(layout, prev, retries) := y.calls[t];
      (match Fit(h, prev, layout)
       case None => y.(calls := y.calls[t := Returned(layout, None)])
       case Some(start) =>
         if y.next == prev && !spurious then
           Sys(start + layout.size, y.calls[t := Returned(layout, Some(start))],
               y.history + [Took(Block(t, layout, start))])
         else Read(h, y, t, if y.next == prev then retries else retries + 1))
    case Reset => y.(next := h.start, history := y.history + [Restarted])
  }
}
