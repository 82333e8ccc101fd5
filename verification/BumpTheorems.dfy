/** What every interleaving of allocating threads and resets keeps. */
module BumpTheorems {
  import opened Bits
  import opened Alignment
  import opened HeapRoom
  import opened BumpModel
  import opened BumpHistory
  import opened Wrappers

  // ---------- the pointer and the history ----------

  ghost predicate HeapOk(h: Heap, y: Sys) {
    HistoryOk(h, y.history, y.next)
  }

  // Whatever calls are in flight, an act keeps the history good exactly when it is safe.
  lemma StepKeepsHistoryIff(h: Heap, y: Sys, act: Act)
    requires h.Valid() && HeapOk(h, y) && Enabled(h, y, act)
    ensures HeapOk(h, Step(h, y, act)) <==> Safe(h, y, act)
    ensures Safe(h, y, act) && act != Reset ==> y.next <= Step(h, y, act).next
  {
    match act
    case Invoke(_, _) =>
    case Load(t) => ReadKeepsHistory(h, y.history, y.next, t, y.calls[t].layout);
    case Attempt(t, spurious) => AttemptKeepsHistoryIff(h, y, t, spurious);
    case Reset => ExtendHistory(h, y.history, y.next, Restarted, h.start);
  }

  lemma AttemptKeepsHistoryIff(h: Heap, y: Sys, t: Tid, spurious: bool)
    requires h.Valid() && HeapOk(h, y) && Enabled(h, y, Attempt(t, spurious))
    ensures HeapOk(h, Step(h, y, Attempt(t, spurious))) <==> Safe(h, y, Attempt(t, spurious))
    ensures Safe(h, y, Attempt(t, spurious)) ==> y.next <= Step(h, y, Attempt(t, spurious)).next
  {
    var Trying(layout, prev, _) := y.calls[t];
    match Fit(h, prev, layout)
    case None =>
      if prev + layout.Align() > U64 && y.next == prev {
        OverflowFits(h, prev, layout);
      }
    case Some(start) =>
      if y.next == prev && !spurious {
        TakeIff(h, y.history, y.next, Block(t, layout, start));
      } else {
        ReadKeepsHistory(h, y.history, y.next, t, layout);
      }
  }

  // ---------- the calls and the history ----------

  /** The event a call must have had by now. */
  function Outcome(h: Heap, t: Tid, call: Call): Option<Event>
    requires call.layout.Valid()
  {
    match call
    case Started(_) => None
    case Trying(layout, prev, _) => if Fit(h, prev, layout) == None then Some(Refused(t, layout)) else None
    case Returned(layout, None) => Some(Refused(t, layout))
    case Returned(layout, Some(start)) => Some(Took(Block(t, layout, start)))
  }

  /** e is the event of call t. */
  ghost predicate IsOutcome(h: Heap, y: Sys, t: Tid, e: Event) {
    t in y.calls && y.calls[t].layout.Valid() && Outcome(h, t, y.calls[t]) == Some(e)
  }

  /** The history holds exactly the events of the calls, each once, and the resets. */
  ghost predicate Recorded(h: Heap, y: Sys) {
    && (forall t :: t in y.calls ==> y.calls[t].layout.Valid())
    && (forall t, e: Event :: e.Of(t) ==> (e in y.history <==> IsOutcome(h, y, t, e)))
    && (forall i, j :: 0 <= i < j < |y.history| && y.history[i] == y.history[j] ==> y.history[i] == Restarted)
  }

  // Call t moves on without an event.
  lemma RecordSilent(h: Heap, y: Sys, t: Tid, call: Call)
    requires Recorded(h, y) && call.layout.Valid()
    requires Outcome(h, t, call) == if t in y.calls then Outcome(h, t, y.calls[t]) else None
    ensures Recorded(h, y.(calls := y.calls[t := call]))
  {
    var y' := y.(calls := y.calls[t := call]);
    forall u, e: Event | e.Of(u) ensures e in y'.history <==> IsOutcome(h, y', u, e) {
      assert e in y.history <==> IsOutcome(h, y, u, e);
    }
  }

  // Call t has its event.
  lemma RecordEvent(h: Heap, y: Sys, t: Tid, call: Call, e: Event, next: u64)
    requires Recorded(h, y) && call.layout.Valid() && t in y.calls && Outcome(h, t, y.calls[t]) == None
    requires e.Of(t) && Outcome(h, t, call) == Some(e)
    ensures Recorded(h, Sys(next, y.calls[t := call], y.history + [e]))
  {
    var y' := Sys(next, y.calls[t := call], y.history + [e]);
    forall u, f: Event | f.Of(u) ensures f in y'.history <==> IsOutcome(h, y', u, f) {
      assert f in y.history <==> IsOutcome(h, y, u, f);
      assert f in y'.history <==> f in y.history || f == e;
    }
    assert e !in y.history;
  }

  lemma ReadRecords(h: Heap, y: Sys, t: Tid, retries: nat)
    requires Recorded(h, y) && t in y.calls && Outcome(h, t, y.calls[t]) == None
    ensures Recorded(h, Read(h, y, t, retries))
  {
    var layout := y.calls[t].layout;
    var call := Trying(layout, y.next, retries);
    if Fit(h, y.next, layout) == None {
      RecordEvent(h, y, t, call, Refused(t, layout), y.next);
    } else {
      RecordSilent(h, y, t, call);
      assert y.history + [] == y.history;
    }
  }

  lemma StepRecords(h: Heap, y: Sys, act: Act)
    requires Recorded(h, y) && Enabled(h, y, act)
    ensures Recorded(h, Step(h, y, act))
  {
    match act
    case Invoke(t, layout) => RecordSilent(h, y, t, Started(layout));
    case Load(t) => ReadRecords(h, y, t, 0);
    case Attempt(t, spurious) => AttemptRecords(h, y, t, spurious);
    case Reset =>
      var y' := Step(h, y, act);
      forall t, e: Event | e.Of(t) ensures e in y'.history <==> IsOutcome(h, y', t, e) {
        assert e in y.history <==> IsOutcome(h, y, t, e);
      }
  }

  lemma AttemptRecords(h: Heap, y: Sys, t: Tid, spurious: bool)
    requires Recorded(h, y) && Enabled(h, y, Attempt(t, spurious))
    ensures Recorded(h, Step(h, y, Attempt(t, spurious)))
  {
    var Trying(layout, prev, retries) := y.calls[t];
    match Fit(h, prev, layout)
    case None => RecordSilent(h, y, t, Returned(layout, None));
    case Some(start) =>
      if y.next == prev && !spurious {
        RecordEvent(h, y, t, Returned(layout, Some(start)), Took(Block(t, layout, start)), start + layout.size);
      } else {
        ReadRecords(h, y, t, if y.next == prev then retries else retries + 1);
      }
  }

  // ---------- retries ----------

  /** `prev` was the pointer after m events, and every retry so far was caused by one
      of these that moved it. */
  ghost predicate Seen(h: Heap, history: seq<Event>, m: int, prev: nat, retries: nat) {
    0 <= m <= |history| && prev == Position(h, history[..m]) && retries <= Moves(history[..m])
  }

  ghost predicate CallSeen(h: Heap, history: seq<Event>, call: Call) {
    call.Trying? ==> exists m :: Seen(h, history, m, call.prev, call.retries)
  }

  ghost predicate AllSeen(h: Heap, y: Sys) {
    forall t :: t in y.calls ==> CallSeen(h, y.history, y.calls[t])
  }

  lemma SeenLater(h: Heap, history: seq<Event>, more: seq<Event>, call: Call)
    requires CallSeen(h, history, call)
    ensures CallSeen(h, history + more, call)
  {
    if call.Trying? {
      var m :| Seen(h, history, m, call.prev, call.retries);
      assert (history + more)[..m] == history[..m];
      assert Seen(h, history + more, m, call.prev, call.retries);
    }
  }

  // A call that reads the pointer as it is now.
  lemma ReadSees(h: Heap, y: Sys, t: Tid, retries: nat)
    requires HeapOk(h, y) && AllSeen(h, y) && t in y.calls && y.calls[t].layout.Valid()
    requires retries <= Moves(y.history)
    ensures AllSeen(h, Read(h, y, t, retries))
  {
    var y' := Read(h, y, t, retries);
    var more := RefusalAt(h, y.next, t, y.calls[t].layout);
    assert y.history[..|y.history|] == y.history;
    assert Seen(h, y.history, |y.history|, y.next, retries);
    forall u | u in y'.calls ensures CallSeen(h, y'.history, y'.calls[u]) {
      SeenLater(h, y.history, more, y'.calls[u]);
    }
  }

  // A failed exchange: if it was not spurious, something has moved the pointer since
  // it was read.
  lemma RetrySees(h: Heap, y: Sys, t: Tid)
    requires HeapOk(h, y) && AllSeen(h, y) && t in y.calls && y.calls[t].Trying? && y.calls[t].layout.Valid()
    ensures var Trying(_, prev, retries) := y.calls[t];
            AllSeen(h, Read(h, y, t, if y.next == prev then retries else retries + 1))
  {
    var Trying(_, prev, retries) := y.calls[t];
    assert CallSeen(h, y.history, y.calls[t]);
    var m :| Seen(h, y.history, m, prev, retries);
    MovesCount(h, y.history, m);
    ReadSees(h, y, t, if y.next == prev then retries else retries + 1);
  }

  lemma StepSees(h: Heap, y: Sys, act: Act)
    requires HeapOk(h, y) && AllSeen(h, y) && Enabled(h, y, act)
    ensures AllSeen(h, Step(h, y, act))
  {
    match act
    case Invoke(_, _) => NobodyReads(h, y, Step(h, y, act));
    case Load(t) => ReadSees(h, y, t, 0);
    case Attempt(t, spurious) =>
      if Fit(h, y.calls[t].prev, y.calls[t].layout).Some? && (y.next != y.calls[t].prev || spurious) {
        RetrySees(h, y, t);
      } else {
        NobodyReads(h, y, Step(h, y, act));
      }
    case Reset => NobodyReads(h, y, Step(h, y, act));
  }

  // A step in which no call reads the pointer.
  lemma NobodyReads(h: Heap, y: Sys, y': Sys)
    requires AllSeen(h, y) && y.history <= y'.history
    requires forall u :: u in y'.calls && y'.calls[u].Trying? ==> u in y.calls && y'.calls[u] == y.calls[u]
    ensures AllSeen(h, y')
  {
    var more := y'.history[|y.history|..];
    assert y'.history == y.history + more;
    forall u | u in y'.calls ensures CallSeen(h, y'.history, y'.calls[u]) {
      if y'.calls[u].Trying? {
        SeenLater(h, y.history, more, y.calls[u]);
      }
    }
  }

  // ---------- whole runs ----------

  ghost predicate Inv(h: Heap, y: Sys) {
    HeapOk(h, y) && Recorded(h, y) && AllSeen(h, y)
  }

  /** Every act of the run can happen, and is safe when it does. */
  predicate Allowed(h: Heap, y: Sys, acts: seq<Act>)
    decreases |acts|
  {
    acts == []
    || (Enabled(h, y, acts[0]) && Safe(h, y, acts[0]) && Allowed(h, Step(h, y, acts[0]), acts[1..]))
  }

  function Run(h: Heap, y: Sys, acts: seq<Act>): Sys
    requires Allowed(h, y, acts)
    decreases |acts|
  {
    if acts == [] then y else Run(h, Step(h, y, acts[0]), acts[1..])
  }

  predicate AllEnabled(h: Heap, y: Sys, acts: seq<Act>)
    decreases |acts|
  {
    acts == [] || (Enabled(h, y, acts[0]) && AllEnabled(h, Step(h, y, acts[0]), acts[1..]))
  }

  /** An alignment that cannot overflow from anywhere in the heap. */
  predicate Modest(h: Heap, layout: Layout) {
    h.end + layout.Align() <= U64
  }

  ghost predicate ModestCalls(h: Heap, y: Sys) {
    forall t :: t in y.calls ==> Modest(h, y.calls[t].layout)
  }

  lemma ModestStep(h: Heap, y: Sys, act: Act)
    requires h.Valid() && HeapOk(h, y) && Enabled(h, y, act) && ModestCalls(h, y)
    requires act.Invoke? ==> Modest(h, act.layout)
    ensures Safe(h, y, act) && HeapOk(h, Step(h, y, act)) && ModestCalls(h, Step(h, y, act))
  {
    StepKeepsHistoryIff(h, y, act);
  }

  // If clients ask for modest alignments only, every run is safe.
  lemma {:induction false} ModestRunsAreAllowed(h: Heap, y: Sys, acts: seq<Act>)
    requires h.Valid() && HeapOk(h, y) && AllEnabled(h, y, acts) && ModestCalls(h, y)
    requires forall act :: act in acts && act.Invoke? ==> Modest(h, act.layout)
    ensures Allowed(h, y, acts)
    decreases |acts|
  {
    if acts != [] {
      assert acts[0] in acts;
      ModestStep(h, y, acts[0]);
      ModestRunsAreAllowed(h, Step(h, y, acts[0]), acts[1..]);
    }
  }

  lemma InitInv(h: Heap)
    requires h.Valid()
    ensures Inv(h, Init(h))
  {
  }

  lemma StepKeepsInv(h: Heap, y: Sys, act: Act)
    requires h.Valid() && Inv(h, y) && Enabled(h, y, act) && Safe(h, y, act)
    ensures Inv(h, Step(h, y, act))
  {
    StepKeepsHistoryIff(h, y, act);
    StepRecords(h, y, act);
    StepSees(h, y, act);
  }

  lemma {:induction false} RunKeepsInv(h: Heap, y: Sys, acts: seq<Act>)
    requires h.Valid() && Inv(h, y) && Allowed(h, y, acts)
    ensures Inv(h, Run(h, y, acts))
    decreases |acts|
  {
    if acts != [] {
      StepKeepsInv(h, y, acts[0]);
      RunKeepsInv(h, Step(h, y, acts[0]), acts[1..]);
    }
  }

  lemma {:induction false} HistoryGrows(h: Heap, y: Sys, acts: seq<Act>)
    requires Allowed(h, y, acts)
    ensures y.history <= Run(h, y, acts).history
    decreases |acts|
  {
    if acts != [] {
      StepGrows(h, y, acts[0]);
      HistoryGrows(h, Step(h, y, acts[0]), acts[1..]);
    }
  }

  lemma StepGrows(h: Heap, y: Sys, act: Act)
    requires Enabled(h, y, act)
    ensures y.history <= Step(h, y, act).history
  {
  }

  // Linearizability: in every run, resets at any moment and calls in flight across them
  // included, making the same requests one whole call at a time, in the order of the
  // history, gives the same blocks, the same refusals and the same pointer; and these
  // are the answers the specification of the heap allows.
  lemma RunIsSequential(h: Heap, acts: seq<Act>)
    requires h.Valid() && Allowed(h, Init(h), acts)
    ensures var y := Run(h, Init(h), acts);
            Replay(h, Requests(y.history)) == (y.history, y.next) && Legal(h, y.history)
  {
    InitInv(h);
    RunKeepsInv(h, Init(h), acts);
  }

  // The history holds what each call returned: exactly once, and nothing else of it. A
  // call without a result yet is in it exactly when it is bound to be refused.
  lemma HistoryIsWhatCallsReturn(h: Heap, acts: seq<Act>, t: Tid, e: Event)
    requires h.Valid() && Allowed(h, Init(h), acts) && e.Of(t)
    ensures var y := Run(h, Init(h), acts);
            && (e in y.history <==> IsOutcome(h, y, t, e))
            && (forall i, j :: 0 <= i < j < |y.history| && y.history[i].Of(t) ==> !y.history[j].Of(t))
  {
    InitInv(h);
    RunKeepsInv(h, Init(h), acts);
    var y := Run(h, Init(h), acts);
    forall i, j | 0 <= i < j < |y.history| && y.history[i].Of(t) ensures !y.history[j].Of(t) {
      if y.history[j].Of(t) {
        SameEvent(h, y, t, i, j);
      }
    }
  }

  // The order of the history is an order of real time: at any moment, the events of calls
  // that have returned are in it already, those of calls that have not begun come later,
  // and what is in it stays where it is, resets included.
  lemma RealTimeOrder(h: Heap, before: seq<Act>, after: seq<Act>, t: Tid, i: nat)
    requires h.Valid() && Allowed(h, Init(h), before) && Allowed(h, Run(h, Init(h), before), after)
    requires i < |Run(h, Run(h, Init(h), before), after).history|
    requires Run(h, Run(h, Init(h), before), after).history[i].Of(t)
    ensures var y := Run(h, Init(h), before);
            && y.history <= Run(h, y, after).history
            && (t in y.calls && y.calls[t].Returned? ==> i < |y.history|)
            && (t !in y.calls ==> i >= |y.history|)
  {
    var y := Run(h, Init(h), before);
    var z := Run(h, y, after);
    InitInv(h);
    RunKeepsInv(h, Init(h), before);
    RunKeepsInv(h, y, after);
    HistoryGrows(h, y, after);
    if t in y.calls && y.calls[t].Returned? {
      var e := Outcome(h, t, y.calls[t]).value;
      assert e.Of(t) && IsOutcome(h, y, t, e);
      assert e in y.history;
      var k :| 0 <= k < |y.history| && y.history[k] == e;
      SameEvent(h, z, t, i, k);
    }
    if i < |y.history| {
      assert y.history[i] == z.history[i] && y.history[i] in y.history;
      assert IsOutcome(h, y, t, y.history[i]);
    }
  }

  lemma SameEvent(h: Heap, y: Sys, t: Tid, i: nat, j: nat)
    requires Recorded(h, y) && i < |y.history| && j < |y.history| && y.history[i].Of(t) && y.history[j].Of(t)
    ensures i == j
  {
    var a, b := y.history[i], y.history[j];
    assert a in y.history && b in y.history;
    assert IsOutcome(h, y, t, a) && IsOutcome(h, y, t, b);
  }

  // Safety: every block ever handed out is aligned, inside the heap and not null, and two
  // blocks are disjoint unless a reset comes between their exchanges.
  lemma BlocksAreDisjoint(h: Heap, acts: seq<Act>, i: nat)
    requires h.Valid() && Allowed(h, Init(h), acts)
    requires i < |Run(h, Init(h), acts).history| && Run(h, Init(h), acts).history[i].Took?
    ensures var history := Run(h, Init(h), acts).history;
            var b := history[i].block;
            && 0 < h.start <= b.start && b.End() <= h.end && b.layout.Valid()
            && b.start % b.layout.Align() == 0
            && forall j :: i < j < |history| && history[j].Took? && Restarted !in history[i..j] ==>
                 b.End() <= history[j].block.start
  {
    var history := Run(h, Init(h), acts).history;
    RunIsSequential(h, acts);
    EventIsLegal(h, history, i);
    PositionInHeap(h, history[..i]);
    forall j | i < j < |history| && history[j].Took? && Restarted !in history[i..j]
      ensures history[i].block.End() <= history[j].block.start
    {
      EpochIsDisjoint(h, history, i, j);
    }
  }

  // No call retries more often than the pointer was moved by successes and resets, and
  // there is at most one success per byte of heap for the start and for every reset.
  lemma RetriesAreBounded(h: Heap, acts: seq<Act>, t: Tid)
    requires h.Valid() && Allowed(h, Init(h), acts)
    ensures var y := Run(h, Init(h), acts);
            && Takes(y.history) <= (Resets(y.history) + 1) * (h.end - h.start)
            && (t in y.calls && y.calls[t].Trying? ==>
                  y.calls[t].retries <= Takes(y.history) + Resets(y.history))
  {
    var y := Run(h, Init(h), acts);
    InitInv(h);
    RunKeepsInv(h, Init(h), acts);
    TakesBound(h, y.history);
    Distribute(Resets(y.history), h.end - h.start);
    if t in y.calls && y.calls[t].Trying? {
      assert CallSeen(h, y.history, y.calls[t]);
      var m :| Seen(h, y.history, m, y.calls[t].prev, y.calls[t].retries);
      MovesCount(h, y.history, m);
    }
  }
}
