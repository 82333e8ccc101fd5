/** When a null answer is still right at the moment it is given: exactly when resets
    leave running calls alone. */
module BumpResets {
  import opened Alignment
  import opened HeapRoom
  import opened BumpModel
  import opened BumpTheorems
  import opened BumpProgress
  import opened Wrappers

  /** Call t is going to be refused: its request does not fit at the pointer it has read. */
  predicate Doomed(h: Heap, y: Sys, t: Tid) {
    t in y.calls && y.calls[t].Trying? && y.calls[t].layout.Valid()
    && Fit(h, y.calls[t].prev, y.calls[t].layout) == None
  }

  /** All refusals that are under way are right for the heap as it is now. */
  ghost predicate AllJustified(h: Heap, y: Sys) {
    forall t :: Doomed(h, y, t) ==> NoRoom(h, y.next, y.calls[t].layout)
  }

  // ---------- one run ----------

  /** The refusals under way would be right for the empty heap too. */
  ghost predicate Harmless(h: Heap, y: Sys) {
    forall t :: Doomed(h, y, t) ==> NoRoom(h, h.start, y.calls[t].layout)
  }

  ghost predicate HarmlessResets(h: Heap, y: Sys, acts: seq<Act>)
    requires Allowed(h, y, acts)
    decreases |acts|
  {
    acts == []
    || ((acts[0] == Reset ==> Harmless(h, y)) && HarmlessResets(h, Step(h, y, acts[0]), acts[1..]))
  }

  ghost predicate AlwaysJustified(h: Heap, y: Sys, acts: seq<Act>)
    requires Allowed(h, y, acts)
    decreases |acts|
  {
    AllJustified(h, y) && (acts == [] || AlwaysJustified(h, Step(h, y, acts[0]), acts[1..]))
  }

  // Nothing but a reset can make a refusal wrong.
  lemma StepStaysJustified(h: Heap, y: Sys, act: Act)
    requires h.Valid() && HeapOk(h, y) && AllJustified(h, y) && Enabled(h, y, act) && Safe(h, y, act)
    ensures AllJustified(h, Step(h, y, act)) <==> (act == Reset ==> Harmless(h, y))
  {
    if act == Reset {
      ResetDooms(h, y, Step(h, y, act));
    } else {
      var y' := Step(h, y, act);
      StepKeepsHistoryIff(h, y, act);
      forall t | Doomed(h, y', t) ensures NoRoom(h, y'.next, y'.calls[t].layout) {
        DoomedAfter(h, y, act, y', t);
      }
    }
  }

  lemma ResetDooms(h: Heap, y: Sys, y': Sys)
    requires y' == Step(h, y, Reset)
    ensures AllJustified(h, y') <==> Harmless(h, y)
  {
    assert forall t :: Doomed(h, y', t) <==> Doomed(h, y, t);
  }

  // A call bound to be refused was so before, or has just read the pointer.
  lemma DoomedAfter(h: Heap, y: Sys, act: Act, y': Sys, t: Tid)
    requires y.next <= h.end && AllJustified(h, y) && Enabled(h, y, act) && act != Reset
    requires y' == Step(h, y, act) && y.next <= y'.next && Doomed(h, y', t)
    ensures NoRoom(h, y'.next, y'.calls[t].layout)
  {
    if Doomed(h, y, t) {
      NoRoomLater(h, y.next, y'.next, y.calls[t].layout);
    } else {
      RefusalIsRight(h, y.next, y'.calls[t].layout);
    }
  }

  // In every run: each null answer is right, from the read that decides it to the moment
  // it is given, if and only if no reset comes while a call is bound to be refused
  // that would fit the empty heap.
  lemma {:induction false} JustifiedIffHarmless(h: Heap, y: Sys, acts: seq<Act>)
    requires h.Valid() && HeapOk(h, y) && AllJustified(h, y) && Allowed(h, y, acts)
    ensures AlwaysJustified(h, y, acts) <==> HarmlessResets(h, y, acts)
    decreases |acts|
  {
    if acts != [] {
      var y' := Step(h, y, acts[0]);
      StepStaysJustified(h, y, acts[0]);
      StepKeepsHistoryIff(h, y, acts[0]);
      if AllJustified(h, y') {
        JustifiedIffHarmless(h, y', acts[1..]);
      }
    }
  }

  // ---------- what the caller of reset() can check ----------

  /** No call stands between reading the pointer and returning. */
  ghost predicate Quiet(y: Sys) {
    forall t :: t in y.calls ==> !y.calls[t].Trying?
  }

  ghost predicate QuietResets(h: Heap, y: Sys, acts: seq<Act>)
    requires Allowed(h, y, acts)
    decreases |acts|
  {
    acts == [] || ((acts[0] == Reset ==> Quiet(y)) && QuietResets(h, Step(h, y, acts[0]), acts[1..]))
  }

  lemma {:induction false} QuietIsHarmless(h: Heap, y: Sys, acts: seq<Act>)
    requires Allowed(h, y, acts) && QuietResets(h, y, acts)
    ensures HarmlessResets(h, y, acts)
    decreases |acts|
  {
    if acts != [] {
      QuietIsHarmless(h, Step(h, y, acts[0]), acts[1..]);
    }
  }

  lemma {:induction false} JustifiedAtEnd(h: Heap, y: Sys, acts: seq<Act>)
    requires Allowed(h, y, acts) && AlwaysJustified(h, y, acts)
    ensures AllJustified(h, Run(h, y, acts))
    decreases |acts|
  {
    if acts != [] {
      JustifiedAtEnd(h, Step(h, y, acts[0]), acts[1..]);
    }
  }

  lemma QuietRunIsJustified(h: Heap, acts: seq<Act>)
    requires h.Valid() && Allowed(h, Init(h), acts) && QuietResets(h, Init(h), acts)
    ensures AllJustified(h, Run(h, Init(h), acts))
  {
    InitInv(h);
    QuietIsHarmless(h, Init(h), acts);
    JustifiedIffHarmless(h, Init(h), acts);
    JustifiedAtEnd(h, Init(h), acts);
  }

  // If resets come in quiet moments only, a null answer is never premature: from the
  // moment it is decided until the next reset there is no aligned place for the
  // request, although the call decided on a pointer that may have been stale.
  lemma NullMeansNoRoom(h: Heap, before: seq<Act>, after: seq<Act>, t: Tid)
    requires h.Valid() && Allowed(h, Init(h), before) && QuietResets(h, Init(h), before)
    requires Doomed(h, Run(h, Init(h), before), t)
    requires Allowed(h, Run(h, Init(h), before), after) && Reset !in after
    ensures var y := Run(h, Init(h), before);
            NoRoom(h, Run(h, y, after).next, y.calls[t].layout)
  {
    var y := Run(h, Init(h), before);
    QuietRunIsJustified(h, before);
    InitInv(h);
    RunKeepsInv(h, Init(h), before);
    PointerMovesUp(h, y, after);
    NoRoomLater(h, y.next, Run(h, y, after).next, y.calls[t].layout);
  }

  lemma {:induction false} PointerMovesUp(h: Heap, y: Sys, acts: seq<Act>)
    requires h.Valid() && HeapOk(h, y) && Allowed(h, y, acts) && Reset !in acts
    ensures y.next <= Run(h, y, acts).next
    decreases |acts|
  {
    if acts != [] {
      assert acts[0] in acts;
      StepKeepsHistoryIff(h, y, acts[0]);
      PointerMovesUp(h, Step(h, y, acts[0]), acts[1..]);
    }
  }

  /** One run: null answers are right, as far as the run obliges. If not `busy`, resets
      come in quiet moments only. */
  ghost predicate JustifiedRun(h: Heap, busy: bool, acts: seq<Act>) {
    Allowed(h, Init(h), acts) && (busy || QuietResets(h, Init(h), acts)) ==> AllJustified(h, Run(h, Init(h), acts))
  }

  ghost predicate Justified(h: Heap, busy: bool) {
    forall acts :: JustifiedRun(h, busy, acts)
  }

  // Null answers are right in all runs if and only if resets come in quiet moments only,
  // or the heap is empty and every answer is null.
  lemma NullIffQuietResets(h: Heap, busy: bool)
    requires h.Valid()
    ensures Justified(h, busy) <==> !busy || h.start == h.end
  {
    if !busy {
      forall acts ensures JustifiedRun(h, busy, acts) {
        if Allowed(h, Init(h), acts) && QuietResets(h, Init(h), acts) {
          QuietRunIsJustified(h, acts);
        }
      }
    } else if h.start == h.end {
      forall acts ensures JustifiedRun(h, busy, acts) {
        if Allowed(h, Init(h), acts) {
          EmptyHeap(h, acts);
        }
      }
    } else {
      var layout := Layout(1, 0);
      ResetRefuses(h, 0, 1, layout);
      assert !JustifiedRun(h, busy, ResetRace(h, 0, 1, layout));
    }
  }

  lemma EmptyHeap(h: Heap, acts: seq<Act>)
    requires h.Valid() && h.start == h.end && Allowed(h, Init(h), acts)
    ensures AllJustified(h, Run(h, Init(h), acts))
  {
    InitInv(h);
    RunKeepsInv(h, Init(h), acts);
  }

  // ---------- the run that goes wrong ----------

  /** Call t takes the whole heap; call u starts, reads the pointer, and comes to its
      exchange only after a reset. */
  function ResetRace(h: Heap, t: Tid, u: Tid, layout: Layout): seq<Act>
    requires h.Valid()
  {
    TakeAll(h, t) + [Invoke(u, layout), Load(u), Reset]
  }

  function TakeAll(h: Heap, t: Tid): seq<Act>
    requires h.Valid()
  {
    [Invoke(t, Layout(h.end - h.start, 0)), Load(t), Attempt(t, false)]
  }

  // Call u has read the pointer of a full heap when the reset comes, and is then
  // refused although the heap is empty.
  lemma ResetRefuses(h: Heap, t: Tid, u: Tid, layout: Layout)
    requires h.Valid() && t != u && layout.Valid() && layout.alignLog == 0 && h.start + layout.size <= h.end
    ensures Allowed(h, Init(h), ResetRace(h, t, u, layout))
    ensures var y := Run(h, Init(h), ResetRace(h, t, u, layout));
            && Doomed(h, y, u) && y.calls[u].layout == layout && !NoRoom(h, y.next, layout)
            && Step(h, y, Attempt(u, false)).calls[u] == Returned(layout, None)
  {
    FillHeap(h, t);
    var y := Run(h, Init(h), TakeAll(h, t));
    ReadThenReset(h, y, u, layout);
    RunConcat(h, Init(h), TakeAll(h, t), [Invoke(u, layout), Load(u), Reset]);
  }

  lemma FillHeap(h: Heap, t: Tid)
    requires h.Valid() && h.start < h.end
    ensures Allowed(h, Init(h), TakeAll(h, t))
    ensures var y := Run(h, Init(h), TakeAll(h, t)); y.next == h.end && y.calls.Keys == {t}
  {
    var all := Layout(h.end - h.start, 0);
    AlignUpIff(h.start, all.alignLog);
    var y2 := Step(h, Step(h, Init(h), Invoke(t, all)), Load(t));
    assert y2.calls == map[t := Trying(all, h.start, 0)];
    RunOfThree(h, Init(h), Invoke(t, all), Load(t), Attempt(t, false));
  }

  lemma ReadThenReset(h: Heap, y: Sys, u: Tid, layout: Layout)
    requires h.Valid() && y.next == h.end && layout.Valid() && layout.alignLog == 0 && h.start + layout.size <= h.end
    requires u !in y.calls
    ensures var acts := [Invoke(u, layout), Load(u), Reset];
            && Allowed(h, y, acts)
            && Doomed(h, Run(h, y, acts), u) && Run(h, y, acts).calls[u].layout == layout
            && !NoRoom(h, Run(h, y, acts).next, layout)
  {
    FitIffRoom(h, h.end, layout);
    RunOfThree(h, y, Invoke(u, layout), Load(u), Reset);
    assert AlignedFrom(h.start, h.start, layout.Align());
  }

  lemma {:induction false} RunConcat(h: Heap, y: Sys, a: seq<Act>, b: seq<Act>)
    requires Allowed(h, y, a) && Allowed(h, Run(h, y, a), b)
    ensures Allowed(h, y, a + b) && Run(h, y, a + b) == Run(h, Run(h, y, a), b)
    decreases |a|
  {
    if a == [] {
      assert a + b == b;
    } else {
      assert (a + b)[1..] == a[1..] + b;
      RunConcat(h, Step(h, y, a[0]), a[1..], b);
    }
  }
}
