/** Calls of the bump allocator come to an end: alone with the answer the heap allows, and
    in company unless somebody else gets on. */
module BumpProgress {
  import opened Alignment
  import opened HeapRoom
  import opened BumpModel
  import opened BumpHistory
  import opened BumpTheorems
  import opened Wrappers

  // ---------- one call alone ----------

  /** A whole call with nobody in between, and no spurious failure. */
  function WholeCall(t: Tid, layout: Layout): seq<Act> {
    [Invoke(t, layout), Load(t), Attempt(t, false)]
  }

  // Run without interruption a call ends in one attempt. It returns null, and moves
  // nothing, exactly if no aligned place up to the heap's end is large enough; otherwise it
  // returns the first such place and moves the pointer to its end.
  lemma CallAlone(h: Heap, y: Sys, t: Tid, layout: Layout)
    requires h.Valid() && HeapOk(h, y) && t !in y.calls && layout.Valid() && Aligns(h, y.next, layout)
    ensures Allowed(h, y, WholeCall(t, layout))
    ensures var y' := Run(h, y, WholeCall(t, layout));
            && t in y'.calls && y'.calls[t].Returned? && y'.calls[t].layout == layout
            && (y'.calls[t].result == None <==> NoRoom(h, y.next, layout))
            && (y'.calls[t].result == None ==> y'.next == y.next)
            && (y'.calls[t].result.Some? ==>
                  && FirstMultiple(y'.calls[t].result.value, y.next, layout.Align())
                  && y'.next == y'.calls[t].result.value + layout.size <= h.end)
            && (forall u :: u != t ==>
                  (u in y'.calls <==> u in y.calls) && (u in y.calls ==> y'.calls[u] == y.calls[u]))
  {
    var y1 := Step(h, y, Invoke(t, layout));
    var y2 := Step(h, y1, Load(t));
    assert y2.calls[t] == Trying(layout, y.next, 0) && y2.next == y.next;
    FitIffRoom(h, y.next, layout);
    RunOfThree(h, y, Invoke(t, layout), Load(t), Attempt(t, false));
  }

  lemma RunOfThree(h: Heap, y: Sys, a: Act, b: Act, c: Act)
    requires Enabled(h, y, a) && Safe(h, y, a)
    requires var y1 := Step(h, y, a); Enabled(h, y1, b) && Safe(h, y1, b)
    requires var y2 := Step(h, Step(h, y, a), b); Enabled(h, y2, c) && Safe(h, y2, c)
    ensures Allowed(h, y, [a, b, c]) && Run(h, y, [a, b, c]) == Step(h, Step(h, Step(h, y, a), b), c)
  {
    var y1 := Step(h, y, a);
    var y2 := Step(h, y1, b);
    assert [c][1..] == [] && Allowed(h, Step(h, y2, c), []);
    assert Allowed(h, y2, [c]) && Run(h, y2, [c]) == Step(h, y2, c);
    assert [b, c][1..] == [c];
    assert Allowed(h, y1, [b, c]) && Run(h, y1, [b, c]) == Run(h, y2, [c]);
    assert [a, b, c][1..] == [b, c];
  }

  // ---------- all calls together ----------

  /** How many attempts call t makes in a run, not counting spurious failures. */
  function Attempts(acts: seq<Act>, t: Tid): nat
    decreases |acts|
  {
    if acts == [] then 0 else (if acts[0] == Attempt(t, false) then 1 else 0) + Attempts(acts[1..], t)
  }

  // An attempt that is not spurious ends the call, or the pointer has moved since the call
  // read it, and the call has now read it anew.
  lemma AttemptDecides(h: Heap, y: Sys, t: Tid)
    requires Enabled(h, y, Attempt(t, false))
    ensures var y' := Step(h, y, Attempt(t, false));
            t in y'.calls && y'.calls[t].layout == y.calls[t].layout
            && (y'.calls[t].Returned?
                || (y.next != y.calls[t].prev && y'.next == y.next
                    && y'.calls[t] == Trying(y.calls[t].layout, y.next, y.calls[t].retries + 1)))
  {
  }

  // A spurious failure sends the call back to its loop with the pointer as it is now, unless
  // there was nothing to exchange because the request did not fit.
  lemma SpuriousRetries(h: Heap, y: Sys, t: Tid)
    requires Enabled(h, y, Attempt(t, true))
    ensures var y' := Step(h, y, Attempt(t, true));
            && y'.next == y.next && t in y'.calls
            && if Fit(h, y.calls[t].prev, y.calls[t].layout) == None then
                 y'.calls[t] == Returned(y.calls[t].layout, None)
               else y'.calls[t].Trying? && y'.calls[t].prev == y.next
  {
  }

  /** Retries of the call so far. */
  function Behind(y: Sys, t: Tid): nat {
    if t in y.calls && y.calls[t].Trying? then y.calls[t].retries else 0
  }

  predicate Ended(y: Sys, t: Tid) {
    t in y.calls && y.calls[t].Returned?
  }

  lemma StepCounts(h: Heap, y: Sys, act: Act, t: Tid)
    requires Enabled(h, y, act)
    ensures var y' := Step(h, y, act);
            && (Ended(y, t) ==> Ended(y', t) && act != Attempt(t, false))
            && (!Ended(y', t) ==> Behind(y', t) >= Behind(y, t) + if act == Attempt(t, false) then 1 else 0)
  {
    if act == Attempt(t, false) {
      AttemptDecides(h, y, t);
    }
  }

  lemma {:induction false} EndedStays(h: Heap, y: Sys, acts: seq<Act>, t: Tid)
    requires Allowed(h, y, acts) && Ended(y, t)
    ensures Attempts(acts, t) == 0
    decreases |acts|
  {
    if acts != [] {
      StepCounts(h, y, acts[0], t);
      EndedStays(h, Step(h, y, acts[0]), acts[1..], t);
    }
  }

  lemma {:induction false} CountAttempts(h: Heap, y: Sys, acts: seq<Act>, t: Tid)
    requires h.Valid() && Inv(h, y) && Allowed(h, y, acts) && !Ended(y, t)
    ensures Attempts(acts, t) + Behind(y, t) <= 1 + Moves(Run(h, y, acts).history)
    decreases |acts|
  {
    BehindMoves(h, y, acts, t);
    if acts != [] {
      var y' := Step(h, y, acts[0]);
      StepCounts(h, y, acts[0], t);
      StepKeepsInv(h, y, acts[0]);
      if Ended(y', t) {
        EndedStays(h, y', acts[1..], t);
      } else {
        CountAttempts(h, y', acts[1..], t);
      }
    }
  }

  lemma BehindMoves(h: Heap, y: Sys, acts: seq<Act>, t: Tid)
    requires Inv(h, y) && Allowed(h, y, acts)
    ensures Behind(y, t) <= Moves(Run(h, y, acts).history)
  {
    HistoryGrows(h, y, acts);
    var history := Run(h, y, acts).history;
    assert history[..|y.history|] == y.history;
    MovesCount(h, history, |y.history|);
    if t in y.calls && y.calls[t].Trying? {
      assert CallSeen(h, y.history, y.calls[t]);
      var m :| Seen(h, y.history, m, y.calls[t].prev, y.calls[t].retries);
      MovesCount(h, y.history, m);
    }
  }

  // Lock freedom: in every run a call makes at most one attempt more than the pointer was
  // moved, by successes and resets; only spurious failures can add to that.
  lemma AttemptsAreBounded(h: Heap, acts: seq<Act>, t: Tid)
    requires h.Valid() && Allowed(h, Init(h), acts)
    ensures var history := Run(h, Init(h), acts).history;
            Attempts(acts, t) <= 1 + Takes(history) + Resets(history)
  {
    InitInv(h);
    CountAttempts(h, Init(h), acts, t);
  }
}
