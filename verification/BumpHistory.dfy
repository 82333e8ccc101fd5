/** The sequential heap: which histories it allows, and what follows from a history
    for the blocks in it. */
module BumpHistory {
  import opened Bits
  import opened Alignment
  import opened HeapRoom
  import opened BumpModel
  import opened Wrappers

  // ---------- the specification ----------

  function After(h: Heap, next: nat, e: Event): nat {
    match e
    case Took(b) => b.End()
    case Refused(_, _) => next
    case Restarted => h.start
  }

  /** Where the pointer stands after a history. */
  function Position(h: Heap, history: seq<Event>): nat {
    if history == [] then h.start
    else After(h, Position(h, history[..|history| - 1]), history[|history| - 1])
  }

  /** A block is the first aligned place and ends inside the heap; a refused request
      has no place at all. */
  ghost predicate LegalAt(h: Heap, next: nat, e: Event) {
    match e
    case Took(b) => b.layout.Valid() && FirstMultiple(b.start, next, b.layout.Align()) && b.End() <= h.end
    case Refused(_, layout) => layout.Valid() && NoRoom(h, next, layout)
    case Restarted => true
  }

  ghost predicate Legal(h: Heap, history: seq<Event>) {
    history == []
    || (Legal(h, history[..|history| - 1])
        && LegalAt(h, Position(h, history[..|history| - 1]), history[|history| - 1]))
  }

  // ---------- the code, run one call at a time ----------

  datatype Request = Allocate(owner: Tid, layout: Layout) | Restart

  function RequestOf(e: Event): Request {
    match e
    case Took(b) => Allocate(b.owner, b.layout)
    case Refused(owner, layout) => Allocate(owner, layout)
    case Restarted => Restart
  }

  function Requests(history: seq<Event>): (r: seq<Request>)
    ensures |r| == |history|
  {
    seq(|history|, i requires 0 <= i < |history| => RequestOf(history[i]))
  }

  /** One whole call with nobody else around. */
  function Serve(h: Heap, next: u64, request: Request): (Event, u64) {
    match request
    case Restart => (Restarted, h.start)
    case Allocate(t, layout) =>
      match if layout.Valid() then Fit(h, next, layout) else None
      case None => (Refused(t, layout), next)
      case Some(start) => (Took(Block(t, layout, start)), start + layout.size)
  }

  function Replay(h: Heap, requests: seq<Request>): (seq<Event>, u64) {
    if requests == [] then ([], h.start)
    else
      var (history, next) := Replay(h, requests[..|requests| - 1]);
      var (e, next') := Serve(h, next, requests[|requests| - 1]);
      (history + [e], next')
  }

  /** The history is what the sequential heap allows, and what the code would do if the
      same requests came one at a time. */
  ghost predicate HistoryOk(h: Heap, history: seq<Event>, next: u64) {
    && h.start <= next <= h.end
    && next == Position(h, history)
    && Legal(h, history)
    && Replay(h, Requests(history)) == (history, next)
  }

  // ---------- one more event ----------

  lemma Snoc(h: Heap, history: seq<Event>, e: Event)
    ensures Position(h, history + [e]) == After(h, Position(h, history), e)
    ensures Legal(h, history + [e]) <==> Legal(h, history) && LegalAt(h, Position(h, history), e)
  {
    assert (history + [e])[..|history|] == history;
  }

  lemma ReplaySnoc(h: Heap, history: seq<Event>, e: Event)
    ensures var (before, next) := Replay(h, Requests(history));
            var (e', next') := Serve(h, next, RequestOf(e));
            Replay(h, Requests(history + [e])) == (before + [e'], next')
  {
    assert Requests(history + [e])[..|history|] == Requests(history);
  }

  lemma ExtendHistory(h: Heap, history: seq<Event>, next: u64, e: Event, next': u64)
    requires h.Valid() && HistoryOk(h, history, next) && LegalAt(h, next, e)
    requires Serve(h, next, RequestOf(e)) == (e, next')
    ensures HistoryOk(h, history + [e], next')
  {
    Snoc(h, history, e);
    ReplaySnoc(h, history, e);
  }

  // A block taken from the pointer keeps the history good exactly when aligning the
  // pointer did not leave the address space.
  lemma TakeIff(h: Heap, history: seq<Event>, next: u64, b: Block)
    requires h.Valid() && HistoryOk(h, history, next) && b.layout.Valid() && Fit(h, next, b.layout) == Some(b.start)
    ensures b.End() < U64 && (HistoryOk(h, history + [Took(b)], b.End()) <==> Aligns(h, next, b.layout))
    ensures Aligns(h, next, b.layout) ==> next < b.End()
  {
    if Aligns(h, next, b.layout) {
      FitIffRoom(h, next, b.layout);
      ExtendHistory(h, history, next, Took(b), b.End());
    } else {
      OverflowFits(h, next, b.layout);
      Snoc(h, history, Took(b));
    }
  }

  // Reading the pointer never does harm.
  lemma ReadKeepsHistory(h: Heap, history: seq<Event>, next: u64, t: Tid, layout: Layout)
    requires h.Valid() && HistoryOk(h, history, next) && layout.Valid()
    ensures HistoryOk(h, history + RefusalAt(h, next, t, layout), next)
  {
    if Fit(h, next, layout) == None {
      RefusalIsRight(h, next, layout);
      ExtendHistory(h, history, next, Refused(t, layout), next);
    } else {
      assert history + [] == history;
    }
  }

  // ---------- what a legal history says ----------

  lemma {:induction false} EventIsLegal(h: Heap, history: seq<Event>, i: nat)
    requires Legal(h, history) && i < |history|
    ensures Legal(h, history[..i]) && LegalAt(h, Position(h, history[..i]), history[i])
    decreases |history|
  {
    var last := |history| - 1;
    if i < last {
      EventIsLegal(h, history[..last], i);
      assert history[..last][..i] == history[..i];
    }
  }

  lemma {:induction false} PositionInHeap(h: Heap, history: seq<Event>)
    requires h.Valid() && Legal(h, history)
    ensures h.start <= Position(h, history) <= h.end
    decreases |history|
  {
    if history != [] {
      PositionInHeap(h, history[..|history| - 1]);
    }
  }

  // Between two resets the pointer only moves up.
  lemma {:induction false} PositionGrows(h: Heap, history: seq<Event>, i: nat, j: nat)
    requires Legal(h, history) && i <= j <= |history| && Restarted !in history[i..j]
    ensures Position(h, history[..i]) <= Position(h, history[..j])
    decreases j
  {
    if i < j {
      assert history[i..j] == history[i..j - 1] + [history[j - 1]];
      PositionGrows(h, history, i, j - 1);
      EventIsLegal(h, history, j - 1);
      assert history[..j] == history[..j - 1] + [history[j - 1]];
      Snoc(h, history[..j - 1], history[j - 1]);
    }
  }

  // Blocks with no reset between them are disjoint.
  lemma EpochIsDisjoint(h: Heap, history: seq<Event>, i: nat, j: nat)
    requires Legal(h, history) && i < j < |history| && history[i].Took? && history[j].Took?
    requires Restarted !in history[i..j]
    ensures history[i].block.End() <= history[j].block.start
  {
    assert history[i + 1..j] == history[i..j][1..];
    PositionGrows(h, history, i + 1, j);
    assert history[..i + 1] == history[..i] + [history[i]];
    Snoc(h, history[..i], history[i]);
    EventIsLegal(h, history, j);
  }

  // ---------- counting ----------

  function Takes(history: seq<Event>): nat {
    if history == [] then 0
    else Takes(history[..|history| - 1]) + if history[|history| - 1].Took? then 1 else 0
  }

  function Resets(history: seq<Event>): nat {
    if history == [] then 0
    else Resets(history[..|history| - 1]) + if history[|history| - 1].Restarted? then 1 else 0
  }

  /** How many events moved the pointer. */
  function Moves(history: seq<Event>): nat {
    Takes(history) + Resets(history)
  }

  lemma MovesSnoc(history: seq<Event>, e: Event)
    ensures Moves(history + [e]) == Moves(history) + if e.Refused? then 0 else 1
  {
    assert (history + [e])[..|history|] == history;
  }

  // The pointer does not move unless something moved it.
  lemma {:induction false} MovesCount(h: Heap, history: seq<Event>, m: nat)
    requires m <= |history|
    ensures Moves(history[..m]) <= Moves(history)
    ensures Moves(history[..m]) == Moves(history) ==> Position(h, history[..m]) == Position(h, history)
    decreases |history|
  {
    if m == |history| {
      assert history[..m] == history;
    } else {
      var before, e := history[..|history| - 1], history[|history| - 1];
      assert history == before + [e] && before[..m] == history[..m];
      MovesCount(h, before, m);
      MovesSnoc(before, e);
      Snoc(h, before, e);
    }
  }

  // At most one block per byte of heap for the start and for every reset.
  lemma {:induction false} TakesBound(h: Heap, history: seq<Event>)
    requires h.Valid() && Legal(h, history)
    ensures Takes(history) <= Resets(history) * (h.end - h.start) + (Position(h, history) - h.start)
    decreases |history|
  {
    if history != [] {
      var before := history[..|history| - 1];
      TakesBound(h, before);
      PositionInHeap(h, before);
      Distribute(Resets(before), h.end - h.start);
    }
  }

  lemma Distribute(n: nat, size: nat)
    ensures (n + 1) * size == n * size + size
  {
  }
}
