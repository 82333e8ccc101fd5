/** Safety and writer priority of the lock over whole runs. */
module RwLockTheorems {
  import opened Bits
  import opened RwLockModel
  import opened RwLockProofs

  /** A schedule: which thread moves, and what it does if it is idle. */
  type Schedule = seq<(Tid, bool)>

  function Run(y: Sys, schedule: Schedule): Sys
    decreases |schedule|
  {
    if schedule == [] then y else Run(Step(y, schedule[0].0, schedule[0].1), schedule[1..])
  }

  lemma {:induction false} RunKeepsInv(y: Sys, schedule: Schedule)
    requires Inv(y)
    ensures Inv(Run(y, schedule))
    decreases |schedule|
  {
    if schedule != [] {
      StepKeepsInv(y, schedule[0].0, schedule[0].1);
      RunKeepsInv(Step(y, schedule[0].0, schedule[0].1), schedule[1..]);
    }
  }

  lemma InitInv()
    ensures Inv(Init())
  {
    assert Readers(Init()) == {} && Writers(Init()) == {};
  }

  // In every reachable state the low 30 bits count the read guards, the holding bit
  // says whether the one write guard is live, the two kinds exclude each other, and
  // the waiting bit is never set without a thread inside write().
  lemma Safety(schedule: Schedule)
    ensures var y := Run(Init(), schedule);
            && y.word % 0x4000_0000 == And(y.word, READER_MASK) == |Readers(y)|
            && ((y.word / 0x4000_0000) % 2 == 1 <==> And(y.word, WRITER_HOLDING) != 0)
            && (And(y.word, WRITER_HOLDING) != 0 <==> |Writers(y)| == 1)
            && |Writers(y)| <= 1
            && (Writers(y) == {} || Readers(y) == {})
            && (y.word >= 0x8000_0000 <==> And(y.word, WRITER_WAITING) != 0)
            && (And(y.word, WRITER_WAITING) != 0 ==> WaitingWriters(y) != {})
  {
    var y := Run(Init(), schedule);
    InitInv();
    RunKeepsInv(Init(), schedule);
    Fields(y.word);
    EncodeFields(|Readers(y)|, Writers(y) != {}, Waiting(y.word));
  }

  // A reader entering or leaving changes the count by one and never a flag.
  lemma ReadersLeaveFlags(y: Sys, t: Tid, write: bool)
    requires Inv(y) && (y.Pc(t).ReadCas? || y.Pc(t).Reading?)
    ensures Holding(Step(y, t, write).word) == Holding(y.word) && Waiting(Step(y, t, write).word) == Waiting(y.word)
    ensures ReaderField(Step(y, t, write).word)
         == ReaderField(y.word)
            + (if t in Readers(Step(y, t, write)) then 1 else 0) - (if t in Readers(y) then 1 else 0)
  {
    var e := StepHasEffect(y, t, write);
    StepKeepsInv(y, t, write);
    var y' := Step(y, t, write);
    ReadersAfter(y, y'.word, t, y'.Pc(t));
    EncodeFields(|Readers(y)|, Writers(y) != {}, Waiting(y.word));
    if e.ReadAcquire? {
      EncodeFields(|Readers(y)| + 1, false, false);
    } else if e.ReadRelease? {
      EncodeFields(|Readers(y)| - 1, Writers(y) != {}, Waiting(y.word));
    }
  }

  // ---------- writer priority ----------

  predicate Acquired(y: Sys, t: Tid) {
    y.Pc(t).Reading? || y.Pc(t).Writing?
  }

  /** One of the two exchanges is about to succeed. */
  predicate Acquiring(y: Sys, t: Tid) {
    match y.Pc(t)
    case WriteCas(s) => y.word == Or(s, WRITER_WAITING)
    case WriteRetry => y.word == 0
    case _ => false
  }

  /** Thread t is about to acquire or to release the write lock. */
  predicate WriteTurn(y: Sys, t: Tid) {
    y.Pc(t).Writing? || Acquiring(y, t)
  }

  // While the waiting bit is set no reader enters, and the one thing that clears the
  // bit is a writer acquiring or releasing.
  lemma WaitingStep(y: Sys, t: Tid, write: bool)
    requires Inv(y) && Waiting(y.word)
    ensures Readers(Step(y, t, write)) <= Readers(y)
    ensures Waiting(Step(y, t, write).word) <==> !WriteTurn(y, t)
  {
    var e := StepHasEffect(y, t, write);
    var y' := Step(y, t, write);
    ReadersAfter(y, y'.word, t, y'.Pc(t));
    EncodeFields(|Readers(y)|, Writers(y) != {}, Waiting(y.word));
  }

  predicate NoWriteTurn(y: Sys, schedule: Schedule)
    decreases |schedule|
  {
    schedule == [] ||
    (!WriteTurn(y, schedule[0].0)
     && NoWriteTurn(Step(y, schedule[0].0, schedule[0].1), schedule[1..]))
  }

  // From an announcement until the next write acquisition or release, the set of
  // readers only shrinks.
  lemma {:induction false} ReadersOnlyLeave(y: Sys, schedule: Schedule)
    requires Inv(y) && Waiting(y.word) && NoWriteTurn(y, schedule)
    ensures Readers(Run(y, schedule)) <= Readers(y) && Waiting(Run(y, schedule).word)
    decreases |schedule|
  {
    if schedule != [] {
      var t, write := schedule[0].0, schedule[0].1;
      WaitingStep(y, t, write);
      StepKeepsInv(y, t, write);
      ReadersOnlyLeave(Step(y, t, write), schedule[1..]);
    }
  }

  /** At most n threads wait in write() or hold the write guard. */
  ghost predicate AtMost(n: nat, y: Sys) {
    |WaitingWriters(y) + Writers(y)| <= n
  }

  ghost predicate AtMostAlways(n: nat, y: Sys, schedule: Schedule)
    decreases |schedule|
  {
    AtMost(n, y) &&
    (schedule == [] || AtMostAlways(n, Step(y, schedule[0].0, schedule[0].1), schedule[1..]))
  }

  lemma {:induction false} AtMostMore(n: nat, m: nat, y: Sys, schedule: Schedule)
    requires n <= m && AtMostAlways(n, y, schedule)
    ensures AtMostAlways(m, y, schedule)
    decreases |schedule|
  {
    if schedule != [] {
      AtMostMore(n, m, Step(y, schedule[0].0, schedule[0].1), schedule[1..]);
    }
  }

  /** Whoever waits to write, the waiting bit says so. */
  ghost predicate FlagKept(y: Sys) {
    WaitingWriters(y) != {} ==> Waiting(y.word)
  }

  lemma OneWriterStep(y: Sys, t: Tid, write: bool)
    requires Inv(y) && FlagKept(y) && AtMost(1, y) && AtMost(1, Step(y, t, write))
    ensures FlagKept(Step(y, t, write))
  {
    var e := StepHasEffect(y, t, write);
    var y' := Step(y, t, write);
    WaitingAfter(y, y'.word, t, y'.Pc(t));
    WritersAfter(y, y'.word, t, y'.Pc(t));
    EncodeFields(|Readers(y)|, Writers(y) != {}, Waiting(y.word));
    if e.Announcement? {
      EncodeFields(|Readers(y)|, Writers(y) != {}, true);
    } else if e.ReadAcquire? {
      EncodeFields(|Readers(y)| + 1, false, false);
    } else if e.ReadRelease? {
      EncodeFields(|Readers(y)| - 1, Writers(y) != {}, Waiting(y.word));
    } else if e.WriteAcquire? || e.WriteRelease? {
      OnlyWriter(WaitingWriters(y) + Writers(y), t);
      assert WaitingWriters(y') == {};
    }
  }

  ghost predicate NeverAcquires(y: Sys, schedule: Schedule, t: Tid)
    decreases |schedule|
  {
    !Acquired(y, t) &&
    (schedule == [] || NeverAcquires(Step(y, schedule[0].0, schedule[0].1), schedule[1..], t))
  }

  lemma {:induction false} FlagKeptAlways(y: Sys, schedule: Schedule)
    requires Inv(y) && FlagKept(y) && AtMostAlways(1, y, schedule)
    ensures FlagKept(Run(y, schedule))
    decreases |schedule|
  {
    if schedule != [] {
      var t, write := schedule[0].0, schedule[0].1;
      StepKeepsInv(y, t, write);
      OneWriterStep(y, t, write);
      FlagKeptAlways(Step(y, t, write), schedule[1..]);
    }
  }

  lemma {:induction false} NoReaderBefore(y: Sys, schedule: Schedule, w: Tid)
    requires Inv(y) && FlagKept(y) && w in WaitingWriters(y)
    requires AtMostAlways(1, y, schedule) && NeverAcquires(y, schedule, w)
    ensures Readers(Run(y, schedule)) <= Readers(y) && w in WaitingWriters(Run(y, schedule))
    decreases |schedule|
  {
    if schedule != [] {
      var t, write := schedule[0].0, schedule[0].1;
      var y' := Step(y, t, write);
      WaitingStep(y, t, write);
      StepKeepsInv(y, t, write);
      OneWriterStep(y, t, write);
      WaiterStays(y, t, write, w);
      NoReaderBefore(y', schedule[1..], w);
    }
  }

  // A waiting writer leaves its loop by acquiring and in no other way.
  lemma WaiterStays(y: Sys, t: Tid, write: bool, w: Tid)
    requires Inv(y) && w in WaitingWriters(y) && !Acquired(Step(y, t, write), w)
    ensures w in WaitingWriters(Step(y, t, write))
  {
    var e := StepHasEffect(y, t, write);
    var y' := Step(y, t, write);
    WaitingAfter(y, y'.word, t, y'.Pc(t));
  }

  // With at most one writer around, no new reader enters between a writer's
  // announcement and its turn.
  lemma WriterRunsFirst(before: Schedule, after: Schedule, w: Tid)
    requires AtMostAlways(1, Init(), before) && AtMostAlways(1, Run(Init(), before), after)
    requires w in WaitingWriters(Run(Init(), before)) && NeverAcquires(Run(Init(), before), after, w)
    ensures Readers(Run(Run(Init(), before), after)) <= Readers(Run(Init(), before))
  {
    InitInv();
    RunKeepsInv(Init(), before);
    FlagKeptAlways(Init(), before);
    NoReaderBefore(Run(Init(), before), after, w);
  }

  lemma {:induction false} RunExtend(y: Sys, schedule: Schedule, t: Tid, write: bool)
    ensures Run(y, schedule + [(t, write)]) == Step(Run(y, schedule), t, write)
    decreases |schedule|
  {
    if schedule == [] {
      assert [(t, write)][1..] == [];
    } else {
      assert (schedule + [(t, write)])[1..] == schedule[1..] + [(t, write)];
      RunExtend(Step(y, schedule[0].0, schedule[0].1), schedule[1..], t, write);
    }
  }

  // An idle thread takes a free lock: as a writer in four steps, as a reader in three.
  lemma WriterTakes(y: Sys, t: Tid)
    requires y.word == 0 && y.Pc(t).Idle?
    ensures var y' := Step(Step(Step(Step(y, t, true), t, false), t, false), t, false);
            y'.word == WRITER_HOLDING && y'.pcs == y.pcs[t := Writing]
  {
    var y1 := Step(y, t, true);
    WriteStepInFields(y1, t, false);
    var y2 := Step(y1, t, false);
    WriteStepInFields(y2, t, false);
    var y3 := Step(y2, t, false);
    WriteStepInFields(y3, t, false);
  }

  lemma ReaderTakes(y: Sys, t: Tid)
    requires y.word == 0 && y.Pc(t).Idle?
    ensures Step(Step(Step(y, t, false), t, false), t, false).pcs == y.pcs[t := Reading]
  {
    ReadStepInFields(Step(y, t, false), t, false);
  }

  lemma WriterQueues(y: Sys, t: Tid)
    requires y.word == WRITER_HOLDING && y.Pc(t).Idle?
    ensures var y' := Step(Step(y, t, true), t, false);
            y'.word == WRITER_HOLDING + WRITER_WAITING && y'.pcs == y.pcs[t := WriteLoad]
  {
    WriteStepInFields(Step(y, t, true), t, false);
  }

  lemma WriterReleases(y: Sys, t: Tid)
    requires y.word == WRITER_HOLDING + WRITER_WAITING && y.Pc(t).Writing?
    ensures Step(y, t, false) == Sys(0, y.pcs[t := Idle])
  {
    EncodeFields(0, true, true);
    WriteStepInFields(y, t, false);
  }

  // ---------- exactly when the promise is kept ----------

  /** Only threads of W ever call write(). */
  predicate WritersAmong(w: set<Tid>, schedule: Schedule) {
    forall move :: move in schedule && move.1 ==> move.0 in w
  }

  /** One instance of the promise: no new reader enters between the announcement of
      writer t, made by the end of `before`, and its turn, not reached in `after`. */
  ghost predicate PromiseAt(w: set<Tid>, before: Schedule, after: Schedule, t: Tid) {
    var y := Run(Init(), before);
    WritersAmong(w, before) && WritersAmong(w, after) && t in WaitingWriters(y) && NeverAcquires(y, after, t) ==>
      Readers(Run(y, after)) <= Readers(y)
  }

  /** Writer priority, when the threads of W may write: whatever the schedule. */
  ghost predicate Promise(w: set<Tid>) {
    forall before, after, t :: PromiseAt(w, before, after, t)
  }

  /** Every thread on its way through write() is in W. */
  ghost predicate WriteSideIn(y: Sys, w: set<Tid>) {
    forall t :: t in y.pcs && (y.pcs[t].Announce? || y.pcs[t].InWriteLoop() || y.pcs[t].Writing?) ==> t in w
  }

  lemma {:induction false} FewWriters(y: Sys, schedule: Schedule, w: set<Tid>)
    requires WriteSideIn(y, w) && WritersAmong(w, schedule)
    ensures AtMostAlways(|w|, y, schedule) && WriteSideIn(Run(y, schedule), w)
    decreases |schedule|
  {
    SubsetSize(WaitingWriters(y) + Writers(y), w);
    if schedule != [] {
      var t, write := schedule[0].0, schedule[0].1;
      assert schedule[0] in schedule;
      WriteSideStep(y, t, write, w);
      FewWriters(Step(y, t, write), schedule[1..], w);
    }
  }

  lemma WriteSideStep(y: Sys, t: Tid, write: bool, w: set<Tid>)
    requires WriteSideIn(y, w) && (write ==> t in w)
    ensures WriteSideIn(Step(y, t, write), w)
  {
  }

  lemma SubsetSize(a: set<Tid>, b: set<Tid>)
    requires a <= b
    ensures |a| <= |b|
  {
    assert b == a + (b - a);
  }

  lemma PromiseKept(w: set<Tid>)
    requires |w| <= 1
    ensures Promise(w)
  {
    forall before, after, t ensures PromiseAt(w, before, after, t) {
      var y := Run(Init(), before);
      if WritersAmong(w, before) && WritersAmong(w, after) && t in WaitingWriters(y) && NeverAcquires(y, after, t) {
        FewWriters(Init(), before, w);
        FewWriters(y, after, w);
        AtMostMore(|w|, 1, Init(), before);
        AtMostMore(|w|, 1, y, after);
        WriterRunsFirst(before, after, t);
      }
    }
  }

  lemma FirstWriterTakes(a: Tid) returns (schedule: Schedule)
    ensures WritersAmong({a}, schedule)
    ensures Run(Init(), schedule) == Sys(WRITER_HOLDING, map[a := Writing])
  {
    WriterTakes(Init(), a);
    schedule := Then(Then(Then(Then([], a, true), a, false), a, false), a, false);
  }

  // Thread a holds the write lock and thread b has announced itself.
  lemma SecondWriterWaits(a: Tid, b: Tid) returns (schedule: Schedule)
    requires a != b
    ensures WritersAmong({a, b}, schedule)
    ensures var y := Run(Init(), schedule);
            y.word == WRITER_HOLDING + WRITER_WAITING && y.pcs == map[a := Writing, b := WriteLoad]
  {
    var first := FirstWriterTakes(a);
    WriterQueues(Run(Init(), first), b);
    schedule := Then(Then(first, b, true), b, false);
  }

  lemma FirstMove(y: Sys, t: Tid, rest: Schedule, b: Tid)
    ensures Run(y, [(t, false)] + rest) == Run(Step(y, t, false), rest)
    ensures NeverAcquires(y, [(t, false)] + rest, b) <==> !Acquired(y, b) && NeverAcquires(Step(y, t, false), rest, b)
  {
    assert ([(t, false)] + rest)[1..] == rest;
  }

  /** Thread a drops its guard and thread c goes through read(). */
  function Overtake(a: Tid, c: Tid): Schedule {
    [(a, false)] + ([(c, false)] + ([(c, false)] + ([(c, false)] + [])))
  }

  // The release of a clears the flag of b, and any third thread c can read next.
  lemma ReaderOvertakes(y: Sys, a: Tid, b: Tid, c: Tid)
    requires a != b && a != c && b != c
    requires y.word == WRITER_HOLDING + WRITER_WAITING && y.pcs == map[a := Writing, b := WriteLoad]
    ensures NeverAcquires(y, Overtake(a, c), b)
    ensures c in Readers(Run(y, Overtake(a, c))) && b in WaitingWriters(Run(y, Overtake(a, c)))
  {
    WriterReleases(y, a);
    var y1 := Step(y, a, false);
    var y2 := Step(y1, c, false);
    var y3 := Step(y2, c, false);
    ReadStepInFields(y2, c, false);
    ReaderTakes(y1, c);
    FirstMove(y3, c, [], b);
    FirstMove(y2, c, [(c, false)] + [], b);
    FirstMove(y1, c, [(c, false)] + ([(c, false)] + []), b);
    FirstMove(y, a, [(c, false)] + ([(c, false)] + ([(c, false)] + [])), b);
  }

  lemma PromiseBroken(w: set<Tid>, a: Tid, b: Tid, c: Tid)
    requires a in w && b in w && a != b && c != a && c != b
    ensures !Promise(w)
  {
    var before, after := Overtaken(a, b, c);
    assert WritersAmong(w, before) && WritersAmong(w, after);
    assert !PromiseAt(w, before, after, b);
  }

  // A run of two writers and a reader in which the reader overtakes.
  lemma Overtaken(a: Tid, b: Tid, c: Tid) returns (before: Schedule, after: Schedule)
    requires a != b && c != a && c != b
    ensures WritersAmong({a, b}, before) && WritersAmong({a, b}, after)
    ensures var y := Run(Init(), before);
            b in WaitingWriters(y) && NeverAcquires(y, after, b) && !(Readers(Run(y, after)) <= Readers(y))
  {
    before := SecondWriterWaits(a, b);
    after := Overtake(a, c);
    OvertakeBreaks(Run(Init(), before), a, b, c);
  }

  lemma OvertakeBreaks(y: Sys, a: Tid, b: Tid, c: Tid)
    requires a != b && a != c && b != c
    requires y.word == WRITER_HOLDING + WRITER_WAITING && y.pcs == map[a := Writing, b := WriteLoad]
    ensures b in WaitingWriters(y) && NeverAcquires(y, Overtake(a, c), b)
    ensures !(Readers(Run(y, Overtake(a, c))) <= Readers(y))
  {
    ReaderOvertakes(y, a, b, c);
    assert c !in Readers(y);
  }

  lemma {:induction false} FreshTid(w: set<Tid>) returns (c: Tid)
    ensures forall t :: t in w ==> t < c
    decreases |w|
  {
    if w == {} {
      c := 0;
    } else {
      var t :| t in w;
      c := FreshTid(w - {t});
      assert forall u :: u in w ==> u == t || u in w - {t};
      if c <= t {
        c := t + 1;
      }
    }
  }

  // Writer priority is kept in all runs exactly when at most one thread may write.
  lemma PriorityIff(w: set<Tid>)
    ensures Promise(w) <==> |w| <= 1
  {
    if |w| <= 1 {
      PromiseKept(w);
    } else {
      var a :| a in w;
      assert |w - {a}| == |w| - 1;
      var b :| b in w - {a};
      var c := FreshTid(w);
      PromiseBroken(w, a, b, c);
    }
  }

  /** The same promise when at most n threads are on the write side at any moment. */
  ghost predicate CountPromiseAt(n: nat, before: Schedule, after: Schedule, t: Tid) {
    var y := Run(Init(), before);
    AtMostAlways(n, Init(), before) && AtMostAlways(n, y, after)
    && t in WaitingWriters(y) && NeverAcquires(y, after, t) ==>
      Readers(Run(y, after)) <= Readers(y)
  }

  ghost predicate CountPromise(n: nat) {
    forall before, after, t :: CountPromiseAt(n, before, after, t)
  }

  // Any number of threads may write, as long as they come one at a time: the promise is
  // kept exactly if no second writer announces itself before the first has left.
  lemma OneAtATimeIff(n: nat)
    ensures CountPromise(n) <==> n <= 1
  {
    if n <= 1 {
      forall before, after, t ensures CountPromiseAt(n, before, after, t) {
        var y := Run(Init(), before);
        if AtMostAlways(n, Init(), before) && AtMostAlways(n, y, after)
           && t in WaitingWriters(y) && NeverAcquires(y, after, t) {
          AtMostMore(n, 1, Init(), before);
          AtMostMore(n, 1, y, after);
          WriterRunsFirst(before, after, t);
        }
      }
    } else {
      TwoAtATime(n, 0, 1, 2);
    }
  }

  lemma TwoAtATime(n: nat, a: Tid, b: Tid, c: Tid)
    requires n >= 2 && a != b && c != a && c != b
    ensures !CountPromise(n)
  {
    var before, after := Overtaken(a, b, c);
    FewWriters(Init(), before, {a, b});
    FewWriters(Run(Init(), before), after, {a, b});
    AtMostMore(|{a, b}|, n, Init(), before);
    AtMostMore(|{a, b}|, n, Run(Init(), before), after);
    assert !CountPromiseAt(n, before, after, b);
  }

  ghost function Then(schedule: Schedule, t: Tid, write: bool): (r: Schedule)
    ensures Run(Init(), r) == Step(Run(Init(), schedule), t, write)
  {
    RunExtend(Init(), schedule, t, write);
    schedule + [(t, write)]
  }
}
