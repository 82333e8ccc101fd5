/** Progress of the lock: a thread that runs alone, and all threads together. */
module RwLockProgress {
  import opened RwLockModel
  import opened RwLockProofs
  import opened RwLockTheorems

  /** n steps of thread t alone. */
  function Alone(y: Sys, t: Tid, n: nat): Sys
    decreases n
  {
    if n == 0 then y else Alone(Step(y, t, false), t, n - 1)
  }

  predicate Trying(pc: Pc) {
    !pc.Idle? && !pc.Reading? && !pc.Writing?
  }

  /** Thread t holds a guard after at most n steps of its own. */
  ghost predicate AcquiresWithin(y: Sys, t: Tid, n: nat) {
    exists k: nat :: k <= n && Acquired(Alone(y, t, k), t)
  }

  lemma AcquiresNext(y: Sys, t: Tid, n: nat)
    requires AcquiresWithin(Step(y, t, false), t, n)
    ensures AcquiresWithin(y, t, n + 1)
  {
    var k: nat :| k <= n && Acquired(Alone(Step(y, t, false), t, k), t);
    assert Alone(y, t, k + 1) == Alone(Step(y, t, false), t, k);
  }

  lemma AcquiresNow(y: Sys, t: Tid)
    requires Acquired(Step(y, t, false), t)
    ensures AcquiresWithin(y, t, 1)
  {
    assert Acquired(Alone(Step(y, t, false), t, 0), t);
    AcquiresNext(y, t, 0);
  }

  /** No guard is live. */
  ghost predicate Free(y: Sys) {
    Inv(y) && Readers(y) == {} && Writers(y) == {}
  }

  // A writer in its loop takes a free lock within four steps.
  lemma WriterAcquires(y: Sys, t: Tid)
    requires Free(y) && y.Pc(t).InWriteLoop()
    ensures AcquiresWithin(y, t, 4)
  {
    var y1 := Step(y, t, false);
    EncodeFields(0, false, Waiting(y.word));
    match y.Pc(t)
    case WriteCas(s) => CasAcquires(y, t);
    case WriteLoad =>
      WriteStepInFields(y, t, false);
      LocalMove(y, t);
      CasAcquires(y1, t);
      AcquiresNext(y, t, 2);
    case WriteRetry =>
      if y.word == 0 {
        AcquiresNow(y, t);
      } else {
        LocalMove(y, t);
        WriteStepInFields(y1, t, false);
        LocalMove(y1, t);
        CasAcquires(Step(y1, t, false), t);
        AcquiresNext(y1, t, 2);
        AcquiresNext(y, t, 3);
      }
  }

  // The two exchanges together succeed on either word a free lock can have.
  lemma CasAcquires(y: Sys, t: Tid)
    requires Free(y) && y.Pc(t).WriteCas?
    ensures AcquiresWithin(y, t, 2)
  {
    EncodeFields(0, false, Waiting(y.word));
    WriteStepInFields(y, t, false);
    if y.word == WRITER_WAITING {
      AcquiresNow(y, t);
    } else {
      AcquiresNow(Step(y, t, false), t);
      AcquiresNext(y, t, 1);
    }
  }

  // A step of a trying thread that neither acquires nor announces leaves the lock free.
  lemma LocalMove(y: Sys, t: Tid)
    requires Free(y) && Trying(y.Pc(t)) && Trying(Step(y, t, false).Pc(t)) && !y.Pc(t).Announce?
    ensures Free(Step(y, t, false)) && Step(y, t, false).word == y.word
  {
    var e := StepHasEffect(y, t, false);
    StepKeepsInv(y, t, false);
    var y' := Step(y, t, false);
    ReadersAfter(y, y'.word, t, y'.Pc(t));
    WritersAfter(y, y'.word, t, y'.Pc(t));
  }

  lemma ReaderAcquires(y: Sys, t: Tid)
    requires Free(y) && !Waiting(y.word) && (y.Pc(t).ReadLoad? || y.Pc(t).ReadCas?)
    ensures AcquiresWithin(y, t, 3)
  {
    var y1 := Step(y, t, false);
    EncodeFields(0, false, false);
    if y.Pc(t) == ReadCas(0) {
      AcquiresNow(y, t);
    } else if y.Pc(t).ReadLoad? {
      ReadStepInFields(y, t, false);
      AcquiresNow(y1, t);
      AcquiresNext(y, t, 1);
    } else {
      LocalMove(y, t);
      ReadStepInFields(y1, t, false);
      AcquiresNow(Step(y1, t, false), t);
      AcquiresNext(y1, t, 1);
      AcquiresNext(y, t, 2);
    }
  }

  lemma AnnouncerAcquires(y: Sys, t: Tid)
    requires Free(y) && y.Pc(t).Announce?
    ensures AcquiresWithin(y, t, 5)
  {
    var y' := Step(y, t, false);
    StepKeepsInv(y, t, false);
    ReadersAfter(y, y'.word, t, y'.Pc(t));
    WritersAfter(y, y'.word, t, y'.Pc(t));
    WriterAcquires(y', t);
    AcquiresNext(y, t, 4);
  }

  // No phantom waiter: once all guards are dropped, a thread that runs alone acquires, in
  // the write loop within four steps, announcing itself within five, and as a reader
  // within three if no writer waits.
  lemma AloneItAcquires(schedule: Schedule, t: Tid)
    requires var y := Run(Init(), schedule);
             Readers(y) == {} && Writers(y) == {} && Trying(y.Pc(t))
             && (WaitingWriters(y) == {} || y.Pc(t).InWriteLoop() || y.Pc(t).Announce?)
    ensures var y := Run(Init(), schedule);
            AcquiresWithin(y, t, if y.Pc(t).InWriteLoop() then 4 else if y.Pc(t).Announce? then 5 else 3)
  {
    var y := Run(Init(), schedule);
    InitInv();
    RunKeepsInv(Init(), schedule);
    if y.Pc(t).InWriteLoop() {
      WriterAcquires(y, t);
    } else if y.Pc(t).Announce? {
      AnnouncerAcquires(y, t);
    } else {
      ReaderAcquires(y, t);
    }
  }

  // ---------- all threads together ----------

  function OwnSteps(schedule: Schedule, t: Tid): nat
    decreases |schedule|
  {
    if schedule == [] then 0 else (if schedule[0].0 == t then 1 else 0) + OwnSteps(schedule[1..], t)
  }

  /** No guard is live at any time of the run. */
  ghost predicate NobodyHolds(y: Sys, schedule: Schedule)
    decreases |schedule|
  {
    Readers(y) == {} && Writers(y) == {}
    && (schedule == [] || NobodyHolds(Step(y, schedule[0].0, schedule[0].1), schedule[1..]))
  }

  /** No writer waits at any time of the run. */
  ghost predicate NobodyWaits(y: Sys, schedule: Schedule)
    decreases |schedule|
  {
    WaitingWriters(y) == {}
    && (schedule == [] || NobodyWaits(Step(y, schedule[0].0, schedule[0].1), schedule[1..]))
  }

  /** How many of its own steps a thread in the write loop is from a guard at most. */
  function WriterRank(pc: Pc, waiting: bool): nat
    requires pc.InWriteLoop()
  {
    match pc
    case WriteLoad => if waiting then 2 else 5
    case WriteCas(_) => if waiting then 1 else 4
    case WriteRetry => 3
  }

  function ReaderRank(pc: Pc): nat
    requires pc.ReadLoad? || pc.ReadCas?
  {
    match pc
    case ReadLoad => 2
    case ReadCas(s) => if s == 0 then 1 else 3
  }

  // While the lock stays free, a writer's own step brings it nearer, and no step of
  // another thread takes it back.
  lemma WriterComesNearer(y: Sys, u: Tid, write: bool, t: Tid)
    requires Free(y) && Free(Step(y, u, write)) && y.Pc(t).InWriteLoop()
    ensures var y' := Step(y, u, write);
            && y'.Pc(t).InWriteLoop()
            && WriterRank(y'.Pc(t), Waiting(y'.word)) + (if u == t then 1 else 0)
               <= WriterRank(y.Pc(t), Waiting(y.word))
  {
    var y' := Step(y, u, write);
    var e := StepHasEffect(y, u, write);
    ReadersAfter(y, y'.word, u, y'.Pc(u));
    WritersAfter(y, y'.word, u, y'.Pc(u));
    EncodeFields(0, false, Waiting(y.word));
    EncodeFields(0, false, Waiting(y'.word));
    if u == t {
      OwnWriteStep(y, t, write);
    }
  }

  lemma OwnWriteStep(y: Sys, t: Tid, write: bool)
    requires Free(y) && y.Pc(t).InWriteLoop() && !Step(y, t, write).Pc(t).Writing?
    ensures var y' := Step(y, t, write);
            && y'.Pc(t).InWriteLoop() && y'.word == y.word
            && WriterRank(y'.Pc(t), Waiting(y.word)) < WriterRank(y.Pc(t), Waiting(y.word))
  {
    EncodeFields(0, false, Waiting(y.word));
    if !y.Pc(t).WriteRetry? {
      WriteStepInFields(y, t, write);
    }
  }

  lemma {:induction false} WriterProgress(y: Sys, schedule: Schedule, t: Tid)
    requires Inv(y) && NobodyHolds(y, schedule) && y.Pc(t).InWriteLoop()
    ensures OwnSteps(schedule, t) < WriterRank(y.Pc(t), Waiting(y.word))
    decreases |schedule|
  {
    if schedule != [] {
      var u, write := schedule[0].0, schedule[0].1;
      StepKeepsInv(y, u, write);
      WriterComesNearer(y, u, write, t);
      WriterProgress(Step(y, u, write), schedule[1..], t);
    }
  }

  lemma ReaderComesNearer(y: Sys, u: Tid, write: bool, t: Tid)
    requires Free(y) && Free(Step(y, u, write)) && WaitingWriters(y) == {} && (y.Pc(t).ReadLoad? || y.Pc(t).ReadCas?)
    ensures var pc' := Step(y, u, write).Pc(t);
            && (pc'.ReadLoad? || pc'.ReadCas?)
            && ReaderRank(pc') + (if u == t then 1 else 0) <= ReaderRank(y.Pc(t))
  {
    var y' := Step(y, u, write);
    ReadersAfter(y, y'.word, u, y'.Pc(u));
    EncodeFields(0, false, false);
    if u == t && y.Pc(t).ReadLoad? {
      ReadStepInFields(y, t, write);
    }
  }

  lemma {:induction false} ReaderProgress(y: Sys, schedule: Schedule, t: Tid)
    requires Inv(y) && NobodyHolds(y, schedule) && NobodyWaits(y, schedule)
    requires y.Pc(t).ReadLoad? || y.Pc(t).ReadCas?
    ensures OwnSteps(schedule, t) < ReaderRank(y.Pc(t))
    decreases |schedule|
  {
    if schedule != [] {
      var u, write := schedule[0].0, schedule[0].1;
      StepKeepsInv(y, u, write);
      ReaderComesNearer(y, u, write, t);
      ReaderProgress(Step(y, u, write), schedule[1..], t);
    }
  }

  // In every interleaving a free lock is taken by somebody before a thread in the write
  // loop has made five steps of its own, and before a thread in read() has made three,
  // unless a writer waits.
  lemma FreeLockIsTaken(before: Schedule, after: Schedule, t: Tid)
    requires var y := Run(Init(), before);
             || (y.Pc(t).InWriteLoop() && OwnSteps(after, t) >= 5)
             || ((y.Pc(t).ReadLoad? || y.Pc(t).ReadCas?) && OwnSteps(after, t) >= 3 && NobodyWaits(y, after))
    ensures !NobodyHolds(Run(Init(), before), after)
  {
    var y := Run(Init(), before);
    InitInv();
    RunKeepsInv(Init(), before);
    if NobodyHolds(y, after) {
      if y.Pc(t).InWriteLoop() {
        WriterProgress(y, after, t);
      } else {
        ReaderProgress(y, after, t);
      }
    }
  }

  lemma {:induction false} RunSplits(y: Sys, a: Schedule, b: Schedule)
    ensures Run(y, a + b) == Run(Run(y, a), b)
    ensures NobodyHolds(y, a + b) ==> NobodyHolds(y, a) && NobodyHolds(Run(y, a), b)
    decreases |a|
  {
    if a == [] {
      assert a + b == b;
    } else {
      assert (a + b)[1..] == a[1..] + b;
      RunSplits(Step(y, a[0].0, a[0].1), a[1..], b);
    }
  }

  // As long as the lock stays free, nobody who waits stops waiting.
  lemma WaitersStay(y: Sys, t: Tid, write: bool)
    requires Free(y) && Free(Step(y, t, write))
    ensures WaitingWriters(y) <= WaitingWriters(Step(y, t, write))
  {
    var y' := Step(y, t, write);
    forall w | w in WaitingWriters(y) ensures w in WaitingWriters(y') {
      assert w !in Readers(y') && w !in Writers(y');
      WaiterStays(y, t, write, w);
    }
  }

  lemma {:induction false} NobodyWaited(y: Sys, schedule: Schedule)
    requires Inv(y) && NobodyHolds(y, schedule)
    ensures WaitingWriters(y) <= WaitingWriters(Run(y, schedule))
    ensures WaitingWriters(Run(y, schedule)) == {} ==> NobodyWaits(y, schedule)
    decreases |schedule|
  {
    if schedule != [] {
      var t, write := schedule[0].0, schedule[0].1;
      StepKeepsInv(y, t, write);
      WaitersStay(y, t, write);
      NobodyWaited(Step(y, t, write), schedule[1..]);
    }
  }

  // A thread about to announce itself does so with its next step.
  lemma {:induction false} AnnouncerWaits(y: Sys, schedule: Schedule, t: Tid)
    requires NobodyWaits(y, schedule) && y.Pc(t).Announce?
    ensures OwnSteps(schedule, t) == 0
    decreases |schedule|
  {
    if schedule != [] {
      var u, write := schedule[0].0, schedule[0].1;
      WaitingAfter(y, Step(y, u, write).word, u, Step(y, u, write).Pc(u));
      if u != t {
        AnnouncerWaits(Step(y, u, write), schedule[1..], t);
      }
    }
  }

  // No deadlock, in every interleaving: when somebody wants a free lock and makes three
  // steps, and after that one of the writers then waiting, if there are any, makes five,
  // somebody has taken the lock.
  lemma NoDeadlock(before: Schedule, a: Schedule, b: Schedule, t: Tid)
    requires var y := Run(Init(), before); Trying(y.Pc(t)) && OwnSteps(a, t) >= 3
    requires var waiting := WaitingWriters(Run(Run(Init(), before), a));
             waiting == {} || exists w :: w in waiting && OwnSteps(b, w) >= 5
    ensures !NobodyHolds(Run(Init(), before), a + b)
  {
    var y := Run(Init(), before);
    if NobodyHolds(y, a + b) {
      InitInv();
      RunKeepsInv(Init(), before);
      RunSplits(y, a, b);
      NobodyWaited(y, a);
      if WaitingWriters(Run(y, a)) == {} {
        SomebodyTries(y, a, t);
      } else {
        var w :| w in WaitingWriters(Run(y, a)) && OwnSteps(b, w) >= 5;
        RunKeepsInv(y, a);
        WriterProgress(Run(y, a), b, w);
      }
    }
  }

  lemma SomebodyTries(y: Sys, schedule: Schedule, t: Tid)
    requires Inv(y) && NobodyHolds(y, schedule) && NobodyWaits(y, schedule) && Trying(y.Pc(t))
    ensures OwnSteps(schedule, t) < 3
  {
    assert y.Pc(t).InWriteLoop() ==> t in WaitingWriters(y);
    if y.Pc(t).Announce? {
      AnnouncerWaits(y, schedule, t);
    } else {
      ReaderProgress(y, schedule, t);
    }
  }
}
