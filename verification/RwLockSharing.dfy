/** Readers share the lock: who else is reading does not keep a reader out. */
module RwLockSharing {
  import opened RwLockModel
  import opened RwLockProofs
  import opened RwLockTheorems
  import opened RwLockProgress

  /** No writer holds or waits, and the count has room for one more reader. */
  ghost predicate Open(y: Sys) {
    Writers(y) == {} && y.word < 0x8000_0000 && |Readers(y)| < 0x3FFF_FFFF
  }

  predicate Entering(pc: Pc) {
    pc.ReadLoad? || pc.ReadCas?
  }

  /** How many of its own steps a thread in read() is from a guard while the word stays. */
  function Left(pc: Pc, word: u32): nat
    requires Entering(pc)
  {
    match pc
    case ReadLoad => 2
    case ReadCas(s) => if s == word then 1 else 3
  }

  // A reader's own step: it takes the guard, or leaves the word alone and comes nearer.
  lemma OwnReadStep(y: Sys, t: Tid, write: bool)
    requires Inv(y) && Open(y) && Entering(y.Pc(t))
    ensures var y' := Step(y, t, write);
            y'.Pc(t).Reading?
            || (y' == y.Set(y.word, t, y'.Pc(t)) && Entering(y'.Pc(t))
                && Left(y'.Pc(t), y.word) < Left(y.Pc(t), y.word))
    ensures Left(y.Pc(t), y.word) == 1 ==> Step(y, t, write).Pc(t).Reading?
  {
    EncodeFields(|Readers(y)|, false, false);
    if y.Pc(t).ReadLoad? {
      ReadStepInFields(y, t, write);
    }
  }

  /** Everybody but t leaves the word as it is. */
  ghost predicate OthersKeepWord(y: Sys, schedule: Schedule, t: Tid)
    decreases |schedule|
  {
    schedule == []
    || ((schedule[0].0 != t ==> Step(y, schedule[0].0, schedule[0].1).word == y.word)
        && OthersKeepWord(Step(y, schedule[0].0, schedule[0].1), schedule[1..], t))
  }

  // Another thread's step that leaves the word alone keeps the lock open.
  lemma OtherStep(y: Sys, u: Tid, write: bool)
    requires Inv(y) && Open(y) && Step(y, u, write).word == y.word
    ensures Open(Step(y, u, write))
  {
    var y' := Step(y, u, write);
    StepKeepsInv(y, u, write);
    EncodeFields(|Readers(y)|, false, false);
    EncodeFields(|Readers(y')|, Writers(y') != {}, Waiting(y'.word));
  }

  // Any step after which t has no guard yet.
  lemma ReaderComesIn(y: Sys, u: Tid, write: bool, t: Tid)
    requires Inv(y) && Open(y) && Entering(y.Pc(t)) && !Step(y, u, write).Pc(t).Reading?
    requires u != t ==> Step(y, u, write).word == y.word
    ensures var y' := Step(y, u, write);
            && Open(y') && Entering(y'.Pc(t))
            && Left(y'.Pc(t), y'.word) + (if u == t then 1 else 0) <= Left(y.Pc(t), y.word)
  {
    if u == t {
      OwnReadStep(y, t, write);
    }
    OtherStep(y, u, write);
  }

  lemma {:induction false} ReaderGetsIn(y: Sys, schedule: Schedule, t: Tid)
    requires Inv(y) && Open(y) && Entering(y.Pc(t)) && OthersKeepWord(y, schedule, t)
    requires NeverAcquires(y, schedule, t)
    ensures OwnSteps(schedule, t) < Left(y.Pc(t), y.word)
    decreases |schedule|
  {
    if schedule != [] {
      var u, write := schedule[0].0, schedule[0].1;
      StepKeepsInv(y, u, write);
      assert !Acquired(Step(y, u, write), t);
      ReaderComesIn(y, u, write, t);
      ReaderGetsIn(Step(y, u, write), schedule[1..], t);
    }
  }

  // Whatever the number of readers inside, with no writer holding or waiting a thread in
  // read() has a guard by its third step, unless another thread changes the word in
  // between: nothing but somebody else's success, release or announcement delays it.
  lemma ReadersShare(before: Schedule, after: Schedule, t: Tid)
    requires Open(Run(Init(), before)) && Entering(Run(Init(), before).Pc(t))
    requires OwnSteps(after, t) >= 3 && OthersKeepWord(Run(Init(), before), after, t)
    ensures !NeverAcquires(Run(Init(), before), after, t)
  {
    var y := Run(Init(), before);
    InitInv();
    RunKeepsInv(Init(), before);
    if NeverAcquires(y, after, t) {
      ReaderGetsIn(y, after, t);
    }
  }

  // Running alone, it has the guard within three steps.
  lemma ReaderJoins(before: Schedule, t: Tid)
    requires Open(Run(Init(), before)) && Entering(Run(Init(), before).Pc(t))
    ensures AcquiresWithin(Run(Init(), before), t, 3)
  {
    InitInv();
    RunKeepsInv(Init(), before);
    JoinsWithin(Run(Init(), before), t, Left(Run(Init(), before).Pc(t), Run(Init(), before).word));
    var y := Run(Init(), before);
    var k: nat :| k <= Left(y.Pc(t), y.word) && Acquired(Alone(y, t, k), t);
  }

  lemma {:induction false} JoinsWithin(y: Sys, t: Tid, n: nat)
    requires Inv(y) && Open(y) && Entering(y.Pc(t)) && Left(y.Pc(t), y.word) <= n
    ensures AcquiresWithin(y, t, n)
    decreases n
  {
    OwnReadStep(y, t, false);
    var y' := Step(y, t, false);
    if y'.Pc(t).Reading? {
      AcquiresNow(y, t);
      AcquiresLater(y, t, 1, n);
    } else {
      StepKeepsInv(y, t, false);
      OtherStep(y, t, false);
      JoinsWithin(y', t, n - 1);
      AcquiresNext(y, t, n - 1);
    }
  }

  lemma AcquiresLater(y: Sys, t: Tid, m: nat, n: nat)
    requires AcquiresWithin(y, t, m) && m <= n
    ensures AcquiresWithin(y, t, n)
  {
    var k: nat :| k <= m && Acquired(Alone(y, t, k), t);
  }

  // ---------- calls and guards ----------

  predicate OnWriteSide(pc: Pc) {
    pc.Announce? || pc.InWriteLoop()
  }

  // read() and write() end by acquiring their guard and in no other way, guards end when
  // their holder drops them, and no thread moves another.
  lemma CallsEndByAcquiring(y: Sys, u: Tid, write: bool, t: Tid)
    ensures var pc, pc' := y.Pc(t), Step(y, u, write).Pc(t);
            && (u != t ==> pc' == pc)
            && (u == t && pc.Idle? ==> if write then pc'.Announce? else pc'.ReadLoad?)
            && (Entering(pc) ==> Entering(pc') || pc'.Reading?)
            && (OnWriteSide(pc) ==> OnWriteSide(pc') || pc'.Writing?)
            && (u == t && (pc.Reading? || pc.Writing?) ==> pc'.Idle?)
  {
  }

  // A thread in read() waits, changing nothing, while a writer holds or waits or the count
  // is full; a thread in write() while a guard is live.
  lemma BlockedWaits(y: Sys, t: Tid, write: bool)
    requires Inv(y)
    ensures y.Pc(t).ReadLoad? ==>
              (Step(y, t, write) == y <==> !Open(y))
    ensures y.Pc(t).WriteLoad? ==>
              (Step(y, t, write) == y <==> Readers(y) != {} || Writers(y) != {})
  {
    EncodeFields(|Readers(y)|, Writers(y) != {}, Waiting(y.word));
    if y.Pc(t).ReadLoad? {
      ReadStepInFields(y, t, write);
    }
    if y.Pc(t).WriteLoad? {
      WriteStepInFields(y, t, write);
    }
  }

  // ---------- how many readers ----------

  // A thread that arrives at an open lock reads after three steps.
  lemma Arrives(y: Sys, t: Tid)
    requires y.word < 0x3FFF_FFFF && y.Pc(t).Idle?
    ensures Step(Step(Step(y, t, false), t, false), t, false) == Sys(y.word + 1, y.pcs[t := Reading])
  {
    LoadsOpen(Step(y, t, false), t);
    Exchanges(Step(Step(y, t, false), t, false), t);
  }

  lemma LoadsOpen(y: Sys, t: Tid)
    requires y.word < 0x3FFF_FFFF && y.Pc(t).ReadLoad?
    ensures Step(y, t, false) == y.Set(y.word, t, ReadCas(y.word))
  {
    NoFlags(y.word);
    ReadStepInFields(y, t, false);
  }

  lemma NoFlags(word: u32)
    requires word < 0x3FFF_FFFF
    ensures !Holding(word) && !Waiting(word) && ReaderField(word) == word != READER_MASK
  {
  }

  lemma Exchanges(y: Sys, t: Tid)
    requires y.word < 0x3FFF_FFFF && y.Pc(t) == ReadCas(y.word)
    ensures Step(y, t, false) == y.Set(y.word + 1, t, Reading)
  {
  }

  function FirstTids(n: nat): (r: set<Tid>)
    ensures |r| == n && forall t: Tid :: t in r <==> t < n
  {
    if n == 0 then {} else FirstTids(n - 1) + {n - 1}
  }

  function AllReading(n: nat): (pcs: map<Tid, Pc>)
    ensures pcs.Keys == FirstTids(n) && forall t :: t in pcs ==> pcs[t] == Reading
  {
    if n == 0 then map[] else AllReading(n - 1)[n - 1 := Reading]
  }

  lemma {:induction false} ManyReaders(n: nat) returns (schedule: Schedule)
    requires n <= 0x3FFF_FFFF
    ensures Run(Init(), schedule) == Sys(n, AllReading(n))
  {
    if n == 0 {
      schedule := [];
    } else {
      var fewer := ManyReaders(n - 1);
      schedule := OneMore(fewer, n - 1);
    }
  }

  lemma OneMore(schedule: Schedule, t: Tid) returns (longer: Schedule)
    requires Run(Init(), schedule).word < 0x3FFF_FFFF && Run(Init(), schedule).Pc(t).Idle?
    ensures var y := Run(Init(), schedule); Run(Init(), longer) == Sys(y.word + 1, y.pcs[t := Reading])
  {
    Arrives(Run(Init(), schedule), t);
    longer := Then(Then(Then(schedule, t, false), t, false), t, false);
  }

  // Any number of readers up to 2^30 - 1 can hold the lock at once, and never more.
  lemma ReaderCapacityIff(n: nat)
    ensures (exists schedule :: |Readers(Run(Init(), schedule))| == n) <==> n <= 0x3FFF_FFFF
  {
    if n <= 0x3FFF_FFFF {
      var schedule := ManyReaders(n);
      assert Readers(Run(Init(), schedule)) == FirstTids(n);
    }
    forall schedule ensures |Readers(Run(Init(), schedule))| <= 0x3FFF_FFFF {
      InitInv();
      RunKeepsInv(Init(), schedule);
    }
  }
}
