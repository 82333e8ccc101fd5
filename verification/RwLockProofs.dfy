/** What every interleaving of the lock keeps. */
module RwLockProofs {
  import opened Bits
  import opened RwLockModel

  function Readers(y: Sys): set<Tid> {
    set t | t in y.pcs && y.pcs[t].Reading?
  }

  function Writers(y: Sys): set<Tid> {
    set t | t in y.pcs && y.pcs[t].Writing?
  }

  /** Threads that have announced themselves in write() and not yet acquired. */
  function WaitingWriters(y: Sys): set<Tid> {
    set t | t in y.pcs && y.pcs[t].InWriteLoop()
  }

  /** What a thread remembers of the word it loaded. */
  predicate LocalOk(pc: Pc) {
    match pc
    case ReadCas(s) => s < READER_MASK
    case WriteCas(s) => s == 0 || s == WRITER_WAITING
    case _ => true
  }

  /** How the word and the three sets of threads belong together. */
  ghost predicate Core(word: u32, readers: set<Tid>, writers: set<Tid>, waiting: set<Tid>) {
    && word == Encode(|readers|, writers != {}, Waiting(word))
    && |readers| <= READER_MASK
    && |writers| <= 1
    && (writers != {} ==> readers == {})
    && (Waiting(word) ==> waiting != {})
  }

  ghost predicate Inv(y: Sys) {
    && Core(y.word, Readers(y), Writers(y), WaitingWriters(y))
    && (forall t :: t in y.pcs ==> LocalOk(y.pcs[t]))
  }

  // ---------- one step ----------

  // A thread that changes its program counter may enter or leave each set.
  lemma ReadersAfter(y: Sys, word: u32, t: Tid, pc: Pc)
    ensures var s, s' := Readers(y), Readers(y.Set(word, t, pc));
            && (t in s <==> y.Pc(t).Reading?)
            && (y.Pc(t).Reading? == pc.Reading? ==> s' == s)
            && (!y.Pc(t).Reading? && pc.Reading? ==> s' == s + {t})
            && (y.Pc(t).Reading? && !pc.Reading? ==> s' == s - {t})
  {
  }

  lemma WritersAfter(y: Sys, word: u32, t: Tid, pc: Pc)
    ensures var s, s' := Writers(y), Writers(y.Set(word, t, pc));
            && (t in s <==> y.Pc(t).Writing?)
            && (y.Pc(t).Writing? == pc.Writing? ==> s' == s)
            && (!y.Pc(t).Writing? && pc.Writing? ==> s' == s + {t})
            && (y.Pc(t).Writing? && !pc.Writing? ==> s' == s - {t})
  {
  }

  lemma WaitingAfter(y: Sys, word: u32, t: Tid, pc: Pc)
    ensures var s, s' := WaitingWriters(y), WaitingWriters(y.Set(word, t, pc));
            && (t in s <==> y.Pc(t).InWriteLoop())
            && (y.Pc(t).InWriteLoop() == pc.InWriteLoop() ==> s' == s)
            && (!y.Pc(t).InWriteLoop() && pc.InWriteLoop() ==> s' == s + {t})
            && (y.Pc(t).InWriteLoop() && !pc.InWriteLoop() ==> s' == s - {t})
  {
  }

  lemma EncodeFields(readers: nat, holding: bool, waiting: bool)
    requires readers <= READER_MASK
    ensures var w := Encode(readers, holding, waiting);
            w < U32 && ReaderField(w) == readers && Holding(w) == holding && Waiting(w) == waiting
  {
  }

  /** The kinds of step, in terms of the fields of the word. */
  datatype Effect = Local | ReadAcquire | ReadRelease | Announcement | WriteAcquire | WriteRelease

  ghost predicate Has(y: Sys, y': Sys, t: Tid, e: Effect) {
    var pc, pc' := y.Pc(t), y'.Pc(t);
    var readers, holding, waiting := |Readers(y)|, Writers(y) != {}, Waiting(y.word);
    match e
    case Local =>
      && y'.word == y.word && (y' == y || y'.pcs == y.pcs[t := pc'])
      && !pc.Reading? && !pc'.Reading? && !pc.Writing? && !pc'.Writing?
      && pc.InWriteLoop() == pc'.InWriteLoop() && LocalOk(pc')
    case ReadAcquire =>
      && pc.ReadCas? && !holding && !waiting && readers < READER_MASK
      && y'.word == Encode(readers + 1, false, false) && y'.pcs == y.pcs[t := Reading]
    case ReadRelease =>
      && pc.Reading? && readers > 0
      && y'.word == Encode(readers - 1, holding, waiting) && y'.pcs == y.pcs[t := Idle]
    case Announcement =>
      && pc.Announce?
      && y'.word == Encode(readers, holding, true) && y'.pcs == y.pcs[t := WriteLoad]
    case WriteAcquire =>
      && (pc.WriteCas? || pc.WriteRetry?) && readers == 0 && !holding
      && y'.word == Encode(0, true, false) && y'.pcs == y.pcs[t := Writing]
    case WriteRelease =>
      && pc.Writing? && readers == 0 && holding
      && y'.word == Encode(0, false, false) && y'.pcs == y.pcs[t := Idle]
  }

  // The bit tests of a step, read as tests of the three fields.
  lemma ReadStepInFields(y: Sys, t: Tid, write: bool)
    requires y.Pc(t).ReadLoad?
    ensures Step(y, t, write)
         == if Holding(y.word) || Waiting(y.word) || ReaderField(y.word) == READER_MASK then y
            else y.Set(y.word, t, ReadCas(y.word))
  {
    Fields(y.word);
  }

  lemma WriteStepInFields(y: Sys, t: Tid, write: bool)
    requires LocalOk(y.Pc(t))
    requires y.Pc(t).Announce? || y.Pc(t).WriteLoad? || y.Pc(t).Writing? || y.Pc(t).WriteCas?
    ensures var w, y' := y.word, Step(y, t, write);
            && (y.Pc(t).Announce? ==>
                  y'.word == Encode(ReaderField(w), Holding(w), true) && y'.pcs == y.pcs[t := WriteLoad])
            && (y.Pc(t).WriteLoad? ==>
                  y' == if ReaderField(w) != 0 || Holding(w) then y else y.Set(w, t, WriteCas(w)))
            && (y.Pc(t).WriteCas? ==>
                  y' == if w == WRITER_WAITING then y.Set(WRITER_HOLDING, t, Writing) else y.Set(w, t, WriteRetry))
            && (y.Pc(t).Writing? ==> y'.word == ReaderField(w) && y'.pcs == y.pcs[t := Idle])
  {
    Fields(y.word);
    if y.Pc(t).WriteCas? {
      Fields(y.Pc(t).s);
    }
  }

  // Every step has exactly the effect its program counter calls for: readers touch
  // the count alone and writers the flags alone, with no carry between the fields.
  lemma StepHasEffect(y: Sys, t: Tid, write: bool) returns (e: Effect)
    requires Inv(y)
    ensures Has(y, Step(y, t, write), t, e)
  {
    EncodeFields(|Readers(y)|, Writers(y) != {}, Waiting(y.word));
    match y.Pc(t)
    case Idle => e := Local;
    case ReadLoad =>
      e := Local;
      ReadStepInFields(y, t, write);
    case ReadCas(s) =>
      e := if y.word == s then ReadAcquire else Local;
    case Reading =>
      e := ReadRelease;
      assert t in Readers(y);
    case Announce =>
      e := Announcement;
      WriteStepInFields(y, t, write);
    case WriteLoad =>
      e := Local;
      WriteStepInFields(y, t, write);
    case WriteCas(s) =>
      e := if y.word == WRITER_WAITING then WriteAcquire else Local;
      WriteStepInFields(y, t, write);
    case WriteRetry => e := if y.word == 0 then WriteAcquire else Local;
    case Writing =>
      e := WriteRelease;
      assert t in Writers(y);
      WriteStepInFields(y, t, write);
  }

  lemma EffectKeepsInv(y: Sys, y': Sys, t: Tid, e: Effect)
    requires Inv(y) && Has(y, y', t, e)
    ensures Inv(y')
  {
    if y' != y {
      assert y' == y.Set(y'.word, t, y'.Pc(t));
      EffectKeepsCore(y, y', t, e);
    }
  }

  lemma EffectKeepsCore(y: Sys, y': Sys, t: Tid, e: Effect)
    requires Inv(y) && Has(y, y', t, e) && y' == y.Set(y'.word, t, y'.Pc(t))
    ensures Core(y'.word, Readers(y'), Writers(y'), WaitingWriters(y'))
  {
    var r, w, a := Readers(y), Writers(y), WaitingWriters(y);
    ReadersAfter(y, y'.word, t, y'.Pc(t));
    WritersAfter(y, y'.word, t, y'.Pc(t));
    WaitingAfter(y, y'.word, t, y'.Pc(t));
    match e
    case Local =>
    case ReadAcquire => AddReader(y.word, r, w, a, t);
    case ReadRelease => RemoveReader(y.word, r, w, a, t);
    case Announcement => EncodeFields(|r|, w != {}, true);
    case WriteAcquire => EncodeFields(0, true, false);
    case WriteRelease =>
      OnlyWriter(w, t);
      EncodeFields(0, false, false);
  }

  lemma AddReader(word: u32, r: set<Tid>, w: set<Tid>, a: set<Tid>, t: Tid)
    requires Core(word, r, w, a) && t !in r && w == {} && !Waiting(word) && |r| < READER_MASK
    ensures Core(Encode(|r| + 1, false, false), r + {t}, w, a)
  {
    EncodeFields(|r| + 1, false, false);
    assert |r + {t}| == |r| + 1;
  }

  lemma RemoveReader(word: u32, r: set<Tid>, w: set<Tid>, a: set<Tid>, t: Tid)
    requires Core(word, r, w, a) && t in r
    ensures Core(Encode(|r| - 1, w != {}, Waiting(word)), r - {t}, w, a)
  {
    EncodeFields(|r| - 1, w != {}, Waiting(word));
    assert |r - {t}| == |r| - 1;
  }

  lemma OnlyWriter(w: set<Tid>, t: Tid)
    requires |w| <= 1 && t in w
    ensures w == {t}
  {
    assert |w - {t}| == 0;
  }

  lemma StepKeepsInv(y: Sys, t: Tid, write: bool)
    requires Inv(y)
    ensures Inv(Step(y, t, write))
  {
    var e := StepHasEffect(y, t, write);
    EffectKeepsInv(y, Step(y, t, write), t, e);
  }
}
