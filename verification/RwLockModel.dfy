/** The writer-priority read-write lock (exercises/03_os_concurrency/05_rwlock) as
    a protocol: any number of threads, each atomic access to the lock word one
    step, all interleavings. */
module RwLockModel {
  import opened Bits

  const READER_MASK: nat := 0x3FFF_FFFF
  const WRITER_HOLDING: nat := 0x4000_0000
  const WRITER_WAITING: nat := 0x8000_0000

  type u32 = x: nat | x < U32

  /** Where a thread stands; `s` is the value it loaded, possibly stale by now. */
  datatype Pc =
    | Idle
    | ReadLoad
    | ReadCas(s: u32)
    | Reading          // holds a read guard
    | Announce         // about to set WRITER_WAITING
    | WriteLoad
    | WriteCas(s: u32)
    | WriteRetry       // the first exchange failed, about to try 0 -> HOLDING
    | Writing          // holds the write guard
  {
    predicate InWriteLoop() {
      WriteLoad? || WriteCas? || WriteRetry?
    }
  }

  type Tid = nat

  datatype Sys = Sys(word: u32, pcs: map<Tid, Pc>) {
    function Pc(t: Tid): Pc {
      if t in pcs then pcs[t] else Idle
    }

    function Set(word: u32, t: Tid, pc: Pc): Sys {
      Sys(word, pcs[t := pc])
    }
  }

  function Init(): Sys {
    Sys(0, map[])
  }

  /** One atomic step of thread t. An idle thread calls write() or read(), as
      `write` says; a guard is dropped by its holder's next step. */
  function Step(y: Sys, t: Tid, write: bool): Sys {
    var word := y.word;
    match y.Pc(t)
    case Idle => y.Set(word, t, if write then Announce else ReadLoad)
    case ReadLoad =>
      if And(word, Or(WRITER_HOLDING, WRITER_WAITING)) != 0 then y
      else if And(word, READER_MASK) == READER_MASK then y
      else y.Set(word, t, ReadCas(word))
    case ReadCas(s) =>
      if word == s then y.Set(WrapAdd1(s), t, Reading) else y.Set(word, t, ReadLoad)
    case Reading => y.Set(WrapSub1(word), t, Idle)
    case Announce => y.Set(FetchOr(word, WRITER_WAITING), t, WriteLoad)
    case WriteLoad =>
      if And(word, Or(READER_MASK, WRITER_HOLDING)) != 0 then y else y.Set(word, t, WriteCas(word))
    case WriteCas(s) =>
      if word == Or(s, WRITER_WAITING) then y.Set(WRITER_HOLDING, t, Writing) else y.Set(word, t, WriteRetry)
    case WriteRetry =>
      if word == 0 then y.Set(WRITER_HOLDING, t, Writing) else y.Set(word, t, WriteLoad)
    case Writing => y.Set(ClearFlags(word), t, Idle)
  }

  // Arithmetic on the word wraps at 32 bits.
  function WrapAdd1(word: u32): u32 {
    if word == U32 - 1 then 0 else word + 1
  }

  function WrapSub1(word: u32): u32 {
    if word == 0 then U32 - 1 else word - 1
  }

  function FetchOr(word: u32, flag: u32): (r: u32)
  {
    Pow2Values();
    OrBound(word, flag, 32);
    Or(word, flag)
  }

  function ClearFlags(word: u32): (r: u32)
  {
    Fields(word);
    And(word, Not(Or(WRITER_HOLDING, WRITER_WAITING), U32))
  }

  // ---------- the fields of the word ----------

  function Encode(readers: nat, holding: bool, waiting: bool): nat {
    readers + (if holding then WRITER_HOLDING else 0) + if waiting then WRITER_WAITING else 0
  }

  function ReaderField(word: u32): nat {
    word % 0x4000_0000
  }

  predicate Holding(word: u32) {
    (word / 0x4000_0000) % 2 == 1
  }

  predicate Waiting(word: u32) {
    word >= WRITER_WAITING
  }

  // What each bit expression of the lock computes, in terms of the three fields.
  lemma Fields(word: u32)
    ensures Or(WRITER_HOLDING, WRITER_WAITING) == 0xC000_0000 && Or(READER_MASK, WRITER_HOLDING) == 0x7FFF_FFFF
    ensures word == Encode(ReaderField(word), Holding(word), Waiting(word))
    ensures And(word, READER_MASK) == ReaderField(word)
    ensures And(word, Or(WRITER_HOLDING, WRITER_WAITING)) != 0 <==> Holding(word) || Waiting(word)
    ensures And(word, Or(READER_MASK, WRITER_HOLDING)) != 0 <==> ReaderField(word) != 0 || Holding(word)
    ensures And(word, WRITER_HOLDING) != 0 <==> Holding(word)
    ensures And(word, WRITER_WAITING) != 0 <==> Waiting(word)
    ensures Or(word, WRITER_WAITING) == Encode(ReaderField(word), Holding(word), true)
    ensures And(word, Not(Or(WRITER_HOLDING, WRITER_WAITING), U32)) == ReaderField(word)
  {
    FlagConstants();
    FlagFields(word);
    CountField(word);
    Decompose(word);
  }

  lemma FlagFields(word: u32)
    ensures And(word, 0xC000_0000) != 0 <==> Holding(word) || Waiting(word)
    ensures And(word, WRITER_HOLDING) != 0 <==> Holding(word)
    ensures And(word, WRITER_WAITING) != 0 <==> Waiting(word)
    ensures Or(word, WRITER_WAITING) == Encode(ReaderField(word), Holding(word), true)
  {
    var r, f := word % 0x4000_0000, word / 0x4000_0000;
    assert word == f * 0x4000_0000 + r;
    TwoBits(f);
    Split(r, f);
  }

  lemma CountField(word: u32)
    ensures And(word, READER_MASK) == ReaderField(word)
    ensures And(word, 0x7FFF_FFFF) != 0 <==> ReaderField(word) != 0 || Holding(word)
  {
    Pow2Values();
    MaskIsMod(word, 30, 0x4000_0000);
    MaskIsMod(word, 31, 0x8000_0000);
    Decompose(word);
  }

  lemma Decompose(word: u32)
    ensures word == Encode(ReaderField(word), Holding(word), Waiting(word))
    ensures word % 0x8000_0000 == ReaderField(word) + if Holding(word) then WRITER_HOLDING else 0
  {
    var f := word / 0x4000_0000;
    assert f == 0 || f == 1 || f == 2 || f == 3;
  }

  lemma FlagConstants()
    ensures Or(WRITER_HOLDING, WRITER_WAITING) == 0xC000_0000 && Or(READER_MASK, WRITER_HOLDING) == 0x7FFF_FFFF
  {
    Pow2Values();
    SplitAt(0, 1, 2, 30, 0x4000_0000);
    SplitAt(READER_MASK, 0, 1, 30, 0x4000_0000);
  }

  lemma TwoBits(f: nat)
    requires f < 4
    ensures And(f, 3) == f && And(f, 1) == f % 2 && And(f, 2) == 2 * (f / 2) && Or(f, 2) == 2 + f % 2
  {
    assert f == 0 || f == 1 || f == 2 || f == 3;
  }

  lemma Split(r: nat, f: nat)
    requires r < 0x4000_0000 && f < 4
    ensures And(f * 0x4000_0000 + r, 0xC000_0000) == And(f, 3) * 0x4000_0000
    ensures And(f * 0x4000_0000 + r, 0x4000_0000) == And(f, 1) * 0x4000_0000
    ensures And(f * 0x4000_0000 + r, 0x8000_0000) == And(f, 2) * 0x4000_0000
    ensures Or(f * 0x4000_0000 + r, 0x8000_0000) == Or(f, 2) * 0x4000_0000 + r
  {
    Pow2Values();
    SplitAt(r, f, 3, 30, 0x4000_0000);
    SplitAt(r, f, 1, 30, 0x4000_0000);
    SplitAt(r, f, 2, 30, 0x4000_0000);
  }

  lemma SplitAt(r: nat, f: nat, g: nat, k: nat, p: nat)
    requires p == Pow2(k) && r < p
    ensures And(f * p + r, g * p) == And(f, g) * p
    ensures Or(f * p + r, g * p) == Or(f, g) * p + r
  {
    AndSplit(f, r, g, 0, k);
    OrSplit(f, r, g, 0, k);
  }
}
