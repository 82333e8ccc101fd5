/** The lock as the source has it: one word, updated in place by atomic operations.
    The bodies of read(), write() and the two guard drops are cut at their atomic
    operations, and `pcs` says where each thread stands. */
module RwLock {
  import opened Bits
  import opened RwLockModel

  class RwLock {
    var state: u32
    var pcs: map<Tid, Pc>

    function Value(): Sys
      reads this
    {
      Sys(state, pcs)
    }

    constructor ()
      ensures Value() == Init()
    {
      state := 0;
      pcs := map[];
    }

    // ---------- the atomic operations ----------

    method CompareExchange(expected: u32, new_: u32) returns (ok: bool)
      modifies `state
      ensures ok == (old(state) == expected)
      ensures state == if ok then new_ else old(state)
    {
      ok := state == expected;
      if ok {
        state := new_;
      }
    }

    // ---------- one step of a thread ----------

    method ReadStep(t: Tid)
      requires Value().Pc(t).ReadLoad? || Value().Pc(t).ReadCas?
      modifies this
      ensures Value() == Step(old(Value()), t, false)
    {
      match Value().Pc(t)
      case ReadLoad =>
        var s := state;
        if And(s, Or(WRITER_HOLDING, WRITER_WAITING)) != 0 {
          return;
        }
        if And(s, READER_MASK) == READER_MASK {
          return;
        }
        pcs := pcs[t := ReadCas(s)];
      case ReadCas(s) =>
        var ok := CompareExchange(s, WrapAdd1(s));
        pcs := pcs[t := if ok then Reading else ReadLoad];
    }

    method Announce(t: Tid)
      requires Value().Pc(t).Announce?
      modifies this
      ensures Value() == Step(old(Value()), t, true)
    {
      state := FetchOr(state, WRITER_WAITING);
      pcs := pcs[t := WriteLoad];
    }

    method WriteStep(t: Tid)
      requires Value().Pc(t).InWriteLoop()
      modifies this
      ensures Value() == Step(old(Value()), t, true)
    {
      match Value().Pc(t)
      case WriteLoad =>
        var s := state;
        if And(s, Or(READER_MASK, WRITER_HOLDING)) != 0 {
          return;
        }
        pcs := pcs[t := WriteCas(s)];
      case WriteCas(s) =>
        var ok := CompareExchange(FetchOr(s, WRITER_WAITING), WRITER_HOLDING);
        pcs := pcs[t := if ok then Writing else WriteRetry];
      case WriteRetry =>
        var ok := CompareExchange(0, WRITER_HOLDING);
        pcs := pcs[t := if ok then Writing else WriteLoad];
    }

    method DropReadGuard(t: Tid)
      requires Value().Pc(t).Reading?
      modifies this
      ensures Value() == Step(old(Value()), t, false)
    {
      state := WrapSub1(state);
      pcs := pcs[t := Idle];
    }

    method DropWriteGuard(t: Tid)
      requires Value().Pc(t).Writing?
      modifies this
      ensures Value() == Step(old(Value()), t, false)
    {
      state := ClearFlags(state);
      pcs := pcs[t := Idle];
    }
  }
}
