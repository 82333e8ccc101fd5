/** One call of the scheduler, described without its search loop, and what user code does
    when no scheduler runs. */
module GreenSwitch {
  import opened Bits
  import opened Cyclic
  import opened GreenModel
  import opened GreenProofs
  import opened Wrappers

  /** The thread d places after the current one, counting round. */
  function After(m: Machine, d: nat): (next: nat)
    requires m.current < |m.threads| && d <= |m.threads|
    ensures next < |m.threads|
  {
    if m.current + d < |m.threads| then m.current + d else m.current + d - |m.threads|
  }

  /** Of the other threads, the one d places on is ready and none before it is. */
  ghost predicate NearestReady(m: Machine, d: nat)
    requires m.current < |m.threads|
  {
    && 1 <= d < |m.threads|
    && m.threads[After(m, d)].state == Ready
    && (forall e :: 1 <= e < d ==> m.threads[After(m, e)].state != Ready)
  }

  ghost predicate NobodyReady(m: Machine)
    requires m.current < |m.threads|
  {
    forall e :: 1 <= e < |m.threads| ==> m.threads[After(m, e)].state != Ready
  }

  lemma AfterSucc(m: Machine, d: nat)
    requires m.current < |m.threads| && d < |m.threads|
    ensures Succ(After(m, d), |m.threads|) == After(m, d + 1)
    ensures After(m, d) == m.current <==> d == 0
    ensures After(m, d) == (m.current + d) % |m.threads|
  {
    if m.current + d >= |m.threads| {
      DivUnique(m.current + d, |m.threads|, 1, After(m, d));
    }
  }

  // The search finds the nearest ready thread, or comes back to where it started.
  lemma {:induction false} SearchFrom(m: Machine, d: nat)
    requires m.current < |m.threads| && 1 <= d <= |m.threads|
    requires forall e :: 1 <= e < d ==> m.threads[After(m, e)].state != Ready
    ensures var r := FindReady(m.threads, m.current, After(m, d));
            if NobodyReady(m) then r == m.current else exists k :: NearestReady(m, k) && r == After(m, k)
    decreases |m.threads| - d
  {
    if d < |m.threads| {
      AfterSucc(m, d);
      if m.threads[After(m, d)].state == Ready {
        assert NearestReady(m, d);
      } else {
        SearchFrom(m, d + 1);
      }
    }
  }

  // schedule_next: if no other thread is ready nothing changes but the return address.
  // Otherwise the nearest ready thread runs: the registers go to the context of the
  // current thread, which becomes ready unless it is finished, and come from that of
  // the next, whose entry moves to the pending cell; no other thread is touched.
  lemma ScheduleNextSwitches(m: Machine, from: Code)
    requires m.current < |m.threads|
    ensures NobodyReady(m) ==> ScheduleNext(m, from) == m.(cpu := m.cpu.(ra := from))
    ensures !NobodyReady(m) ==> exists k :: NearestReady(m, k) && Switched(m, from, After(m, k), ScheduleNext(m, from))
  {
    AfterSucc(m, 0);
    SearchFrom(m, 1);
    if !NobodyReady(m) {
      var k :| NearestReady(m, k) && FindReady(m.threads, m.current, Succ(m.current, |m.threads|)) == After(m, k);
      AfterSucc(m, k);
      SwitchEffect(m, from, After(m, k));
      assert Switched(m, from, After(m, k), ScheduleNext(m, from));
    }
  }

  ghost predicate Switched(m: Machine, from: Code, next: nat, m': Machine)
    requires m.current < |m.threads| && next < |m.threads|
  {
    var t, u := m.threads[m.current], m.threads[next];
    && m'.current == next && m'.cpu == u.ctx && |m'.threads| == |m.threads|
    && m'.log == m.log && m'.scheduling == m.scheduling && m'.halted == m.halted
    && m'.pending == (if u.entry.Some? then u.entry else m.pending)
    && m'.threads[m.current] == Thread(m.cpu.(ra := from), if t.state == Finished then Finished else Ready, t.entry)
    && m'.threads[next] == Thread(u.ctx, Running, None)
    && forall x :: 0 <= x < |m.threads| && x != m.current && x != next ==> m'.threads[x] == m.threads[x]
  }

  // thread_finished: the current thread is never ready again, and the nearest ready
  // thread runs.
  lemma FinishedForGood(m: Machine)
    requires m.current < |m.threads| && m.scheduling
    ensures !NobodyReady(m) ==>
              exists k :: NearestReady(m, k) && ThreadFinished(m).current == After(m, k)
    ensures !NobodyReady(m) ==> ThreadFinished(m).threads[m.current].state == Finished
  {
    var m1 := m.(threads := WithState(m.threads, m.current, Finished));
    forall d | 0 <= d < |m.threads| ensures After(m, d) == m.current <==> d == 0 {
      AfterSucc(m, d);
    }
    assert forall d :: 0 <= d < |m.threads| ==> After(m1, d) == After(m, d);
    assert NobodyReady(m1) <==> NobodyReady(m);
    ScheduleNextSwitches(m1, InFinish);
    if !NobodyReady(m) {
      var k :| NearestReady(m1, k) && Switched(m1, InFinish, After(m1, k), ScheduleNext(m1, InFinish));
      assert NearestReady(m, k);
    }
  }

  /** All segments of f from k on, run by thread j one after the other. */
  function Straight(j: nat, f: Entry, k: nat, sp: nat, s: Saved, pending: Option<Entry>): seq<Event>
    requires k <= |f|
  {
    seq(|f| - k, i requires 0 <= i < |f| - k => Event(j, f, k + i, sp, if i == 0 then s else f[k + i - 1], pending))
  }

  // With no scheduler a yield does nothing: the function runs through to its end, each
  // segment finding what the one before left, and no thread or cell changes.
  lemma {:induction false} RunsThrough(m: Machine, f: Entry, k: nat)
    requires m.current < |m.threads| && k < |f| && !m.scheduling
    ensures RunSegment(m, f, k)
         == m.(log := m.log + Straight(m.current, f, k, m.cpu.sp, m.cpu.s, m.pending),
               cpu := Context(m.cpu.sp, Lost, f[|f| - 1]))
    decreases |f| - k
  {
    var first := Event(m.current, f, k, m.cpu.sp, m.cpu.s, m.pending);
    var m1 := m.(log := m.log + [first], cpu := m.cpu.(s := f[k]));
    var rest := Straight(m.current, f, k + 1, m.cpu.sp, f[k], m.pending);
    assert Straight(m.current, f, k, m.cpu.sp, m.cpu.s, m.pending) == [first] + rest;
    assert m.log + ([first] + rest) == (m.log + [first]) + rest;
    if k + 1 < |f| {
      RunsThrough(m1, f, k + 1);
    } else {
      assert m1.log + rest == m1.log;
    }
  }
}
