/** Whole runs of the scheduler. */
module GreenTheorems {
  import opened Bits
  import opened Alignment
  import opened GreenModel
  import opened GreenProofs
  import opened Wrappers

  /** Between runs: main is running, and every other thread is fresh or finished. */
  ghost predicate Idle(m: Machine, jobs: Jobs) {
    && |jobs| == |m.threads| > 0 && m.current == 0 && !m.scheduling && m.pending == None && m.cpu.ra == InRun
    && m.threads[0].state == Running && m.threads[0].entry == None && jobs[0].f == []
    && (forall j :: 1 <= j < |jobs| ==> FreshOrFinished(m.threads[j], jobs[j]))
  }

  predicate FreshOrFinished(t: Thread, job: Job) {
    if |job.f| == 0 then t.state == Finished
    else t.state == Ready && t.ctx == Context(job.sp, Wrapper, ZEROS) && t.entry == Some(job.f)
  }

  lemma NewIsIdle(sp: nat, s: Saved)
    ensures Idle(New(sp, s), [Job(sp, [])])
  {
  }

  lemma SpawnIsIdle(m: Machine, jobs: Jobs, f: Entry, buffer: nat)
    requires Idle(m, jobs) && buffer + STACK_SIZE < U64
    ensures Idle(Spawn(m, f, buffer), jobs + [Job(StackTop(buffer), f)])
  {
  }

  lemma FourBits() returns (k: nat)
    ensures k == 4 && Pow2(k) == 16
  {
    Pow2Values();
    k := 4;
  }

  lemma ClearFour(top: u64)
    ensures And(top, Not(0xF, U64)) == top - top % 16
  {
    var k := FourBits();
    var w := WordWidth();
    AndClearMask(top, k, w);
    ShrIsDiv(top, k);
  }

  lemma StackTopIs(buffer: nat)
    requires buffer + 0x2_0000 < U64
    ensures StackTop(buffer) == buffer + 0x2_0000 - (buffer + 0x2_0000) % 16
  {
    ClearFour(buffer + STACK_SIZE);
  }

  // A new stack pointer is the highest 16-byte aligned address of its 128 KB buffer.
  lemma StackTopIsHighest(buffer: nat)
    requires buffer + 0x2_0000 < U64
    ensures StackTop(buffer) % 16 == 0
    ensures buffer + 0x2_0000 - 16 < StackTop(buffer) <= buffer + 0x2_0000
  {
    StackTopIs(buffer);
    RoundedDown(buffer + 0x2_0000, StackTop(buffer));
  }

  lemma RoundedDown(top: nat, s: nat)
    requires s == top - top % 16
    ensures s % 16 == 0 && top - 16 < s <= top
  {
  }

  // spawn adds one thread behind the others, ready to enter the wrapper with all saved
  // registers zero on the top of its own stack, and changes nothing else.
  lemma SpawnAddsThread(m: Machine, f: Entry, buffer: nat)
    requires buffer + 0x2_0000 < U64
    ensures var m' := Spawn(m, f, buffer);
            && m' == m.(threads := m'.threads) && |m'.threads| == |m.threads| + 1
            && m'.threads[..|m.threads|] == m.threads
            && var t := m'.threads[|m.threads|];
               && t.state == Ready && t.entry == Some(f) && t.ctx.ra == Wrapper
               && t.ctx.s == Saved(0, 0, 0, 0, 0, 0, 0, 0, 0, 0, 0, 0)
               && t.ctx.sp == buffer + 0x2_0000 - (buffer + 0x2_0000) % 16
  {
    StackTopIs(buffer);
  }

  function Begin(m: Machine): Machine {
    m.(scheduling := true, halted := false)
  }

  lemma BeginsAt(m: Machine, jobs: Jobs)
    requires Idle(m, jobs)
    ensures At(Begin(m), jobs, m.cpu, m.log, 0, 0)
  {
    forall j | 1 <= j < |jobs| ensures ThreadOk(Begin(m), jobs, m.cpu, 0, 0, j) {
      assert FreshOrFinished(m.threads[j], jobs[j]);
    }
  }

  /** Somewhere on the way, or done. */
  ghost predicate OnTheWay(m: Machine, jobs: Jobs, main: Context, base: seq<Event>) {
    || (Completed(m, jobs, base) && m.cpu.ra == InRun)
    || (exists r, i :: 0 <= r <= Longest(jobs) && 0 <= i && At(m, jobs, main, base, r, i))
  }

  lemma StepStaysOnTheWay(m: Machine, jobs: Jobs, main: Context, base: seq<Event>)
    requires OnTheWay(m, jobs, main, base) && |jobs| > 0 && jobs[0].f == []
    ensures m.current < |m.threads| && OnTheWay(Step(m), jobs, main, base)
  {
    if r, i :| 0 <= r <= Longest(jobs) && 0 <= i && At(m, jobs, main, base, r, i) {
      if i == 0 {
        StepFromMain(m, jobs, main, base, r);
        if r < Longest(jobs) {
          assert At(Step(m), jobs, main, base, r, NextTurn(jobs, r, 1));
        }
      } else {
        LongestBounds(jobs, i);
        StepFromThread(m, jobs, main, base, r, i);
        assert At(Step(m), jobs, main, base, Following(jobs, r, i).0, Following(jobs, r, i).1);
      }
    }
  }

  /** k steps of the machine. */
  function Steps(m: Machine, k: nat): Machine
    decreases k
  {
    if k == 0 || m.current >= |m.threads| then m else Steps(Step(m), k - 1)
  }

  lemma {:induction false} StepsStayOnTheWay(m: Machine, k: nat, jobs: Jobs, main: Context, base: seq<Event>)
    requires OnTheWay(m, jobs, main, base) && |jobs| > 0 && jobs[0].f == []
    ensures OnTheWay(Steps(m, k), jobs, main, base)
    decreases k
  {
    if k > 0 {
      StepStaysOnTheWay(m, jobs, main, base);
      StepsStayOnTheWay(Step(m), k - 1, jobs, main, base);
    }
  }

  /** Exactly the current thread is Running, control is at a place where it belongs,
      and a thread about to start finds its own entry in the pending cell. */
  ghost predicate Safe(m: Machine, jobs: Jobs) {
    && |m.threads| == |jobs| && m.current < |jobs|
    && (forall j :: 0 <= j < |jobs| ==> (m.threads[j].state == Running <==> j == m.current))
    && (m.cpu.ra.InRun? || m.cpu.ra.Wrapper? || m.cpu.ra.InYield?)
    && (m.pending.Some? <==> m.cpu.ra.Wrapper?)
    && (m.pending.Some? ==> m.pending.value == jobs[m.current].f)
  }

  lemma AtIsSafe(m: Machine, jobs: Jobs, main: Context, base: seq<Event>, r: nat, i: nat)
    requires At(m, jobs, main, base, r, i)
    ensures Safe(m, jobs)
  {
    forall j | 1 <= j < |jobs| ensures m.threads[j].state == Running <==> j == m.current {
      assert ThreadOk(m, jobs, main, r, i, j);
    }
  }

  // Every moment of every run is safe: in particular a finished thread always finds
  // another one to switch to, so it is never resumed and the wrapper never returns.
  lemma AlwaysSafe(m: Machine, jobs: Jobs, k: nat)
    requires Idle(m, jobs)
    ensures Safe(Steps(Begin(m), k), jobs)
  {
    BeginsAt(m, jobs);
    StepsStayOnTheWay(Begin(m), k, jobs, m.cpu, m.log);
    var y := Steps(Begin(m), k);
    if r, i :| 0 <= r <= Longest(jobs) && 0 <= i && At(y, jobs, m.cpu, m.log, r, i) {
      AtIsSafe(y, jobs, m.cpu, m.log, r, i);
    }
  }

  lemma {:induction false} Terminates(m: Machine, jobs: Jobs, main: Context, base: seq<Event>, r: nat, i: nat)
    returns (k: nat)
    requires At(m, jobs, main, base, r, i) && r <= Longest(jobs) && jobs[0].f == []
    ensures Completed(Steps(m, k), jobs, base)
    decreases Longest(jobs) - r, |jobs| - i
  {
    if i == 0 {
      StepFromMain(m, jobs, main, base, r);
      if r == Longest(jobs) {
        k := 1;
        assert Steps(m, 1) == Steps(Step(m), 0);
      } else {
        k := Terminates(Step(m), jobs, main, base, r, NextTurn(jobs, r, 1));
        k := k + 1;
      }
    } else {
      LongestBounds(jobs, i);
      StepFromThread(m, jobs, main, base, r, i);
      k := Terminates(Step(m), jobs, main, base, Following(jobs, r, i).0, Following(jobs, r, i).1);
      k := k + 1;
    }
  }

  // run() terminates, and the segments it has executed are exactly the rounds of the
  // specification, each finding its registers as the thread had left them.
  lemma RunIsRoundRobin(m: Machine, jobs: Jobs) returns (k: nat)
    requires Idle(m, jobs)
    ensures Completed(Steps(Begin(m), k), jobs, m.log)
    ensures Steps(Begin(m), k).log == m.log + Rounds(jobs, Longest(jobs))
  {
    BeginsAt(m, jobs);
    k := Terminates(Begin(m), jobs, m.cpu, m.log, 0, 0);
  }

  // ---------- what the rounds are ----------

  predicate Earlier(a: Event, b: Event) {
    a.seg < b.seg || (a.seg == b.seg && a.thread < b.thread)
  }

  /** e is the turn of a thread that has such a segment. */
  ghost predicate IsTurn(jobs: Jobs, e: Event) {
    1 <= e.thread < |jobs| && e.seg < |jobs[e.thread].f| && e == Turn(jobs, e.thread, e.seg)
  }

  ghost predicate InOrder(run: seq<Event>) {
    forall a, b :: 0 <= a < b < |run| ==> Earlier(run[a], run[b])
  }

  lemma OrderAppends(before: seq<Event>, last: seq<Event>)
    requires InOrder(before) && InOrder(last)
    requires forall x, y :: x in before && y in last ==> Earlier(x, y)
    ensures InOrder(before + last)
  {
    var run := before + last;
    forall a, b | 0 <= a < b < |run| ensures Earlier(run[a], run[b]) {
      if a < |before| <= b {
        assert run[a] in before && run[b] in last;
      }
    }
  }

  lemma {:induction false} RoundContents(jobs: Jobs, r: nat, i: nat)
    requires 1 <= i <= |jobs|
    ensures forall e :: e in Round(jobs, r, i) <==> IsTurn(jobs, e) && e.seg == r && e.thread < i
    ensures InOrder(Round(jobs, r, i))
    decreases i
  {
    if i > 1 {
      RoundContents(jobs, r, i - 1);
      var last := if r < |jobs[i - 1].f| then [Turn(jobs, i - 1, r)] else [];
      OrderAppends(Round(jobs, r, i - 1), last);
    }
  }

  /** The run consists of the turns of rounds a up to but not including b, in order. */
  ghost predicate AreRounds(jobs: Jobs, run: seq<Event>, a: nat, b: nat) {
    InOrder(run) && forall e :: e in run <==> IsTurn(jobs, e) && a <= e.seg < b
  }

  lemma RoundsAppend(jobs: Jobs, before: seq<Event>, last: seq<Event>, run: seq<Event>, r: nat)
    requires r > 0 && AreRounds(jobs, before, 0, r - 1) && AreRounds(jobs, last, r - 1, r)
    requires run == before + last
    ensures AreRounds(jobs, run, 0, r)
  {
    OrderAppends(before, last);
    forall e ensures e in before + last <==> e in before || e in last {
    }
  }

  lemma {:induction false} RoundsContents(jobs: Jobs, r: nat)
    requires |jobs| >= 1
    ensures AreRounds(jobs, Rounds(jobs, r), 0, r)
  {
    if r > 0 {
      var before, last := Rounds(jobs, r - 1), Round(jobs, r - 1, |jobs|);
      RoundsContents(jobs, r - 1);
      LastRound(jobs, r);
      RoundsAppend(jobs, before, last, Rounds(jobs, r), r);
    }
  }

  lemma LastRound(jobs: Jobs, r: nat)
    requires |jobs| >= 1 && r > 0
    ensures AreRounds(jobs, Round(jobs, r - 1, |jobs|), r - 1, r)
  {
    RoundContents(jobs, r - 1, |jobs|);
  }

  // The executed segments are all segments of all threads, each exactly once, ordered
  // by segment number and then by spawn order; user code always finds the pending
  // cell empty.
  lemma RunsEverySegmentOnce(m: Machine, jobs: Jobs) returns (k: nat, run: seq<Event>)
    requires Idle(m, jobs)
    ensures Completed(Steps(Begin(m), k), jobs, m.log) && Steps(Begin(m), k).log == m.log + run
    ensures forall e :: e in run <==> IsTurn(jobs, e)
    ensures InOrder(run)
    ensures forall e :: e in run ==> e.pending == None
  {
    k := RunIsRoundRobin(m, jobs);
    run := Rounds(jobs, Longest(jobs));
    RoundsContents(jobs, Longest(jobs));
    forall e ensures e in run <==> IsTurn(jobs, e) {
      if IsTurn(jobs, e) {
        LongestBounds(jobs, e.thread);
      }
    }
  }
}
