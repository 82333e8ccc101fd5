/** run() executes the round-robin transposition of its threads. */
module GreenProofs {
  import opened Cyclic
  import opened GreenModel
  import opened Wrappers

  // ---------- the specification: a nested loop over rounds and threads ----------

  /** What is left to run: for thread j, its stack and its function, or nothing at all
      if it finished in an earlier run. Index 0 is the main thread. */
  datatype Job = Job(sp: nat, f: seq<Saved>)

  type Jobs = seq<Job>

  /** Segment r of thread j, which must find the registers as it left them. */
  function Turn(jobs: Jobs, j: nat, r: nat): Event
    requires j < |jobs| && r < |jobs[j].f|
  {
    Event(j, jobs[j].f, r, jobs[j].sp, if r == 0 then ZEROS else jobs[j].f[r - 1], None)
  }

  /** Round r up to but not including thread i: every thread that has a segment r. */
  function Round(jobs: Jobs, r: nat, i: nat): seq<Event>
    requires 1 <= i <= |jobs|
  {
    if i == 1 then []
    else Round(jobs, r, i - 1) + if r < |jobs[i - 1].f| then [Turn(jobs, i - 1, r)] else []
  }

  function Rounds(jobs: Jobs, r: nat): seq<Event>
    requires |jobs| >= 1
  {
    if r == 0 then [] else Rounds(jobs, r - 1) + Round(jobs, r - 1, |jobs|)
  }

  /** The log on reaching thread i in round r. */
  function LogAt(jobs: Jobs, base: seq<Event>, r: nat, i: nat): seq<Event>
    requires 1 <= i <= |jobs|
  {
    base + Rounds(jobs, r) + Round(jobs, r, i)
  }

  /** The number of rounds: the longest job. */
  function Longest(jobs: Jobs): nat {
    if jobs == [] then 0
    else
      var rest := Longest(jobs[..|jobs| - 1]);
      if |jobs[|jobs| - 1].f| > rest then |jobs[|jobs| - 1].f| else rest
  }

  lemma {:induction false} LongestBounds(jobs: Jobs, j: nat)
    requires j < |jobs|
    ensures |jobs[j].f| <= Longest(jobs)
    decreases |jobs|
  {
    if j < |jobs| - 1 {
      LongestBounds(jobs[..|jobs| - 1], j);
      assert jobs[..|jobs| - 1][j] == jobs[j];
    }
  }

  // ---------- where a thread stands ----------

  /** The registers thread j has saved after p of its segments. */
  function Resume(jobs: Jobs, main: Context, j: nat, p: nat): Context
    requires j < |jobs| && (j > 0 ==> p < |jobs[j].f|)
  {
    if j == 0 then main
    else if p == 0 then Context(jobs[j].sp, Wrapper, ZEROS)
    else Context(jobs[j].sp, InYield(jobs[j].f, p - 1), jobs[j].f[p - 1])
  }

  /** Segments of thread j done when thread i is about to run in round r. */
  function Progress(i: nat, r: nat, j: nat): nat {
    if 1 <= j < i then r + 1 else r
  }

  ghost predicate ThreadOk(m: Machine, jobs: Jobs, main: Context, r: nat, i: nat, j: nat)
    requires 1 <= j < |jobs| == |m.threads|
  {
    var t, p := m.threads[j], Progress(i, r, j);
    if p >= |jobs[j].f| then t.state == Finished
    else if j == i then t.state == Running && t.entry == None
    else
      && t.state == Ready
      && t.ctx == Resume(jobs, main, j, p)
      && t.entry == if p == 0 then Some(jobs[j].f) else None
  }

  ghost predicate MainOk(m: Machine, main: Context, i: nat)
    requires |m.threads| > 0
  {
    && m.threads[0].entry == None
    && if i == 0 then m.threads[0].state == Running else m.threads[0].state == Ready && m.threads[0].ctx == main
  }

  /** Control is about to enter segment r of thread i, or, when i is 0, the loop of
      run() at the start of round r. */
  ghost predicate At(m: Machine, jobs: Jobs, main: Context, base: seq<Event>, r: nat, i: nat) {
    && |jobs| == |m.threads| > 0 && i < |jobs| && m.current == i && m.scheduling && !m.halted
    && main.ra == InRun
    && (i > 0 ==> r < |jobs[i].f|)
    && m.cpu == Resume(jobs, main, i, r)
    && m.pending == (if i > 0 && r == 0 then Some(jobs[i].f) else None)
    && m.log == LogAt(jobs, base, r, if i == 0 then 1 else i)
    && MainOk(m, main, i)
    && (forall j :: 1 <= j < |jobs| ==> ThreadOk(m, jobs, main, r, i, j))
  }

  // ---------- who runs next ----------

  /** The first thread from j on that has a segment r. */
  function NextTurn(jobs: Jobs, r: nat, j: nat): (k: nat)
    requires j <= |jobs|
    ensures j <= k <= |jobs| && (k < |jobs| ==> r < |jobs[k].f|)
    ensures forall x :: j <= x < k ==> |jobs[x].f| <= r
    decreases |jobs| - j
  {
    if j == |jobs| || r < |jobs[j].f| then j else NextTurn(jobs, r, j + 1)
  }

  lemma {:induction false} RoundSkips(jobs: Jobs, r: nat, j: nat, k: nat)
    requires 1 <= j <= k <= |jobs| && forall x :: j <= x < k ==> |jobs[x].f| <= r
    ensures Round(jobs, r, k) == Round(jobs, r, j)
    decreases k
  {
    if j < k {
      RoundSkips(jobs, r, j, k - 1);
    }
  }

  // The search passes over threads that are not ready and stops at the first that is.
  lemma {:induction false} FindsForward(threads: seq<Thread>, start: nat, next: nat, j: nat)
    requires start < next <= j < |threads| && threads[j].state == Ready
    requires forall x :: next <= x < j ==> threads[x].state != Ready
    ensures FindReady(threads, start, next) == j
    decreases j - next
  {
    if next < j {
      FindsForward(threads, start, next + 1, j);
    }
  }

  // With nobody ready after the current thread the search wraps round to main.
  lemma {:induction false} FindsMain(threads: seq<Thread>, start: nat, next: nat)
    requires 0 < start < next <= |threads| && threads[0].state == Ready
    requires forall x :: next <= x < |threads| ==> threads[x].state != Ready
    ensures FindReady(threads, start, if next == |threads| then 0 else next) == 0
    decreases |threads| - next
  {
    if next < |threads| {
      FindsMain(threads, start, next + 1);
    }
  }

  // ---------- one context switch ----------

  /** Thread i has just ended its segment r (or, when i is 0, run() has seen work to
      do) and calls schedule_next from `from`. */
  ghost predicate Leaving(m: Machine, from: Code, jobs: Jobs, main: Context, base: seq<Event>, r: nat, i: nat) {
    && |jobs| == |m.threads| && i < |jobs| && m.current == i && m.scheduling && !m.halted
    && main.ra == InRun && m.pending == None
    && m.log == LogAt(jobs, base, r, i + 1)
    && m.threads[i].entry == None
    && (if i == 0 then m.threads[0].state == Running && m.cpu.(ra := from) == main
        else
          && MainOk(m, main, i)
          && if r + 1 < |jobs[i].f| then
               m.threads[i].state == Running && m.cpu.(ra := from) == Resume(jobs, main, i, r + 1)
             else m.threads[i].state == Finished)
    && (forall j :: 1 <= j < |jobs| && j != i ==> ThreadOk(m, jobs, main, r, i, j))
  }

  // What a context switch does, thread by thread: registers saved and loaded, states
  // changed, the entry of the next thread moved to the pending cell.
  lemma SwitchEffect(m: Machine, from: Code, next: nat)
    requires m.current < |m.threads| && next < |m.threads| && next != m.current
    requires FindReady(m.threads, m.current, Succ(m.current, |m.threads|)) == next
    ensures var m', t, u := ScheduleNext(m, from), m.threads[m.current], m.threads[next];
            && m'.current == next && m'.cpu == u.ctx && |m'.threads| == |m.threads|
            && m'.log == m.log && m'.scheduling == m.scheduling && m'.halted == m.halted
            && m'.pending == (if u.entry.Some? then u.entry else m.pending)
            && m'.threads[m.current]
               == Thread(m.cpu.(ra := from), if t.state != Finished then Ready else Finished, t.entry)
            && m'.threads[next] == Thread(u.ctx, Running, None)
            && forall x :: 0 <= x < |m.threads| && x != m.current && x != next ==> m'.threads[x] == m.threads[x]
  {
  }

  lemma SwitchesWithinRound(m: Machine, from: Code, jobs: Jobs, main: Context, base: seq<Event>, r: nat, i: nat, j: nat)
    requires Leaving(m, from, jobs, main, base, r, i) && j == NextTurn(jobs, r, i + 1) < |jobs|
    ensures At(ScheduleNext(m, from), jobs, main, base, r, j)
  {
    assert ThreadOk(m, jobs, main, r, i, j);
    forall x | i < x < j ensures m.threads[x].state != Ready {
      assert ThreadOk(m, jobs, main, r, i, x);
    }
    FindsForward(m.threads, i, i + 1, j);
    SwitchEffect(m, from, j);
    RoundSkips(jobs, r, i + 1, j);
    OthersInRound(m, from, jobs, main, base, r, i, j);
  }

  lemma OthersInRound(m: Machine, from: Code, jobs: Jobs, main: Context, base: seq<Event>, r: nat, i: nat, j: nat)
    requires Leaving(m, from, jobs, main, base, r, i) && j == NextTurn(jobs, r, i + 1) < |jobs|
    requires FindReady(m.threads, i, Succ(i, |m.threads|)) == j
    ensures forall x :: 1 <= x < |jobs| ==> ThreadOk(ScheduleNext(m, from), jobs, main, r, j, x)
  {
    var m' := ScheduleNext(m, from);
    SwitchEffect(m, from, j);
    forall x | 1 <= x < |jobs| ensures ThreadOk(m', jobs, main, r, j, x) {
      if x != i {
        assert ThreadOk(m, jobs, main, r, i, x);
      }
    }
  }

  lemma SwitchesToMain(m: Machine, from: Code, jobs: Jobs, main: Context, base: seq<Event>, r: nat, i: nat, r': nat)
    requires Leaving(m, from, jobs, main, base, r, i) && i > 0 && NextTurn(jobs, r, i + 1) == |jobs| && r' == r + 1
    ensures At(ScheduleNext(m, from), jobs, main, base, r', 0)
  {
    NobodyAfter(m, from, jobs, main, base, r, i);
    SwitchEffect(m, from, 0);
    RoundEnds(jobs, base, r, i, r');
    OthersNextRound(m, from, jobs, main, base, r, i, r');
  }

  lemma NobodyAfter(m: Machine, from: Code, jobs: Jobs, main: Context, base: seq<Event>, r: nat, i: nat)
    requires Leaving(m, from, jobs, main, base, r, i) && i > 0 && NextTurn(jobs, r, i + 1) == |jobs|
    ensures FindReady(m.threads, i, Succ(i, |m.threads|)) == 0
  {
    forall x | i < x < |jobs| ensures m.threads[x].state != Ready {
      assert ThreadOk(m, jobs, main, r, i, x);
    }
    FindsMain(m.threads, i, i + 1);
  }

  // A round whose last turn is that of thread i is over after it.
  lemma RoundEnds(jobs: Jobs, base: seq<Event>, r: nat, i: nat, r': nat)
    requires 0 < i < |jobs| && NextTurn(jobs, r, i + 1) == |jobs| && r' == r + 1
    ensures LogAt(jobs, base, r, i + 1) == LogAt(jobs, base, r', 1)
  {
    RoundSkips(jobs, r, i + 1, |jobs|);
  }

  lemma OthersNextRound(m: Machine, from: Code, jobs: Jobs, main: Context, base: seq<Event>, r: nat, i: nat, r': nat)
    requires Leaving(m, from, jobs, main, base, r, i) && i > 0 && NextTurn(jobs, r, i + 1) == |jobs| && r' == r + 1
    requires FindReady(m.threads, i, Succ(i, |m.threads|)) == 0
    ensures forall x :: 1 <= x < |jobs| ==> ThreadOk(ScheduleNext(m, from), jobs, main, r', 0, x)
  {
    var m' := ScheduleNext(m, from);
    SwitchEffect(m, from, 0);
    forall x | 1 <= x < |jobs| ensures ThreadOk(m', jobs, main, r', 0, x) {
      if x != i {
        assert ThreadOk(m, jobs, main, r, i, x);
      }
    }
  }

  // ---------- one step ----------

  // A thread runs its segment, which finds what it must find, and leaves.
  lemma SegmentLeaves(m: Machine, jobs: Jobs, main: Context, base: seq<Event>, r: nat, i: nat)
    returns (m1: Machine, from: Code)
    requires At(m, jobs, main, base, r, i) && i > 0
    ensures Leaving(m1, from, jobs, main, base, r, i) && Step(m) == ScheduleNext(m1, from)
  {
    var f := jobs[i].f;
    assert ThreadOk(m, jobs, main, r, i, i);
    m1 := m.(pending := None, log := m.log + [Turn(jobs, i, r)], cpu := m.cpu.(s := f[r]));
    from := InYield(f, r);
    if r + 1 == |f| {
      from := InFinish;
      m1 := m1.(threads := WithState(m.threads, i, Finished));
    }
    assert Round(jobs, r, i + 1) == Round(jobs, r, i) + [Turn(jobs, i, r)];
    forall x | 1 <= x < |jobs| && x != i ensures ThreadOk(m1, jobs, main, r, i, x) {
      assert ThreadOk(m, jobs, main, r, i, x);
    }
  }

  /** All rounds are over and run() has returned. */
  ghost predicate Completed(m: Machine, jobs: Jobs, base: seq<Event>) {
    && m.halted && !m.scheduling && |jobs| == |m.threads| > 0
    && m.log == base + Rounds(jobs, Longest(jobs))
    && m.current == 0 && m.pending == None && m.threads[0].state == Running && OthersFinished(m.threads)
  }

  /** The round and the thread after thread i of round r. */
  function Following(jobs: Jobs, r: nat, i: nat): (nat, nat)
    requires i < |jobs|
  {
    var j := NextTurn(jobs, r, i + 1);
    if j < |jobs| then (r, j) else (r + 1, 0)
  }

  lemma StepFromThread(m: Machine, jobs: Jobs, main: Context, base: seq<Event>, r: nat, i: nat)
    requires At(m, jobs, main, base, r, i) && i > 0
    ensures var (r', i') := Following(jobs, r, i); At(Step(m), jobs, main, base, r', i')
  {
    var m1, from := SegmentLeaves(m, jobs, main, base, r, i);
    var j := NextTurn(jobs, r, i + 1);
    if j < |jobs| {
      SwitchesWithinRound(m1, from, jobs, main, base, r, i, j);
    } else {
      SwitchesToMain(m1, from, jobs, main, base, r, i, r + 1);
    }
  }

  // The loop of run() starts another round as long as one is left, and then returns.
  lemma StepFromMain(m: Machine, jobs: Jobs, main: Context, base: seq<Event>, r: nat)
    requires At(m, jobs, main, base, r, 0) && r <= Longest(jobs) && |jobs[0].f| == 0
    ensures if r == Longest(jobs) then Completed(Step(m), jobs, base)
            else NextTurn(jobs, r, 1) < |jobs| && At(Step(m), jobs, main, base, r, NextTurn(jobs, r, 1))
  {
    var i := NextTurn(jobs, r, 1);
    if i < |jobs| {
      LongestBounds(jobs, i);
      assert ThreadOk(m, jobs, main, r, 0, i) && m.threads[i].state == Ready;
      assert Leaving(m, InRun, jobs, main, base, r, 0);
      SwitchesWithinRound(m, InRun, jobs, main, base, r, 0, i);
    } else {
      LongestWithin(jobs, r);
      forall j | 1 <= j < |jobs| ensures m.threads[j].state == Finished {
        assert ThreadOk(m, jobs, main, r, 0, j);
      }
    }
  }

  lemma {:induction false} LongestWithin(jobs: Jobs, r: nat)
    requires forall j :: 0 <= j < |jobs| ==> |jobs[j].f| <= r
    ensures Longest(jobs) <= r
    decreases |jobs|
  {
    if jobs != [] {
      LongestWithin(jobs[..|jobs| - 1], r);
    }
  }
}
