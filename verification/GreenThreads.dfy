/** The scheduler as the source has it: thread table, current index and globals
    updated in place. A step goes from one context switch to the next. */
module GreenThreads {
  import opened Bits
  import opened Cyclic
  import opened GreenModel
  import opened GreenProofs
  import opened GreenTheorems
  import opened Wrappers

  class Scheduler {
    var threads: seq<Thread>
    var current: nat
    var pending: Option<Entry>  // CURRENT_THREAD_ENTRY
    var scheduling: bool        // SCHEDULER is not null
    var cpu: Context
    var halted: bool
    ghost var log: seq<Event>

    ghost function Value(): Machine
      reads this
    {
      Machine(threads, current, pending, scheduling, cpu, log, halted)
    }

    constructor (sp: nat, s: Saved)
      ensures Value() == New(sp, s)
    {
      threads := [Thread(Context(0, Lost, ZEROS), Running, None)];
      current, pending, scheduling, halted := 0, None, false, false;
      cpu := Context(sp, InRun, s);
      log := [];
    }

    method Spawn(f: Entry, buffer: nat)
      requires buffer + STACK_SIZE < U64
      modifies this
      ensures Value() == GreenModel.Spawn(old(Value()), f, buffer)
    {
      var stackTop := And(buffer + STACK_SIZE, Not(0xF, U64));
      threads := threads + [Thread(Context(stackTop, Wrapper, ZEROS), Ready, Some(f))];
    }

    /** Store the registers in the context of thread `from` and load those of `to`. */
    method SwitchContext(from: nat, to: nat)
      requires from < |threads| && to < |threads|
      modifies `threads, `cpu
      ensures threads == old(threads)[from := old(threads[from]).(ctx := old(cpu))]
      ensures cpu == threads[to].ctx
    {
      threads := threads[from := threads[from].(ctx := cpu)];
      cpu := threads[to].ctx;
    }

    /** The search loop of schedule_next. */
    method NextReady() returns (next: nat)
      requires current < |threads|
      ensures next == FindReady(threads, current, Succ(current, |threads|))
    {
      var n := |threads|;
      SuccIsRemainder(current, n);
      next := (current + 1) % n;
      while next != current
        invariant next < n
        invariant FindReady(threads, current, Succ(current, n)) == FindReady(threads, current, next)
        decreases Distance(next, current, n)
      {
        if threads[next].state == Ready {
          break;
        }
        SuccIsRemainder(next, n);
        assert Distance(Succ(next, n), current, n) < Distance(next, current, n);
        next := (next + 1) % n;
      }
    }

    method ScheduleNext(from: Code)
      requires current < |threads|
      modifies this
      ensures Value() == GreenModel.ScheduleNext(old(Value()), from)
    {
      cpu := cpu.(ra := from);
      var start := current;
      var next := NextReady();
      if next == start {
        return;
      }
      var cur := current;
      if threads[cur].state != Finished {
        threads := threads[cur := threads[cur].(state := Ready)];
      }
      threads := threads[next := threads[next].(state := Running)];
      if threads[next].entry.Some? {
        pending := threads[next].entry;
      }
      threads := threads[next := threads[next].(entry := None)];
      current := next;
      SwitchContext(cur, next);
    }

    method ThreadFinished()
      requires current < |threads|
      modifies this
      ensures Value() == GreenModel.ThreadFinished(old(Value()))
    {
      if scheduling {
        threads := threads[current := threads[current].(state := Finished)];
        ScheduleNext(InFinish);
      } else {
        cpu := cpu.(ra := Lost);
      }
    }

    /** Run f from segment k to its next context switch. */
    method RunSegment(f: Entry, k: nat)
      requires current < |threads| && k < |f|
      modifies this
      ensures Value() == GreenModel.RunSegment(old(Value()), f, k)
      decreases |f| - k
    {
      log := log + [Event(current, f, k, cpu.sp, cpu.s, pending)];
      cpu := cpu.(s := f[k]);
      if k + 1 == |f| {
        ThreadFinished();
      } else if scheduling {
        ScheduleNext(InYield(f, k));
      } else {
        RunSegment(f, k + 1);
      }
    }

    method Step()
      requires current < |threads|
      modifies this
      ensures Value() == GreenModel.Step(old(Value()))
    {
      match cpu.ra
      case InRun =>
        if forall j :: 1 <= j < |threads| ==> threads[j].state == Finished {
          scheduling, halted := false, true;
        } else {
          ScheduleNext(InRun);
        }
      case Wrapper =>
        var entry := pending;
        if entry.Some? {
          pending := None;
          RunSegment(entry.value, 0);
        } else {
          ThreadFinished();
        }
      case InYield(f, k) =>
        if k + 1 < |f| {
          RunSegment(f, k + 1);
        }
      case InFinish =>
        cpu := cpu.(ra := Lost);
      case Lost =>
    }

    /** run(): it returns, and by then every segment of every thread has been executed,
        round by round. The scheduler is ready for more threads and another run. */
    method Run(ghost jobs: Jobs)
      requires Idle(Value(), jobs)
      modifies this
      ensures Completed(Value(), jobs, old(log))
      ensures log == old(log) + Rounds(jobs, Longest(jobs))
      ensures Idle(Value(), seq(|jobs|, j requires 0 <= j < |jobs| => jobs[j].(f := [])))
    {
      ghost var main, base := cpu, log;
      BeginsAt(Value(), jobs);
      scheduling, halted := true, false;
      ghost var r: nat, i: nat := 0, 0;
      while !halted
        invariant r <= Longest(jobs) && jobs != [] && jobs[0].f == []
        invariant if halted then Completed(Value(), jobs, base) && IdleMain(Value())
                  else At(Value(), jobs, main, base, r, i)
        decreases !halted, Longest(jobs) - r, |jobs| - i
      {
        if i == 0 {
          StepFromMain(Value(), jobs, main, base, r);
        } else {
          LongestBounds(jobs, i);
          StepFromThread(Value(), jobs, main, base, r, i);
        }
        Step();
        ghost var following := if i == 0 then (r, NextTurn(jobs, r, 1)) else Following(jobs, r, i);
        r, i := following.0, following.1;
      }
    }
  }

  ghost predicate IdleMain(m: Machine) {
    |m.threads| > 0 && m.cpu.ra == InRun && m.threads[0].entry == None
  }
}
