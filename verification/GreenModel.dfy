/** The cooperative scheduler (exercises/04_context_switch/02_green_threads) as a
    machine: the scheduler's fields, the two globals, and the processor's callee-saved
    registers. Control goes where the register file says. */
module GreenModel {
  import opened Bits
  import opened Cyclic
  import opened Wrappers

  datatype ThreadState = Ready | Running | Finished

  /** The callee-saved registers besides sp and ra. */
  datatype Saved = Saved(s0: nat, s1: nat, s2: nat, s3: nat, s4: nat, s5: nat,
                         s6: nat, s7: nat, s8: nat, s9: nat, s10: nat, s11: nat)

  const ZEROS := Saved(0, 0, 0, 0, 0, 0, 0, 0, 0, 0, 0, 0)

  /** A user function, cut at its yields: one element per segment, the values it leaves
      in s0 to s11 at the end of the segment. */
  type Entry = e: seq<Saved> | |e| > 0 witness [ZEROS]

  /** Where `ret` goes: the return address together with the frames below it on the
      stack that sp points to. */
  datatype Code =
    | InRun                        // back in the loop of run()
    | Wrapper                      // the start of thread_wrapper
    | InYield(f: Entry, seg: nat)  // back in f after its segment `seg`
    | InFinish                     // back in thread_finished, about to fall through
    | Lost                         // thread_wrapper has returned: undefined

  datatype Context = Context(sp: nat, ra: Code, s: Saved)

  datatype Thread = Thread(ctx: Context, state: ThreadState, entry: Option<Entry>)

  /** The start of a segment: which thread the scheduler believes is current, which
      function runs which segment, and the registers and pending cell it finds. */
  datatype Event = Event(thread: nat, f: Entry, seg: nat, sp: nat, s: Saved, pending: Option<Entry>)

  /** `scheduling` says that the global scheduler pointer is set. */
  datatype Machine = Machine(
    threads: seq<Thread>, current: nat, pending: Option<Entry>, scheduling: bool,
    cpu: Context, log: seq<Event>, halted: bool)

  function New(sp: nat, s: Saved): Machine {
    Machine([Thread(Context(0, Lost, ZEROS), Running, None)], 0, None, false, Context(sp, InRun, s), [], false)
  }

  const STACK_SIZE: nat := 0x2_0000

  function StackTop(buffer: nat): nat
    requires buffer + STACK_SIZE < U64
  {
    And(buffer + STACK_SIZE, Not(0xF, U64))
  }

  function Spawn(m: Machine, f: Entry, buffer: nat): Machine
    requires buffer + STACK_SIZE < U64
  {
    m.(threads := m.threads + [Thread(Context(StackTop(buffer), Wrapper, ZEROS), Ready, Some(f))])
  }

  function Distance(next: nat, start: nat, n: nat): nat
    requires next < n && start < n
  {
    if next <= start then start - next else start + n - next
  }

  /** The first ready thread from `next` on, cyclically; `start` if there is none before it. */
  function FindReady(threads: seq<Thread>, start: nat, next: nat): (r: nat)
    requires start < |threads| && next < |threads|
    ensures r < |threads| && (r != start ==> threads[r].state == Ready)
    decreases Distance(next, start, |threads|)
  {
    if next == start || threads[next].state == Ready then next
    else FindReady(threads, start, Succ(next, |threads|))
  }

  function WithState(threads: seq<Thread>, i: nat, state: ThreadState): seq<Thread>
    requires i < |threads|
  {
    threads[i := threads[i].(state := state)]
  }

  /** schedule_next, called from the place `from`. */
  function ScheduleNext(m: Machine, from: Code): Machine
    requires m.current < |m.threads|
  {
    var cpu := m.cpu.(ra := from);
    var next := FindReady(m.threads, m.current, Succ(m.current, |m.threads|));
    if next == m.current then m.(cpu := cpu)
    else
      var t1 := if m.threads[m.current].state != Finished then WithState(m.threads, m.current, Ready) else m.threads;
      var t2 := WithState(t1, next, Running);
      var t3 := t2[next := t2[next].(entry := None)];
      var t4 := t3[m.current := t3[m.current].(ctx := cpu)];
      m.(threads := t4, pending := if t2[next].entry.Some? then t2[next].entry else m.pending,
         current := next, cpu := t4[next].ctx)
  }

  function ThreadFinished(m: Machine): Machine
    requires m.current < |m.threads|
  {
    if m.scheduling then ScheduleNext(m.(threads := WithState(m.threads, m.current, Finished)), InFinish)
    else m.(cpu := m.cpu.(ra := Lost))
  }

  /** Segment k of f, and the yield or the return that ends it. */
  function RunSegment(m: Machine, f: Entry, k: nat): Machine
    requires m.current < |m.threads| && k < |f|
    decreases |f| - k
  {
    var m1 := m.(log := m.log + [Event(m.current, f, k, m.cpu.sp, m.cpu.s, m.pending)], cpu := m.cpu.(s := f[k]));
    if k + 1 == |f| then ThreadFinished(m1)
    else if m.scheduling then ScheduleNext(m1, InYield(f, k))
    else RunSegment(m1, f, k + 1)
  }

  predicate OthersFinished(threads: seq<Thread>) {
    forall j :: 1 <= j < |threads| ==> threads[j].state == Finished
  }

  /** Run from where control is to the next context switch. */
  function Step(m: Machine): Machine
    requires m.current < |m.threads|
  {
    match m.cpu.ra
    case InRun =>
      if OthersFinished(m.threads) then m.(scheduling := false, halted := true) else ScheduleNext(m, InRun)
    case Wrapper =>
      (match m.pending
       case Some(f) => RunSegment(m.(pending := None), f, 0)
       case None => ThreadFinished(m))
    case InYield(f, k) => if k + 1 < |f| then RunSegment(m, f, k + 1) else m
    case InFinish => m.(cpu := m.cpu.(ra := Lost))
    case Lost => m
  }
}
