/**
 What a process loses or keeps across a context switch. `current_proc` is what
 the scheduler believes is running. The processor itself runs the slot that was
 last entered: by `sched_create_user`, whose one caller jumps straight into the
 new process, or by the tick that dispatched it.
 */
module ContextSwitch {
  import opened Words
  import opened Scheduler

  /**
   The table and the slot the processor executes (-1 for none). `holder` was
   `current_proc` when that slot was entered; `hit` says that a signal has
   reached the holder since.
   */
  datatype Machine = Machine(table: Table, running: int, holder: int, hit: bool)
  {
    /** The scheduler knows who is running: entered as current, and not signalled since. */
    predicate Known() { holder == running && !hit }
  }

  function Boot(): Machine { Machine(Init(), -1, -1, false) }

  /** A signal that finds the process the scheduler believes is running. */
  predicate Hits(m: Machine, e: Event) { e.Signal? && e.pid == m.holder + 1 && m.table.IsRunnable(m.holder) }

  /** The slot the event makes the processor enter, or -1: a new process, or one dispatched by an effective tick. */
  function Entered(policy: Policy, t: Table, e: Event): int
    requires t.Shape()
  {
    if e.CreateUser? then FreeSlot(t.procs, 0)
    else if e.Timer? && Effective(t, e.sp) then Choose(policy, Charge(t, e.sp))
    else -1
  }

  function Step(policy: Policy, m: Machine, e: Event): Machine
    requires m.table.Shape()
  {
    var t, slot := Next(policy, m.table, e), Entered(policy, m.table, e);
    if slot >= 0 then Machine(t, slot, t.current, false)
    else m.(table := t, hit := m.hit || Hits(m, e))
  }

  lemma StepKeepsShape(policy: Policy, m: Machine, e: Event)
    requires m.table.Shape()
    ensures Step(policy, m, e).table.Shape()
  {
    NextKeepsShape(policy, m.table, e);
  }

  function Run(policy: Policy, m: Machine, es: seq<Event>): (r: Machine)
    requires m.table.Shape()
    ensures r.table.Shape()
    decreases |es|
  {
    if es == [] then m
    else
      StepKeepsShape(policy, m, es[0]);
      Run(policy, Step(policy, m, es[0]), es[1..])
  }

  /** The scheduler's view is the holder, until a signal reaches it. */
  ghost predicate Agrees(m: Machine)
  {
    && Inv(m.table) && -1 <= m.running < m.table.nextPid - 1 && -1 <= m.holder < m.table.nextPid - 1
    && (m.running < 0 <==> m.holder < 0) && (m.holder < 0 ==> !m.hit)
    && m.table.current == if m.hit then -1 else m.holder
  }

  lemma SpawnAgrees(policy: Policy, m: Machine, e: Event)
    requires Agrees(m) && (e.CreateUser? || e.ForkCurrent?)
    ensures Agrees(Step(policy, m, e))
  {
    NextKeepsInv(policy, m.table, e);
    FreeSlotIsNext(m.table);
    hide Inv, FreeSlot;
  }

  lemma SignalAgrees(policy: Policy, m: Machine, e: Event)
    requires Agrees(m) && e.Signal?
    ensures Agrees(Step(policy, m, e))
  {
    NextKeepsInv(policy, m.table, e);
    KillEffect(m.table, e.pid, e.signal);
    hide Inv, Kill;
  }

  lemma TickAgrees(policy: Policy, m: Machine, e: Event)
    requires Agrees(m) && e.Timer?
    ensures Agrees(Step(policy, m, e))
  {
    NextKeepsInv(policy, m.table, e);
    var t' := Next(policy, m.table, e);
    assert t'.nextPid == m.table.nextPid;
    var slot := Entered(policy, m.table, e);
    if slot >= 0 {
      assert t'.procs[t'.current].state == Runnable;
      assert t'.current == slot < t'.nextPid - 1;
    }
  }

  lemma StepAgrees(policy: Policy, m: Machine, e: Event)
    requires Agrees(m)
    ensures Agrees(Step(policy, m, e))
  {
    match e {
      case CreateUser(_, _) => SpawnAgrees(policy, m, e);
      case ForkCurrent(_, _, _) => SpawnAgrees(policy, m, e);
      case Signal(_, _) => SignalAgrees(policy, m, e);
      case Timer(_) => TickAgrees(policy, m, e);
      case Arm =>
      case Disarm =>
    }
  }

  /** In every reachable state, under both policies. */
  lemma {:induction false} RunAgrees(policy: Policy, m: Machine, es: seq<Event>)
    requires Agrees(m)
    ensures Agrees(Run(policy, m, es))
    decreases |es|
  {
    if es == [] {
      assert Run(policy, m, es) == m;
    } else {
      StepAgrees(policy, m, es[0]);
      RunAgrees(policy, Step(policy, m, es[0]), es[1..]);
    }
  }

  lemma BootAgrees()
    ensures Agrees(Boot())
  {
    InitInv();
  }

  /**
   How the scheduler comes to know the running slot, event by event: a dispatch
   always makes it known, a create exactly when no slot was current, a signal to
   a known process makes it unknown, and nothing else changes it.
   */
  lemma KnownAfter(policy: Policy, m: Machine, e: Event)
    requires Agrees(m)
    ensures var m' := Step(policy, m, e);
            m'.Known() <==> if Entered(policy, m.table, e) >= 0 then e.Timer? || m.table.current < 0
                            else m.Known() && !(e.Signal? && e.pid == m.running + 1 && m.table.IsRunnable(m.running))
  {
    FreeSlotIsNext(m.table);
    hide FreeSlot;
  }

  /** Where an effective tick puts the interrupted frame: in the slot of the holder, or nowhere. */
  lemma FrameGoes(policy: Policy, m: Machine, sp: Frame, i: int)
    requires Agrees(m) && Effective(m.table, sp) && 0 <= i < m.table.nextPid - 1
    ensures var t' := Next(policy, m.table, Timer(sp));
            t'.Shape() && t'.procs[i].frame == if !m.hit && i == m.holder then sp else m.table.procs[i].frame
  {
    FrameStability(policy, m.table, Timer(sp), i);
  }

  /**
   In every reachable state an effective tick saves the frame of the process it
   interrupts if and only if that process was entered while no other slot was
   current and no signal has reached it since. Otherwise its stored frame stays
   the older one, and the new frame goes to the slot of the process that was
   current then, or is lost if that one was signalled.
   */
  lemma SavesIffKnown(policy: Policy, es: seq<Event>, sp: Frame)
    requires var m := Run(policy, Boot(), es); Effective(m.table, sp) && m.running >= 0
    ensures var m := Run(policy, Boot(), es);
            && Agrees(m)
            && (Saves(m.table, Timer(sp), m.running) <==> m.Known())
            && (!m.Known() && !m.hit ==> m.holder != m.running && Saves(m.table, Timer(sp), m.holder))
            && Next(policy, m.table, Timer(sp)).Shape()
            && (forall i :: 0 <= i < m.table.nextPid - 1 ==>
                  Next(policy, m.table, Timer(sp)).procs[i].frame ==
                  if !m.hit && i == m.holder then sp else m.table.procs[i].frame)
  {
    BootAgrees();
    RunAgrees(policy, Boot(), es);
    var m := Run(policy, Boot(), es);
    hide Inv, Next, Run;
    NextKeepsShape(policy, m.table, Timer(sp));
    forall i | 0 <= i < m.table.nextPid - 1
      ensures Next(policy, m.table, Timer(sp)).procs[i].frame ==
              if !m.hit && i == m.holder then sp else m.table.procs[i].frame
    {
      FrameGoes(policy, m, sp, i);
    }
  }

  /**
   The round trip: a process interrupted by a tick with frame `sp` is later
   resumed with `sp`, whatever runs in between, if and only if the scheduler
   knew it was running, or its stored frame happened to equal `sp`. If not, it
   is rolled back to the frame stored before.
   */
  lemma PreemptThenResume(policy: Policy, before: seq<Event>, sp: Frame, between: seq<Event>, sp': Frame)
    requires var m := Run(policy, Boot(), before);
             && Effective(m.table, sp) && m.running >= 0
             && Next(policy, m.table, Timer(sp)).Shape()
             && NeverSaved(policy, Next(policy, m.table, Timer(sp)), between, m.running)
             && var t := Execute(policy, Next(policy, m.table, Timer(sp)), between);
                Effective(t, sp') && t.current != m.running && Tick(policy, t, sp').0.current == m.running
    ensures var m := Run(policy, Boot(), before);
            var t := Execute(policy, Next(policy, m.table, Timer(sp)), between);
            var resumed := Tick(policy, t, sp').1;
            && resumed == (if m.Known() then sp else m.table.procs[m.running].frame)
            && (resumed == sp <==> m.Known() || m.table.procs[m.running].frame == sp)
  {
    SavesIffKnown(policy, before, sp);
    var m := Run(policy, Boot(), before);
    NextKeepsInv(policy, m.table, Timer(sp));
    FrameStability(policy, m.table, Timer(sp), m.running);
    hide Inv, Next, Tick, Run, Execute, NeverSaved;
    StoredFrameReturns(policy, Next(policy, m.table, Timer(sp)), between, m.running);
  }

  // ----- two runs that lose a frame

  lemma RunOfThree(policy: Policy, m: Machine, a: Event, b: Event, c: Event)
    requires m.table.Shape()
    ensures var m1 := Step(policy, m, a);
            && m1.table.Shape() && Step(policy, m1, b).table.Shape()
            && Run(policy, m, [a, b, c]) == Step(policy, Step(policy, m1, b), c)
  {
    hide Next, Entered, Hits, Step;
    StepKeepsShape(policy, m, a);
    StepKeepsShape(policy, Step(policy, m, a), b);
    StepKeepsShape(policy, Step(policy, Step(policy, m, a), b), c);
    var m2 := Step(policy, Step(policy, m, a), b);
    assert [a, b, c][1..] == [b, c] && [b, c][1..] == [c];
    assert Run(policy, m2, [c]) == Run(policy, Step(policy, m2, c), []) by { assert [c][1..] == []; }
    assert Run(policy, Step(policy, m, a), [b, c]) == Run(policy, m2, [c]);
  }

  /** Boot to one armed process in slot 0. */
  lemma OneArmed(policy: Policy, entry: u64, rsp: u64) returns (m: Machine)
    ensures Step(policy, Boot(), CreateUser(entry, rsp)).table.Shape()
    ensures m == Step(policy, Step(policy, Boot(), CreateUser(entry, rsp)), Arm)
    ensures Agrees(m) && m.running == m.holder == 0 && !m.hit && m.table.armed && m.table.nextPid == 2
    ensures m.table.IsRunnable(0) && m.table.procs[0].vruntime == 0 && Enters(m.table.procs[0].frame, entry, 0x202, rsp)
  {
    var create := CreateUser(entry, rsp);
    BootAgrees();
    FreeSlotIsNext(Init());
    SpawnEffect(policy, Init(), create);
    StepAgrees(policy, Boot(), create);
    var m1 := Step(policy, Boot(), create);
    StepAgrees(policy, m1, Arm);
    m := Step(policy, m1, Arm);
  }

  /** The boot of one process that then gets a signal which does not kill it. */
  function SignalledRun(entry: u64, rsp: u64, signal: int): seq<Event>
  {
    [CreateUser(entry, rsp), Arm, Signal(1, signal)]
  }

  /** By a signal: the only process is thrown back to its entry point, whatever it was doing. */
  lemma RolledBack(policy: Policy, entry: u64, rsp: u64, sp: Frame)
    requires sp[CS] % 4 == 3
    ensures var m := Run(policy, Boot(), SignalledRun(entry, rsp, 15));
            && m.running == 0 && m.hit && Effective(m.table, sp)
            && Tick(policy, m.table, sp).0.current == 0
            && Enters(Tick(policy, m.table, sp).1, entry, 0x202, rsp)
  {
    var m2 := OneArmed(policy, entry, rsp);
    var m3 := Step(policy, m2, Signal(1, 15));
    KillEffect(m2.table, 1, 15);
    StepAgrees(policy, m2, Signal(1, 15));
    RunOfThree(policy, Boot(), CreateUser(entry, rsp), Arm, Signal(1, 15));
    OnlyRunnable(policy, m3.table, sp);
  }

  lemma OnlyRunnable(policy: Policy, t: Table, sp: Frame)
    requires Inv(t) && Effective(t, sp) && t.current == -1 && t.IsRunnable(0)
    requires forall i :: t.IsRunnable(i) ==> i == 0
    ensures Tick(policy, t, sp) == (t.(current := 0), t.procs[0].frame)
  {
    assert Charge(t, sp) == t && t.procs[0].state == Runnable;
    var next := Choose(policy, t);
    assert next >= 0 && t.IsRunnable(next);
  }

  /** The boot of one process that then loads another program (SYS_EXEC). */
  function ExecRun(entry: u64, rsp: u64, entry': u64, rsp': u64): seq<Event>
  {
    [CreateUser(entry, rsp), Arm, CreateUser(entry', rsp')]
  }

  /**
   By a create: the new process runs in slot 1, and the next tick stores its
   frame in slot 0, over that of the process that made the call, and leaves slot
   1 at its entry point. No signal is involved.
   */
  lemma ExecMisfiled(policy: Policy, entry: u64, rsp: u64, entry': u64, rsp': u64, sp: Frame)
    requires sp[CS] % 4 == 3
    ensures var m := Run(policy, Boot(), ExecRun(entry, rsp, entry', rsp'));
            && m.running == 1 && m.holder == 0 && !m.hit && Effective(m.table, sp)
            && var t := Tick(policy, m.table, sp).0;
               t.Shape() && t.procs[0].frame == sp && Enters(t.procs[1].frame, entry', 0x202, rsp')
  {
    var m2 := OneArmed(policy, entry, rsp);
    var create := CreateUser(entry', rsp');
    FreeSlotIsNext(m2.table);
    SpawnEffect(policy, m2.table, create);
    StepAgrees(policy, m2, create);
    var m3 := Step(policy, m2, create);
    RunOfThree(policy, Boot(), CreateUser(entry, rsp), Arm, create);
    FrameGoes(policy, m3, sp, 0);
    FrameGoes(policy, m3, sp, 1);
  }
}
