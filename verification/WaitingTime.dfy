/** Bounded waiting under round-robin scheduling, over every run of the scheduler. */
module WaitingTime {
  import opened Words
  import opened Scheduler

  function Runnables(procs: seq<Process>, i: nat): (n: nat)
    requires i <= |procs|
    ensures n <= |procs| - i
    decreases |procs| - i
  {
    if i == |procs| then 0
    else (if procs[i].state == Runnable then 1 else 0) + Runnables(procs, i + 1)
  }

  function One(b: bool): nat { if b then 1 else 0 }

  lemma {:induction false} RunnablesUpdate(procs: seq<Process>, i: nat, j: nat, q: Process)
    requires i <= |procs| && j < |procs|
    ensures Runnables(procs[j := q], i) ==
            Runnables(procs, i) + (if i <= j then One(q.state == Runnable) - One(procs[j].state == Runnable) else 0)
    decreases |procs| - i
  {
    if i == |procs| {
    } else {
      RunnablesUpdate(procs, i + 1, j, q);
    }
  }

  /** Weight of the table: it falls with every create, fork and fatal signal, and no event raises it. */
  function Weight(t: Table): int
    requires t.Shape()
  {
    2 * (PROC_MAX + 1 - t.nextPid) + Runnables(t.procs, 0)
  }

  lemma {:induction false} BlankSlotsAreIdle(t: Table, i: nat)
    requires Inv(t) && t.nextPid - 1 <= i <= PROC_MAX
    ensures Runnables(t.procs, i) == 0
    decreases PROC_MAX - i
  {
    if i == PROC_MAX {
    } else {
      assert t.procs[i] == BLANK;
      BlankSlotsAreIdle(t, i + 1);
    }
  }

  lemma {:induction false} RunnablesAtMost(t: Table, i: nat)
    requires Inv(t) && i <= t.nextPid - 1
    ensures Runnables(t.procs, i) <= t.nextPid - 1 - i
    decreases PROC_MAX - i
  {
    if i == t.nextPid - 1 {
      BlankSlotsAreIdle(t, i);
    } else {
      RunnablesAtMost(t, i + 1);
    }
  }

  /** An upper bound on the ticks slot `p` still has to wait. */
  function Rank(t: Table, p: int): int
    requires t.Shape()
  {
    Weight(t) * PROC_MAX + Ahead(Start(t), p)
  }

  lemma RankBound(t: Table, p: int)
    requires Inv(t) && 0 <= p < PROC_MAX
    ensures 0 <= Rank(t, p) < 2 * PROC_MAX * PROC_MAX + PROC_MAX
  {
    RunnablesAtMost(t, 0);
  }

  predicate EffectiveTick(t: Table, e: Event) { e.Timer? && Effective(t, e.sp) }

  /** An effective tick that hands the processor to slot `p`. */
  predicate Dispatches(t: Table, e: Event, p: int)
    requires t.Shape()
  {
    EffectiveTick(t, e) && Next(RoundRobin, t, e).current == p
  }

  /** A signal that does not kill still takes the current process off the processor (src/cpu/sched.c). */
  predicate Unseats(t: Table, e: Event)
    requires t.Shape()
  {
    e.Signal? && !Fatal(e.signal) && t.current >= 0 && FindPid(t.procs, e.pid, 0) == t.current
  }

  lemma WeightAfterCharge(t: Table, sp: Frame)
    requires Inv(t)
    ensures Weight(Charge(t, sp)) == Weight(t)
  {
    if t.current >= 0 {
      var p := t.procs[t.current];
      RunnablesUpdate(t.procs, 0, t.current, p.(frame := sp, vruntime := p.vruntime + 1));
    }
  }

  lemma WeightAfterTick(t: Table, sp: Frame)
    requires Inv(t)
    ensures Weight(Tick(RoundRobin, t, sp).0) == Weight(t)
  {
    WeightAfterCharge(t, sp);
    hide Charge, Choose, Runnables, Inv;
  }

  /** A tick that passes `p` over leaves it strictly closer to the cursor. */
  lemma TickApproaches(t: Table, sp: Frame, p: int)
    requires Inv(t) && Effective(t, sp) && t.IsRunnable(p)
    ensures var t' := Tick(RoundRobin, t, sp).0;
            t'.current >= 0 && (t'.current != p ==> Ahead(Start(t'), p) < Ahead(Start(t), p))
  {
    var c := Charge(t, sp);
    assert c.procs[p].state == Runnable;
    var next := ChooseRr(c.procs, Start(c), 0);
    assert next >= 0 && Ahead(Start(c), next) <= Ahead(Start(c), p);
  }

  lemma SpawnStep(t: Table, slot: int, q: Process)
    requires Inv(t) && slot == FreeSlot(t.procs, 0) && slot >= 0 && q.state == Runnable
    ensures Weight(t.(procs := t.procs[slot := q], nextPid := t.nextPid + 1)) == Weight(t) - 1
  {
    RunnablesUpdate(t.procs, 0, slot, q);
  }

  /**
   No event but a signal that unseats the running process raises the rank of a
   waiting process, and every effective tick lowers it by at least one.
   */
  lemma RankStep(t: Table, e: Event, p: int)
    requires Inv(t) && t.IsRunnable(p) && Next(RoundRobin, t, e).IsRunnable(p)
    requires !Dispatches(t, e, p)
    ensures var t' := Next(RoundRobin, t, e);
            Rank(t', p) + One(EffectiveTick(t, e)) <= Rank(t, p) + PROC_MAX * One(Unseats(t, e))
  {
    NextKeepsInv(RoundRobin, t, e);
    match e
    case CreateUser(entry, rsp) =>
      var slot := FreeSlot(t.procs, 0);
      if slot >= 0 {
        SpawnStep(t, slot, Create(t, entry, rsp).0.procs[slot]);
      }
    case ForkCurrent(rip, rsp, flags) =>
      var slot := FreeSlot(t.procs, 0);
      if t.IsRunnable(t.current) && slot >= 0 {
        SpawnStep(t, slot, Fork(t, rip, rsp, flags).0.procs[slot]);
      }
    case Signal(pid, signal) =>
      var i := FindPid(t.procs, pid, 0);
      if i >= 0 {
        RunnablesUpdate(t.procs, 0, i, Kill(t, pid, signal).0.procs[i]);
      }
    case Timer(sp) =>
      WeightAfterTick(t, sp);
      if Effective(t, sp) {
        TickApproaches(t, sp, p);
      }
    case Arm =>
    case Disarm =>
  }

  /** Effective ticks of a run. */
  function Ticks(t: Table, es: seq<Event>): nat
    requires t.Shape()
    decreases |es|
  {
    if es == [] then 0
    else NextKeepsShape(RoundRobin, t, es[0]);
         One(EffectiveTick(t, es[0])) + Ticks(Next(RoundRobin, t, es[0]), es[1..])
  }

  /** Unseating signals of a run. */
  function Unseatings(t: Table, es: seq<Event>): nat
    requires t.Shape()
    decreases |es|
  {
    if es == [] then 0
    else NextKeepsShape(RoundRobin, t, es[0]);
         One(Unseats(t, es[0])) + Unseatings(Next(RoundRobin, t, es[0]), es[1..])
  }

  /** Slot `p` is runnable in every state of the run but never dispatched. */
  ghost predicate Waits(t: Table, es: seq<Event>, p: int)
    requires t.Shape()
    decreases |es|
  {
    t.IsRunnable(p) &&
    (es == [] ||
     (NextKeepsShape(RoundRobin, t, es[0]);
      !Dispatches(t, es[0], p) && Waits(Next(RoundRobin, t, es[0]), es[1..], p)))
  }

  /**
   Bounded waiting, for every run with creates, forks, signals and ticks: a
   runnable process is passed over at most `Rank` times, plus once round the
   table for each unseating signal.
   */
  lemma {:induction false} BoundedWaiting(t: Table, es: seq<Event>, p: int)
    requires Inv(t) && Waits(t, es, p)
    ensures Ticks(t, es) <= Rank(t, p) + PROC_MAX * Unseatings(t, es)
    decreases |es|
  {
    if es == [] {
      RankBound(t, p);
    } else {
      var t' := Next(RoundRobin, t, es[0]);
      NextKeepsInv(RoundRobin, t, es[0]);
      RankStep(t, es[0], p);
      BoundedWaiting(t', es[1..], p);
    }
  }

  /** No event but a tick moves the cursor. */
  ghost predicate CursorKept(t: Table, es: seq<Event>)
    requires t.Shape()
    decreases |es|
  {
    es == [] ||
    (NextKeepsShape(RoundRobin, t, es[0]);
     (es[0].Timer? || Next(RoundRobin, t, es[0]).current == t.current)
     && CursorKept(Next(RoundRobin, t, es[0]), es[1..]))
  }

  /** While only ticks move the cursor, the wait is the distance to it: fewer than PROC_MAX ticks. */
  lemma {:induction false} OnceRoundTheTable(t: Table, es: seq<Event>, p: int)
    requires Inv(t) && Waits(t, es, p) && CursorKept(t, es)
    ensures Ticks(t, es) <= Ahead(Start(t), p) < PROC_MAX
    decreases |es|
  {
    if es == [] {
    } else {
      var e := es[0];
      NextKeepsInv(RoundRobin, t, e);
      if EffectiveTick(t, e) {
        TickApproaches(t, e.sp, p);
      }
      OnceRoundTheTable(Next(RoundRobin, t, e), es[1..], p);
    }
  }

  const SIGTERM := 15

  /** `n` ticks, each followed by a non-fatal signal to pid 1. */
  function StarvingRun(sp: Frame, n: nat): seq<Event>
  {
    if n == 0 then [] else [Timer(sp), Signal(1, SIGTERM)] + StarvingRun(sp, n - 1)
  }

  /**
   The term for unseating signals cannot be dropped: signalling the first
   process after every tick keeps the second one waiting for any number of ticks.
   */
  lemma {:induction false} UnseatingStarves(t: Table, sp: Frame, n: nat)
    requires Inv(t) && Effective(t, sp) && t.current == -1
    requires t.IsRunnable(0) && t.IsRunnable(1)
    ensures var es := StarvingRun(sp, n);
            Waits(t, es, 1) && Ticks(t, es) == n && Unseatings(t, es) == n
    decreases n
  {
    if n == 0 {
    } else {
      var es := StarvingRun(sp, n);
      var t1 := Next(RoundRobin, t, Timer(sp));
      NextKeepsInv(RoundRobin, t, Timer(sp));
      TickApproaches(t, sp, 0);
      assert t1.current == 0;
      var t2 := Next(RoundRobin, t1, Signal(1, SIGTERM));
      NextKeepsInv(RoundRobin, t1, Signal(1, SIGTERM));
      assert FindPid(t1.procs, 1, 0) == 0;
      UnseatingStarves(t2, sp, n - 1);
      assert es[0] == Timer(sp) && es[1..][0] == Signal(1, SIGTERM);
      assert es[1..][1..] == StarvingRun(sp, n - 1);
    }
  }

  /** Two processes, preemption armed, and a first signal that unseats the first of them. */
  function StarvingSetup(entry: u64, rsp: u64): seq<Event>
  {
    [CreateUser(entry, rsp)] + ([CreateUser(entry, rsp)] + ([Arm] + ([Signal(1, SIGTERM)] + [])))
  }

  /** The starving run starts from a state that is reached from boot. */
  lemma StarvesFromBoot(entry: u64, rsp: u64, sp: Frame, n: nat)
    requires sp[CS] % 4 == 3
    ensures var t := Execute(RoundRobin, Init(), StarvingSetup(entry, rsp));
            var es := StarvingRun(sp, n);
            Inv(t) && Waits(t, es, 1) && Ticks(t, es) == n && Unseatings(t, es) == n
  {
    var c, s := CreateUser(entry, rsp), Signal(1, SIGTERM);
    InitInv();
    var t0 := Init();
    ExecuteFirst(RoundRobin, t0, c, [c] + ([Arm] + ([s] + [])));
    SpawnEffect(RoundRobin, t0, c);
    NextKeepsInv(RoundRobin, t0, c);
    var t1 := Next(RoundRobin, t0, c);
    ExecuteFirst(RoundRobin, t1, c, [Arm] + ([s] + []));
    SpawnEffect(RoundRobin, t1, c);
    NextKeepsInv(RoundRobin, t1, c);
    var t2 := Next(RoundRobin, t1, c);
    ExecuteFirst(RoundRobin, t2, Arm, [s] + []);
    NextKeepsInv(RoundRobin, t2, Arm);
    var t3 := Next(RoundRobin, t2, Arm);
    ExecuteFirst(RoundRobin, t3, s, []);
    KillEffect(t3, 1, SIGTERM);
    NextKeepsInv(RoundRobin, t3, s);
    UnseatingStarves(Next(RoundRobin, t3, s), sp, n);
  }
}
