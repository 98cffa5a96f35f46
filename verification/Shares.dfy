/**
 Processor time. A tick charges `current_proc`, but the time belongs to the
 process the tick interrupts. The two agree exactly while the scheduler knows
 who is running, so fairness of vruntime is fairness of time only then.
 */
module Shares {
  import opened Words
  import opened Scheduler
  import opened ContextSwitch
  import opened Fairness

  /**
   Effective ticks of a run that concern one slot: those that interrupt it
   (`held`), those of them that do not charge it (`unpaid`), and those that
   charge it for another slot's time (`foreign`).
   */
  datatype Tally = Tally(held: nat, unpaid: nat, foreign: nat)
  {
    function Plus(t: Tally): Tally { Tally(held + t.held, unpaid + t.unpaid, foreign + t.foreign) }
  }

  function One(b: bool): nat { if b then 1 else 0 }

  function TallyOf(m: Machine, e: Event, i: int): Tally
  {
    if !(e.Timer? && Effective(m.table, e.sp)) then Tally(0, 0, 0)
    else Tally(One(m.running == i), One(m.running == i && !m.Known()), One(m.running != i && m.holder == i && !m.hit))
  }

  function Count(policy: Policy, m: Machine, es: seq<Event>, i: int): Tally
    requires m.table.Shape()
    decreases |es|
  {
    if es == [] then Tally(0, 0, 0)
    else
      StepKeepsShape(policy, m, es[0]);
      TallyOf(m, es[0], i).Plus(Count(policy, Step(policy, m, es[0]), es[1..], i))
  }

  lemma OneAccount(policy: Policy, m: Machine, e: Event, i: int)
    requires Agrees(m) && 0 <= i < m.table.nextPid - 1
    ensures var m', c := Step(policy, m, e), TallyOf(m, e, i);
            && m'.table.Shape() && m.table.nextPid <= m'.table.nextPid
            && m'.table.procs[i].vruntime + c.unpaid == m.table.procs[i].vruntime + c.held + c.foreign
  {
    OneCharge(policy, m.table, e, i);
    hide Next, Inv, Entered, Hits;
  }

  /**
   The account of every run, under both policies: vruntime grows by the ticks
   held, less those held unpaid, plus those charged for others.
   */
  lemma {:induction false} Accounting(policy: Policy, m: Machine, es: seq<Event>, i: int)
    requires Agrees(m) && 0 <= i < m.table.nextPid - 1
    ensures var c := Count(policy, m, es, i);
            Run(policy, m, es).table.procs[i].vruntime + c.unpaid == m.table.procs[i].vruntime + c.held + c.foreign
    decreases |es|
  {
    if es == [] {
    } else {
      OneAccount(policy, m, es[0], i);
      StepAgrees(policy, m, es[0]);
      hide Step, Agrees, TallyOf;
      Accounting(policy, Step(policy, m, es[0]), es[1..], i);
    }
  }

  lemma {:induction false} RunIsExecute(policy: Policy, m: Machine, es: seq<Event>)
    requires m.table.Shape()
    ensures Run(policy, m, es).table == Execute(policy, m.table, es)
    decreases |es|
  {
    if es == [] {
    } else {
      hide Next, Entered, Hits;
      StepKeepsShape(policy, m, es[0]);
      RunIsExecute(policy, Step(policy, m, es[0]), es[1..]);
    }
  }

  /** Over any run without creates: the times of two processes that stay runnable, up to what is unpaid or foreign. */
  lemma SharesWithin(m: Machine, es: seq<Event>, i: int, j: int)
    requires Agrees(m) && Fair(m.table) && forall k :: 0 <= k < |es| ==> !es[k].CreateUser?
    requires m.table.IsRunnable(i) && m.table.IsRunnable(j)
    requires Run(Cfs, m, es).table.IsRunnable(i) && Run(Cfs, m, es).table.IsRunnable(j)
    ensures var a, b := Count(Cfs, m, es, i), Count(Cfs, m, es, j);
            a.held + a.foreign + b.unpaid <= b.held + b.foreign + a.unpaid + 2
  {
    RunIsExecute(Cfs, m, es);
    FairRun(m.table, es);
    assert m.table.procs[i] != BLANK && m.table.procs[j] != BLANK;
    hide Count, Run, Execute, Inv;
    Accounting(Cfs, m, es, i);
    Accounting(Cfs, m, es, j);
  }

  /** Whoever runs was entered as current, and slot `i` has not been signalled while it runs. */
  predicate Paying(m: Machine, i: int) { m.holder == m.running && (m.running == i ==> !m.hit) }

  lemma PayingStep(m: Machine, e: Event, i: int)
    requires Agrees(m) && Paying(m, i) && !e.CreateUser? && (e.Signal? ==> e.pid != i + 1) && m.table.IsRunnable(i)
    ensures var m' := Step(Cfs, m, e);
            && Paying(m', i) && m'.table.IsRunnable(i)
            && TallyOf(m, e, i).unpaid == 0 && TallyOf(m, e, i).foreign == 0
  {
    FreeSlotIsNext(m.table);
    if e.Signal? {
      KillEffect(m.table, e.pid, e.signal);
    }
  }

  lemma {:induction false} PayingRun(m: Machine, es: seq<Event>, i: int)
    requires Agrees(m) && Paying(m, i) && m.table.IsRunnable(i)
    requires forall k :: 0 <= k < |es| ==> !es[k].CreateUser? && (es[k].Signal? ==> es[k].pid != i + 1)
    ensures Run(Cfs, m, es).table.IsRunnable(i)
    ensures Count(Cfs, m, es, i).unpaid == 0 && Count(Cfs, m, es, i).foreign == 0
    decreases |es|
  {
    if es == [] {
    } else {
      PayingStep(m, es[0], i);
      StepAgrees(Cfs, m, es[0]);
      hide Step, Agrees, TallyOf, Paying;
      PayingRun(Step(Cfs, m, es[0]), es[1..], i);
    }
  }

  /**
   What fairness buys: from a fair table whose running process is known, over
   any run without creates, two processes that get no signal hold the processor
   for numbers of ticks that differ by at most two, whoever else is forked,
   signalled or killed.
   */
  lemma EqualShares(m: Machine, es: seq<Event>, i: int, j: int)
    requires Agrees(m) && Fair(m.table) && m.Known() && m.table.IsRunnable(i) && m.table.IsRunnable(j)
    requires forall k :: 0 <= k < |es| ==>
                           !es[k].CreateUser? && (es[k].Signal? ==> es[k].pid != i + 1 && es[k].pid != j + 1)
    ensures Count(Cfs, m, es, i).held <= Count(Cfs, m, es, j).held + 2
  {
    PayingRun(m, es, i);
    PayingRun(m, es, j);
    SharesWithin(m, es, i, j);
  }

  // ----- the signals are the exception

  /** A process that signals itself before each of `n` ticks. */
  function SelfSignals(sp: Frame, n: nat): seq<Event>
  {
    if n == 0 then [] else [Signal(1, 15), Timer(sp)] + SelfSignals(sp, n - 1)
  }

  /** Two processes at vruntime 0, the first of them running. */
  ghost predicate Pair(m: Machine)
  {
    && Agrees(m) && m.running == m.holder == 0 && !m.hit && m.table.armed && m.table.nextPid == 3
    && m.table.IsRunnable(0) && m.table.IsRunnable(1) && m.table.procs[0].vruntime == m.table.procs[1].vruntime == 0
  }

  lemma SignalThenTick(m: Machine, sp: Frame)
    requires Pair(m) && sp[CS] % 4 == 3
    ensures m.table.Shape()
    ensures var m1 := Step(Cfs, m, Signal(1, 15));
            && m1.table.Shape() && Pair(Step(Cfs, m1, Timer(sp)))
            && TallyOf(m, Signal(1, 15), 0) == TallyOf(m, Signal(1, 15), 1) == Tally(0, 0, 0)
            && TallyOf(m1, Timer(sp), 0) == Tally(1, 1, 0) && TallyOf(m1, Timer(sp), 1) == Tally(0, 0, 0)
  {
    KillEffect(m.table, 1, 15);
    StepAgrees(Cfs, m, Signal(1, 15));
    var m1 := Step(Cfs, m, Signal(1, 15));
    StepAgrees(Cfs, m1, Timer(sp));
    var t := m1.table;
    assert Charge(t, sp) == t && t.procs[0].state == Runnable;
    var next := ChooseCfs(t.procs, 0, -1);
    assert next == 0;
  }

  lemma CountTwo(m: Machine, a: Event, b: Event, es: seq<Event>, i: int)
    requires m.table.Shape()
    ensures var m1 := Step(Cfs, m, a);
            && m1.table.Shape() && Step(Cfs, m1, b).table.Shape()
            && Count(Cfs, m, [a, b] + es, i) ==
               TallyOf(m, a, i).Plus(TallyOf(m1, b, i).Plus(Count(Cfs, Step(Cfs, m1, b), es, i)))
  {
    StepKeepsShape(Cfs, m, a);
    StepKeepsShape(Cfs, Step(Cfs, m, a), b);
    hide Step, TallyOf;
    assert ([a, b] + es)[1..] == [b] + es && ([b] + es)[1..] == es;
    assert Count(Cfs, Step(Cfs, m, a), [b] + es, i) ==
           TallyOf(Step(Cfs, m, a), b, i).Plus(Count(Cfs, Step(Cfs, Step(Cfs, m, a), b), es, i));
  }

  lemma OneRound(m: Machine, sp: Frame, es: seq<Event>, i: int) returns (m': Machine)
    requires Pair(m) && sp[CS] % 4 == 3 && 0 <= i <= 1
    ensures Pair(m') && m.table.Shape() && m'.table.Shape()
    ensures Count(Cfs, m, [Signal(1, 15), Timer(sp)] + es, i) ==
            Starved(1, i).Plus(Count(Cfs, m', es, i))
  {
    SignalThenTick(m, sp);
    assert m.table.Shape();
    hide Step, TallyOf, Count, Inv;
    CountTwo(m, Signal(1, 15), Timer(sp), es, i);
    m' := Step(Cfs, Step(Cfs, m, Signal(1, 15)), Timer(sp));
  }

  /** The first of the two holds the processor at all `n` ticks, unpaid. */
  function Starved(n: nat, i: int): Tally { if i == 0 then Tally(n, n, 0) else Tally(0, 0, 0) }

  lemma CountNone(m: Machine, i: int)
    requires Pair(m)
    ensures m.table.Shape() && Count(Cfs, m, [], i) == Tally(0, 0, 0)
  {
  }

  lemma {:induction false} SignalsStarve(m: Machine, sp: Frame, n: nat, i: int)
    requires Pair(m) && sp[CS] % 4 == 3 && 0 <= i <= 1
    ensures m.table.Shape() && Count(Cfs, m, SelfSignals(sp, n), i) == Starved(n, i)
    decreases n
  {
    hide Pair, Count;
    if n == 0 {
      CountNone(m, i);
    } else {
      var m' := OneRound(m, sp, SelfSignals(sp, n - 1), i);
      SignalsStarve(m', sp, n - 1, i);
    }
  }

  /** The boot of one process that forks. */
  function ForkedRun(entry: u64, rsp: u64, rip: u64): seq<Event>
  {
    [CreateUser(entry, rsp), Arm, ForkCurrent(rip, rsp, 0)]
  }

  /**
   From boot to a fair table from which one of two runnable processes holds the
   processor for all of any number of ticks and is charged for none, because it
   signals itself each time.
   */
  lemma SelfSignalStarvesCfs(entry: u64, rsp: u64, rip: u64, sp: Frame, n: nat)
    requires sp[CS] % 4 == 3
    ensures var m := Run(Cfs, Boot(), ForkedRun(entry, rsp, rip));
            && Agrees(m) && Fair(m.table) && m.Known() && m.table.IsRunnable(0) && m.table.IsRunnable(1)
            && Count(Cfs, m, SelfSignals(sp, n), 0) == Tally(n, n, 0)
            && Count(Cfs, m, SelfSignals(sp, n), 1) == Tally(0, 0, 0)
  {
    var m2 := OneArmed(Cfs, entry, rsp);
    var fork := ForkCurrent(rip, rsp, 0);
    FreeSlotIsNext(m2.table);
    SpawnEffect(Cfs, m2.table, fork);
    StepAgrees(Cfs, m2, fork);
    RunOfThree(Cfs, Boot(), CreateUser(entry, rsp), Arm, fork);
    var m := Step(Cfs, m2, fork);
    assert Pair(m);
    SignalsStarve(m, sp, n, 0);
    SignalsStarve(m, sp, n, 1);
  }
}
