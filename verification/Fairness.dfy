/** Fairness of the virtual-runtime policy, over every run of the scheduler. */
module Fairness {
  import opened Words
  import opened Scheduler

  /** Runnable processes are within one unit of each other and the current one has the least. */
  ghost predicate Fair(t: Table)
  {
    && (forall i, j :: t.IsRunnable(i) && t.IsRunnable(j) ==> t.procs[i].vruntime <= t.procs[j].vruntime + 1)
    && (t.current >= 0 && t.IsRunnable(t.current) ==>
          forall j :: t.IsRunnable(j) ==> t.procs[t.current].vruntime <= t.procs[j].vruntime)
  }

  /** No process has been charged yet. */
  ghost predicate Fresh(t: Table)
  {
    forall i :: t.IsRunnable(i) ==> t.procs[i].vruntime == 0
  }

  /** Every event but a create keeps the table fair. */
  lemma FairStep(t: Table, e: Event)
    requires Inv(t) && Fair(t) && !e.CreateUser?
    ensures Fair(Next(Cfs, t, e))
  {
    var t' := Next(Cfs, t, e);
    if e.Timer? && Effective(t, e.sp) {
      TickStep(t, e);
    } else {
      FreeSlotIsNext(t);
      hide FreeSlot, FindPid, Choose;
      assert forall i :: t'.IsRunnable(i) ==>
               || (t.IsRunnable(i) && t'.procs[i].vruntime == t.procs[i].vruntime)
               || (e.ForkCurrent? && t.IsRunnable(t.current) && t'.procs[i].vruntime == t.procs[t.current].vruntime);
    }
  }

  /** Charging the current process, which has the least vruntime, keeps the runnable ones within one unit. */
  lemma ChargeStep(t: Table, sp: Frame)
    requires t.Shape() && Fair(t)
    ensures var c := Charge(t, sp);
            forall i, j :: c.IsRunnable(i) && c.IsRunnable(j) ==> c.procs[i].vruntime <= c.procs[j].vruntime + 1
  {
    var c := Charge(t, sp);
    forall i, j | c.IsRunnable(i) && c.IsRunnable(j) ensures c.procs[i].vruntime <= c.procs[j].vruntime + 1 {
      assert t.IsRunnable(i) && t.IsRunnable(j);
    }
  }

  lemma TickStep(t: Table, e: Event)
    requires Inv(t) && Fair(t) && e.Timer? && Effective(t, e.sp)
    ensures Fair(Next(Cfs, t, e))
  {
    assert t.Shape();
    hide Inv, Effective;
    ChargeStep(t, e.sp);
    hide Charge;
    var c := Charge(t, e.sp);
    var next := ChooseCfs(c.procs, 0, -1);
    assert next < 0 ==> forall i :: !c.IsRunnable(i);
  }

  lemma FreshStep(t: Table, e: Event)
    requires Inv(t) && Fresh(t) && !(e.Timer? && Effective(t, e.sp))
    ensures Fresh(Next(Cfs, t, e))
  {
  }

  lemma {:induction false} FreshRun(t: Table, es: seq<Event>)
    requires Inv(t) && Fresh(t) && forall k :: 0 <= k < |es| ==> !es[k].Timer?
    ensures Inv(Execute(Cfs, t, es)) && Fresh(Execute(Cfs, t, es))
    decreases |es|
  {
    if es == [] {
    } else {
      NextKeepsInv(Cfs, t, es[0]);
      FreshStep(t, es[0]);
      FreshRun(Next(Cfs, t, es[0]), es[1..]);
    }
  }

  lemma {:induction false} FairRun(t: Table, es: seq<Event>)
    requires Inv(t) && Fair(t) && forall k :: 0 <= k < |es| ==> !es[k].CreateUser?
    ensures Inv(Execute(Cfs, t, es)) && Fair(Execute(Cfs, t, es))
    decreases |es|
  {
    if es == [] {
    } else {
      NextKeepsInv(Cfs, t, es[0]);
      FairStep(t, es[0]);
      FairRun(Next(Cfs, t, es[0]), es[1..]);
    }
  }

  /** Fairness in every run whose creates all precede the first tick, whatever is forked and signalled. */
  lemma CreatesFirstIsFair(setup: seq<Event>, es: seq<Event>)
    requires forall k :: 0 <= k < |setup| ==> !setup[k].Timer?
    requires forall k :: 0 <= k < |es| ==> !es[k].CreateUser?
    ensures Fair(Execute(Cfs, Execute(Cfs, Init(), setup), es))
  {
    InitInv();
    FreshRun(Init(), setup);
    FairRun(Execute(Cfs, Init(), setup), es);
  }

  /**
   A later create starts at vruntime 0. It keeps a fair table fair exactly when
   the table is full, or nobody has run more than one unit and the current
   process, if any, has run none.
   */
  lemma CreateIsFairIff(t: Table, e: Event)
    requires Inv(t) && Fair(t) && e.CreateUser?
    ensures Fair(Next(Cfs, t, e)) <==>
            || t.nextPid == PROC_MAX + 1
            || ((forall i :: t.IsRunnable(i) ==> t.procs[i].vruntime <= 1)
                && (t.current >= 0 ==> t.procs[t.current].vruntime == 0))
  {
    FreeSlotIsNext(t);
    if t.nextPid <= PROC_MAX {
      var slot, t' := t.nextPid - 1, Next(Cfs, t, e);
      assert t'.IsRunnable(slot) && t'.procs[slot].vruntime == 0 && !t.IsRunnable(slot);
      assert forall i :: t'.IsRunnable(i) && i != slot ==> t.IsRunnable(i) && t'.procs[i] == t.procs[i];
      assert forall i :: t.IsRunnable(i) ==> t'.IsRunnable(i) && t'.procs[i] == t.procs[i];
    }
  }

  /** One process that runs for two ticks, then a second one. */
  function LateCreate(entry: u64, rsp: u64, sp: Frame): seq<Event>
  {
    [CreateUser(entry, rsp)] + ([Arm] + ([Timer(sp)] + ([Timer(sp)] + ([CreateUser(entry, rsp)] + []))))
  }

  /** A tick of the only process charges it and returns to it. */
  lemma LoneTick(t: Table, sp: Frame)
    requires Inv(t) && Effective(t, sp) && t.nextPid == 2 && t.current == 0
    ensures var t' := Next(Cfs, t, Timer(sp));
            && Inv(t') && t'.nextPid == 2 && t'.current == 0 && t'.armed
            && t'.procs[0].vruntime == t.procs[0].vruntime + 1
  {
    NextKeepsInv(Cfs, t, Timer(sp));
    var c := Charge(t, sp);
    assert c.procs[0].state == Runnable;
    var next := ChooseCfs(c.procs, 0, -1);
    assert c.procs[next].state == Runnable;
  }

  /** The condition is reached from boot: a create after two ticks leaves a table that is not fair. */
  lemma LateCreateIsUnfair(entry: u64, rsp: u64, sp: Frame)
    requires sp[CS] % 4 == 3
    ensures !Fair(Execute(Cfs, Init(), LateCreate(entry, rsp, sp)))
  {
    var c, tick := CreateUser(entry, rsp), Timer(sp);
    InitInv();
    var t0 := Init();
    ExecuteFirst(Cfs, t0, c, [Arm] + ([tick] + ([tick] + ([c] + []))));
    SpawnEffect(Cfs, t0, c);
    NextKeepsInv(Cfs, t0, c);
    var t1 := Next(Cfs, t0, c);
    ExecuteFirst(Cfs, t1, Arm, [tick] + ([tick] + ([c] + [])));
    NextKeepsInv(Cfs, t1, Arm);
    var t2 := Next(Cfs, t1, Arm);
    ExecuteFirst(Cfs, t2, tick, [tick] + ([c] + []));
    LoneTick(t2, sp);
    var t3 := Next(Cfs, t2, tick);
    ExecuteFirst(Cfs, t3, tick, [c] + []);
    LoneTick(t3, sp);
    var t4 := Next(Cfs, t3, tick);
    ExecuteFirst(Cfs, t4, c, []);
    SpawnEffect(Cfs, t4, c);
    var t5 := Next(Cfs, t4, c);
    assert t5.IsRunnable(0) && t5.IsRunnable(1) && t5.procs[0].vruntime == 2 && t5.procs[1].vruntime == 0;
  }

  /** Ticks that charge slot `i`: those at which it is `current_proc`. */
  function ChargedTicks(t: Table, es: seq<Event>, i: int): nat
    requires t.Shape()
    decreases |es|
  {
    if es == [] then 0
    else NextKeepsShape(Cfs, t, es[0]);
         (if Saves(t, es[0], i) then 1 else 0) + ChargedTicks(Next(Cfs, t, es[0]), es[1..], i)
  }

  /** Under either policy, only an effective tick of the current slot charges it. */
  lemma OneCharge(policy: Policy, t: Table, e: Event, i: int)
    requires Inv(t) && 0 <= i < t.nextPid - 1
    ensures Next(policy, t, e).Shape() && t.nextPid <= Next(policy, t, e).nextPid
    ensures Next(policy, t, e).procs[i].vruntime == t.procs[i].vruntime + if Saves(t, e, i) then 1 else 0
  {
    FreeSlotIsNext(t);
    hide Choose, FreeSlot, FindPid;
  }

  lemma {:induction false} VruntimeCountsCharges(t: Table, es: seq<Event>, i: int)
    requires Inv(t) && 0 <= i < t.nextPid - 1
    ensures Execute(Cfs, t, es).procs[i].vruntime == t.procs[i].vruntime + ChargedTicks(t, es, i)
    decreases |es|
  {
    if es == [] {
    } else {
      OneCharge(Cfs, t, es[0], i);
      NextKeepsInv(Cfs, t, es[0]);
      hide Next, Inv;
      VruntimeCountsCharges(Next(Cfs, t, es[0]), es[1..], i);
    }
  }

  /** Over any run without creates, two processes that stay runnable are charged for tick counts at most two apart. */
  lemma EqualCharges(t: Table, es: seq<Event>, i: int, j: int)
    requires Inv(t) && Fair(t) && forall k :: 0 <= k < |es| ==> !es[k].CreateUser?
    requires t.IsRunnable(i) && t.IsRunnable(j)
    requires Execute(Cfs, t, es).IsRunnable(i) && Execute(Cfs, t, es).IsRunnable(j)
    ensures ChargedTicks(t, es, i) <= ChargedTicks(t, es, j) + 2
  {
    FairRun(t, es);
    assert t.procs[i] != BLANK && t.procs[j] != BLANK;
    VruntimeCountsCharges(t, es, i);
    VruntimeCountsCharges(t, es, j);
  }
}
