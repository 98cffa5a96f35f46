/**
 The process table of `sched.c` as a state machine: create, fork, kill, timer
 tick, and arming of preemption, under either choice of next process.
 */
module Scheduler {
  import opened Words

  const PROC_MAX: nat := 2000
  const FRAME_QWORDS: nat := 20
  const CS: nat := 16  // index of the code segment selector in a saved frame

  const SIGINT := 2
  const SIGKILL := 9
  const SIGSEGV := 11

  datatype State = Unused | Runnable | Zombie

  type Frame = f: seq<u64> | |f| == FRAME_QWORDS witness [0, 0, 0, 0, 0, 0, 0, 0, 0, 0, 0, 0, 0, 0, 0, 0, 0, 0, 0, 0]

  datatype Process = Process(state: State, pid: int, signal: int, vruntime: nat, frame: Frame)

  const ZERO_FRAME: Frame := [0, 0, 0, 0, 0, 0, 0, 0, 0, 0, 0, 0, 0, 0, 0, 0, 0, 0, 0, 0]
  const BLANK := Process(Unused, 0, 0, 0, ZERO_FRAME)

  datatype Policy = RoundRobin | Cfs

  datatype Table = Table(procs: seq<Process>, current: int, nextPid: int, armed: bool)
  {
    predicate Shape() { |procs| == PROC_MAX && -1 <= current < PROC_MAX }

    predicate IsRunnable(i: int) { 0 <= i < |procs| && procs[i].state == Runnable }
  }

  function Init(): Table { Table(seq(PROC_MAX, _ => BLANK), -1, 1, false) }

  /** `alloc_proc`: the lowest unused slot at or after `i`. */
  function FreeSlot(procs: seq<Process>, i: nat): (r: int)
    requires i <= |procs|
    ensures r == -1 ==> forall k :: i <= k < |procs| ==> procs[k].state != Unused
    ensures r != -1 ==> i <= r < |procs| && procs[r].state == Unused
                        && forall k :: i <= k < r ==> procs[k].state != Unused
    decreases |procs| - i
  {
    if i == |procs| then -1
    else if procs[i].state == Unused then i
    else FreeSlot(procs, i + 1)
  }

  function UserFrame(rip: u64, flags: u64, rsp: u64): Frame
  {
    ZERO_FRAME[..15] + [rip, 0x23, flags, rsp, 0x1B]
  }

  /** `sched_create_user`. */
  function Create(t: Table, entry: u64, rsp: u64): (Table, int)
    requires t.Shape()
  {
    var slot := FreeSlot(t.procs, 0);
    if slot < 0 then (t, -1)
    else
      var p := Process(Runnable, t.nextPid, 0, 0, UserFrame(entry, 0x202, rsp));
      (t.(procs := t.procs[slot := p], nextPid := t.nextPid + 1,
          current := if t.current < 0 then slot else t.current), p.pid)
  }

  /** `sched_fork_current`. */
  function Fork(t: Table, rip: u64, rsp: u64, flags: u64): (Table, int)
    requires t.Shape()
  {
    if !t.IsRunnable(t.current) then (t, -1)
    else
      var slot := FreeSlot(t.procs, 0);
      if slot < 0 then (t, -1)
      else
        var child := Process(Runnable, t.nextPid, 0, t.procs[t.current].vruntime,
                             UserFrame(rip, if flags != 0 then flags else 0x202, rsp));
        (t.(procs := t.procs[slot := child], nextPid := t.nextPid + 1), child.pid)
  }

  predicate Fatal(signal: int) { signal == SIGKILL || signal == SIGSEGV || signal == SIGINT }

  /** The lowest runnable slot at or after `i` that holds `pid`. */
  function FindPid(procs: seq<Process>, pid: int, i: nat): (r: int)
    requires i <= |procs|
    ensures r == -1 ==> forall k :: i <= k < |procs| ==> !(procs[k].state == Runnable && procs[k].pid == pid)
    ensures r != -1 ==> i <= r < |procs| && procs[r].state == Runnable && procs[r].pid == pid
    ensures r != -1 ==> forall k :: i <= k < r ==> !(procs[k].state == Runnable && procs[k].pid == pid)
    decreases |procs| - i
  {
    if i == |procs| then -1
    else if procs[i].state == Runnable && procs[i].pid == pid then i
    else FindPid(procs, pid, i + 1)
  }

  /** `sched_kill`. */
  function Kill(t: Table, pid: int, signal: int): (Table, int)
    requires t.Shape()
  {
    var i := FindPid(t.procs, pid, 0);
    if i < 0 then (t, -1)
    else
      var p := t.procs[i].(signal := signal);
      (t.(procs := t.procs[i := if Fatal(signal) then p.(state := Zombie) else p],
          current := if i == t.current then -1 else t.current), 0)
  }

  /** Where the circular search of `choose_rr` begins. */
  function Start(t: Table): int { if t.current < 0 then 0 else t.current + 1 }

  /** How many places slot `p` lies ahead of `start`, going round the table. */
  function Ahead(start: int, p: int): int { if p >= start then p - start else p - start + PROC_MAX }

  lemma Place(start: nat, n: nat)
    requires start <= PROC_MAX && n < PROC_MAX
    ensures var idx := (start + n) % PROC_MAX;
            0 <= idx < PROC_MAX && Ahead(start, idx) == n
            && forall p :: 0 <= p < PROC_MAX && Ahead(start, p) == n ==> p == idx
  {
    var idx := (start + n) % PROC_MAX;
    assert idx == if start + n < PROC_MAX then start + n else start + n - PROC_MAX;
  }

  /** `choose_rr`: the nearest runnable slot ahead of `start`, having passed the first `n` places. */
  function ChooseRr(procs: seq<Process>, start: nat, n: nat): (r: int)
    requires |procs| == PROC_MAX && start <= PROC_MAX && n <= PROC_MAX
    ensures -1 <= r < PROC_MAX && (r >= 0 ==> procs[r].state == Runnable && Ahead(start, r) >= n)
    ensures forall p :: 0 <= p < PROC_MAX && procs[p].state == Runnable && Ahead(start, p) >= n ==>
                          r >= 0 && Ahead(start, r) <= Ahead(start, p)
    decreases PROC_MAX - n
  {
    if n == PROC_MAX then -1
    else
      Place(start, n);
      if procs[(start + n) % PROC_MAX].state == Runnable then (start + n) % PROC_MAX
      else ChooseRr(procs, start, n + 1)
  }

  /** The runnable slot of least vruntime, lowest slot first, given the best of the first `i` slots. */
  function ChooseCfs(procs: seq<Process>, i: nat, best: int): (r: int)
    requires i <= |procs| && -1 <= best < i
    requires best >= 0 ==> procs[best].state == Runnable
    requires forall k :: 0 <= k < i && procs[k].state == Runnable ==>
                           best >= 0 && procs[best].vruntime <= procs[k].vruntime
    requires forall k :: 0 <= k < best && procs[k].state == Runnable ==> procs[best].vruntime < procs[k].vruntime
    ensures -1 <= r < |procs| && (r >= 0 ==> procs[r].state == Runnable)
    ensures forall k :: 0 <= k < |procs| && procs[k].state == Runnable ==>
                          r >= 0 && procs[r].vruntime <= procs[k].vruntime
    ensures forall k :: 0 <= k < r && procs[k].state == Runnable ==> procs[r].vruntime < procs[k].vruntime
    decreases |procs| - i
  {
    if i == |procs| then best
    else if procs[i].state != Runnable then ChooseCfs(procs, i + 1, best)
    else if best < 0 || procs[i].vruntime < procs[best].vruntime then ChooseCfs(procs, i + 1, i)
    else ChooseCfs(procs, i + 1, best)
  }

  function Choose(policy: Policy, t: Table): (r: int)
    requires t.Shape()
    ensures -1 <= r < PROC_MAX && (r >= 0 ==> t.procs[r].state == Runnable)
  {
    match policy
    case RoundRobin => ChooseRr(t.procs, Start(t), 0)
    case Cfs => ChooseCfs(t.procs, 0, -1)
  }

  /** A tick that reaches the scheduler: preemption armed and ring 3 interrupted. */
  predicate Effective(t: Table, sp: Frame) { t.armed && sp[CS] % 4 == 3 }

  /** The interrupted process saves its frame and is charged one unit. */
  function Charge(t: Table, sp: Frame): Table
    requires t.Shape()
  {
    if t.IsRunnable(t.current) then
      var p := t.procs[t.current];
      t.(procs := t.procs[t.current := p.(frame := sp, vruntime := p.vruntime + 1)])
    else t
  }

  /** `irq_timer_dispatch`: the new table and the frame the interrupt returns to. */
  function Tick(policy: Policy, t: Table, sp: Frame): (Table, Frame)
    requires t.Shape()
  {
    if !Effective(t, sp) then (t, sp)
    else
      var charged := Charge(t, sp);
      var next := Choose(policy, charged);
      if next < 0 then (charged, sp)
      else (charged.(current := next), charged.procs[next].frame)
  }

  datatype Event =
    | CreateUser(entry: u64, rsp: u64)
    | ForkCurrent(rip: u64, rsp: u64, flags: u64)
    | Signal(pid: int, signal: int)
    | Timer(sp: Frame)
    | Arm
    | Disarm

  function Next(policy: Policy, t: Table, e: Event): Table
    requires t.Shape()
  {
    match e
    case CreateUser(entry, rsp) => Create(t, entry, rsp).0
    case ForkCurrent(rip, rsp, flags) => Fork(t, rip, rsp, flags).0
    case Signal(pid, signal) => Kill(t, pid, signal).0
    case Timer(sp) => Tick(policy, t, sp).0
    case Arm => t.(armed := true)
    case Disarm => t.(armed := false)
  }

  lemma NextKeepsShape(policy: Policy, t: Table, e: Event)
    requires t.Shape()
    ensures Next(policy, t, e).Shape()
  {
  }

  /** The table after `es`, starting from `t`. */
  function Execute(policy: Policy, t: Table, es: seq<Event>): (r: Table)
    requires t.Shape()
    ensures r.Shape()
    decreases |es|
  {
    if es == [] then t
    else
      NextKeepsShape(policy, t, es[0]);
      Execute(policy, Next(policy, t, es[0]), es[1..])
  }

  /** One event, then the rest. */
  lemma ExecuteFirst(policy: Policy, t: Table, e: Event, es: seq<Event>)
    requires t.Shape()
    ensures Next(policy, t, e).Shape() && Execute(policy, t, [e] + es) == Execute(policy, Next(policy, t, e), es)
  {
    NextKeepsShape(policy, t, e);
    hide Next;
    assert ([e] + es)[1..] == es;
  }

  // ----- the table invariant

  /** Used slots are a prefix numbered by pid, each with a ring-3 frame; the current slot is runnable. */
  ghost predicate Inv(t: Table)
  {
    && t.Shape()
    && 1 <= t.nextPid <= PROC_MAX + 1
    && (forall i :: 0 <= i < t.nextPid - 1 ==>
                      t.procs[i].state != Unused && t.procs[i].pid == i + 1 && t.procs[i].frame[CS] % 4 == 3)
    && (forall i :: t.nextPid - 1 <= i < PROC_MAX ==> t.procs[i] == BLANK)
    && (t.current >= 0 ==> t.IsRunnable(t.current))
  }

  lemma FreeSlotIsNext(t: Table)
    requires Inv(t)
    ensures FreeSlot(t.procs, 0) == if t.nextPid == PROC_MAX + 1 then -1 else t.nextPid - 1
  {
    var r := FreeSlot(t.procs, 0);
    if t.nextPid <= PROC_MAX {
      assert t.procs[t.nextPid - 1] == BLANK;
    }
  }

  lemma SpawnKeepsInv(t: Table, e: Event)
    requires Inv(t) && (e.CreateUser? || e.ForkCurrent?)
    ensures Inv(Next(RoundRobin, t, e)) && Inv(Next(Cfs, t, e))
  {
    FreeSlotIsNext(t);
    hide FreeSlot;
  }

  lemma SignalKeepsInv(t: Table, pid: int, signal: int)
    requires Inv(t)
    ensures Inv(Kill(t, pid, signal).0)
  {
    hide FindPid;
  }

  lemma ChargeKeepsInv(t: Table, sp: Frame)
    requires Inv(t) && sp[CS] % 4 == 3
    ensures Inv(Charge(t, sp)) && Charge(t, sp).current == t.current
  {
  }

  lemma TickKeepsInv(policy: Policy, t: Table, sp: Frame)
    requires Inv(t)
    ensures Inv(Tick(policy, t, sp).0)
  {
    hide Charge, Choose;
    if Effective(t, sp) {
      ChargeKeepsInv(t, sp);
    }
  }

  lemma NextKeepsInv(policy: Policy, t: Table, e: Event)
    requires Inv(t)
    ensures Inv(Next(policy, t, e))
  {
    match e {
      case CreateUser(_, _) => SpawnKeepsInv(t, e);
      case ForkCurrent(_, _, _) => SpawnKeepsInv(t, e);
      case Signal(pid, signal) => SignalKeepsInv(t, pid, signal);
      case Timer(sp) => TickKeepsInv(policy, t, sp);
      case Arm =>
      case Disarm =>
    }
  }

  /** The table invariant holds in every reachable state, under both policies. */
  lemma {:induction false} TableInvariant(policy: Policy, t: Table, es: seq<Event>)
    requires Inv(t)
    ensures Inv(Execute(policy, t, es))
    decreases |es|
  {
    if es == [] {
    } else {
      NextKeepsInv(policy, t, es[0]);
      TableInvariant(policy, Next(policy, t, es[0]), es[1..]);
    }
  }

  lemma InitInv()
    ensures Inv(Init())
  {
  }

  /** The one event that may rewrite the saved frame of slot `i`. */
  predicate Saves(t: Table, e: Event, i: int)
  {
    e.Timer? && Effective(t, e.sp) && t.current == i
  }

  /** A saved frame changes only when its owner is current at a tick, and then becomes the interrupted frame. */
  lemma FrameStability(policy: Policy, t: Table, e: Event, i: int)
    requires Inv(t) && 0 <= i < t.nextPid - 1
    ensures var t' := Next(policy, t, e);
            && t'.Shape() && t.nextPid <= t'.nextPid
            && t'.procs[i].frame == (if Saves(t, e, i) then e.sp else t.procs[i].frame)
            && t'.procs[i].pid == t.procs[i].pid
            && (t.procs[i].state == Zombie ==> t'.procs[i].state == Zombie)
  {
    FreeSlotIsNext(t);
  }

  /** No event of `es` interrupts slot `i` while it is current. */
  ghost predicate NeverSaved(policy: Policy, t: Table, es: seq<Event>, i: int)
    requires t.Shape()
    decreases |es|
  {
    es == [] ||
    (NextKeepsShape(policy, t, es[0]);
     !Saves(t, es[0], i) && NeverSaved(policy, Next(policy, t, es[0]), es[1..], i))
  }

  /** A stored frame is returned unchanged when slot `i` is next dispatched, whatever runs in between. */
  lemma {:induction false} StoredFrameReturns(policy: Policy, t: Table, es: seq<Event>, i: int)
    requires Inv(t) && 0 <= i < t.nextPid - 1
    requires NeverSaved(policy, t, es, i)
    ensures var t' := Execute(policy, t, es);
            && i < t'.nextPid - 1 && t'.procs[i].frame == t.procs[i].frame
            && forall sp: Frame :: Effective(t', sp) && t'.current != i && Tick(policy, t', sp).0.current == i ==>
                                     Tick(policy, t', sp).1 == t.procs[i].frame
    decreases |es|
  {
    if es == [] {
    } else {
      FrameStability(policy, t, es[0], i);
      NextKeepsInv(policy, t, es[0]);
      StoredFrameReturns(policy, Next(policy, t, es[0]), es[1..], i);
    }
  }

  /** A frame that enters user code at `rip` with stack `rsp` and clear general registers. */
  predicate Enters(f: Frame, rip: u64, flags: u64, rsp: u64)
  {
    && f[15] == rip && f[CS] == 0x23 && f[17] == flags && f[18] == rsp && f[19] == 0x1B
    && forall k :: 0 <= k < 15 ==> f[k] == 0
  }

  /** What a create or fork puts in the next slot, and nothing else: pid, vruntime and entry frame. */
  lemma SpawnEffect(policy: Policy, t: Table, e: Event)
    requires Inv(t) && (e.CreateUser? || (e.ForkCurrent? && t.current >= 0)) && t.nextPid <= PROC_MAX
    ensures var t', i := Next(policy, t, e), t.nextPid - 1;
            && t'.IsRunnable(i) && t'.procs[i].pid == t.nextPid && t'.nextPid == t.nextPid + 1
            && (forall j :: 0 <= j < PROC_MAX && j != i ==> t'.procs[j] == t.procs[j])
            && t'.current == (if t.current < 0 then i else t.current)
    ensures e.CreateUser? ==>
              var f := Next(policy, t, e).procs[t.nextPid - 1];
              Create(t, e.entry, e.rsp).1 == t.nextPid && f.vruntime == 0 && Enters(f.frame, e.entry, 0x202, e.rsp)
    ensures e.ForkCurrent? ==>
              var f := Next(policy, t, e).procs[t.nextPid - 1];
              && Fork(t, e.rip, e.rsp, e.flags).1 == t.nextPid && f.vruntime == t.procs[t.current].vruntime
              && Enters(f.frame, e.rip, if e.flags != 0 then e.flags else 0x202, e.rsp)
  {
    FreeSlotIsNext(t);
    hide FreeSlot;
  }

  /** A full table refuses both, and changes nothing. */
  lemma SpawnRefused(t: Table, rip: u64, rsp: u64, flags: u64)
    requires Inv(t) && t.nextPid == PROC_MAX + 1
    ensures Create(t, rip, rsp) == (t, -1) && Fork(t, rip, rsp, flags) == (t, -1)
  {
    FreeSlotIsNext(t);
  }

  /** However much later it is first dispatched, a new process enters where its creator said. */
  lemma NewProcessStarts(policy: Policy, t: Table, e: Event, es: seq<Event>, sp: Frame)
    requires Inv(t) && (e.CreateUser? || (e.ForkCurrent? && t.current >= 0)) && t.nextPid <= PROC_MAX
    requires Next(policy, t, e).Shape() && NeverSaved(policy, Next(policy, t, e), es, t.nextPid - 1)
    ensures var t', i := Execute(policy, Next(policy, t, e), es), t.nextPid - 1;
            Effective(t', sp) && t'.current != i && Tick(policy, t', sp).0.current == i ==>
              var f := Tick(policy, t', sp).1;
              if e.CreateUser? then Enters(f, e.entry, 0x202, e.rsp)
              else Enters(f, e.rip, if e.flags != 0 then e.flags else 0x202, e.rsp)
  {
    SpawnEffect(policy, t, e);
    NextKeepsInv(policy, t, e);
    hide Next, Inv, Tick, Enters;
    StoredFrameReturns(policy, Next(policy, t, e), es, t.nextPid - 1);
  }

  /** A signal reaches exactly the runnable process of that pid: its slot is pid - 1. */
  lemma KillEffect(t: Table, pid: int, signal: int)
    requires Inv(t)
    ensures var (t', r) := Kill(t, pid, signal);
            if t.IsRunnable(pid - 1)
            then && r == 0 && t'.nextPid == t.nextPid
                 && t'.procs[pid - 1] ==
                    t.procs[pid - 1].(signal := signal, state := if Fatal(signal) then Zombie else Runnable)
                 && (forall j :: 0 <= j < PROC_MAX && j != pid - 1 ==> t'.procs[j] == t.procs[j])
                 && t'.current == (if t.current == pid - 1 then -1 else t.current)
            else r == -1 && t' == t
  {
    var i := FindPid(t.procs, pid, 0);
    assert forall k :: 0 <= k < PROC_MAX && t.procs[k].state == Runnable ==> t.procs[k].pid == k + 1;
    hide FindPid;
  }
}
