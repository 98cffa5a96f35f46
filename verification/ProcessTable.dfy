/** The scheduler's static process table, updated in place, proved against the state machine of `Scheduler`. */
module ProcessTable {
  import opened Words
  import opened Scheduler
  import WaitingTime

  class ProcessTable {
    const policy: Policy
    const procs: array<Process>
    var current: int
    var nextPid: int
    var armed: bool

    function Value(): Table
      reads this, procs
    {
      Table(procs[..], current, nextPid, armed)
    }

    ghost predicate Valid()
      reads this, procs
    {
      procs.Length == PROC_MAX && Inv(Value())
    }

    /** `sched_init`. */
    constructor (policy: Policy)
      ensures Valid() && fresh(procs) && Value() == Init() && this.policy == policy
    {
      this.policy := policy;
      procs := new Process[PROC_MAX](_ => BLANK);
      current, nextPid, armed := -1, 1, false;
      new;
      assert procs[..] == Init().procs;
    }

    method AllocProc() returns (slot: int)
      requires Valid()
      ensures slot == FreeSlot(procs[..], 0)
      ensures slot == if nextPid == PROC_MAX + 1 then -1 else nextPid - 1
    {
      FreeSlotIsNext(Value());
      for i := 0 to PROC_MAX
        invariant FreeSlot(procs[..], 0) == FreeSlot(procs[..], i)
      {
        if procs[i].state == Unused {
          return i;
        }
      }
      return -1;
    }

    method CreateUser(entry: u64, rsp: u64) returns (pid: int)
      requires Valid()
      modifies this, procs
      ensures Valid() && (Value(), pid) == Create(old(Value()), entry, rsp)
    {
      NextKeepsInv(policy, Value(), Event.CreateUser(entry, rsp));
      var slot := AllocProc();
      if slot < 0 {
        return -1;
      }
      procs[slot] := Process(Runnable, nextPid, 0, 0, UserFrame(entry, 0x202, rsp));
      nextPid := nextPid + 1;
      if current < 0 {
        current := slot;
      }
      assert Value() == Create(old(Value()), entry, rsp).0;
      return procs[slot].pid;
    }

    method ForkCurrent(rip: u64, rsp: u64, flags: u64) returns (pid: int)
      requires Valid()
      modifies this, procs
      ensures Valid() && (Value(), pid) == Fork(old(Value()), rip, rsp, flags)
    {
      NextKeepsInv(policy, Value(), Event.ForkCurrent(rip, rsp, flags));
      if current < 0 || procs[current].state != Runnable {
        return -1;
      }
      var slot := AllocProc();
      if slot < 0 {
        return -1;
      }
      procs[slot] := Process(Runnable, nextPid, 0, procs[current].vruntime,
                             UserFrame(rip, if flags != 0 then flags else 0x202, rsp));
      nextPid := nextPid + 1;
      assert Value() == Fork(old(Value()), rip, rsp, flags).0;
      return procs[slot].pid;
    }

    method Kill(pid: int, signal: int) returns (r: int)
      requires Valid()
      modifies this, procs
      ensures Valid() && (Value(), r) == Scheduler.Kill(old(Value()), pid, signal)
    {
      NextKeepsInv(policy, Value(), Signal(pid, signal));
      for i := 0 to PROC_MAX
        invariant Value() == old(Value())
        invariant FindPid(procs[..], pid, 0) == FindPid(procs[..], pid, i)
      {
        if procs[i].state == Runnable && procs[i].pid == pid {
          procs[i] := procs[i].(signal := signal);
          if Fatal(signal) {
            procs[i] := procs[i].(state := Zombie);
          }
          if i == current {
            current := -1;
          }
          assert Value() == Scheduler.Kill(old(Value()), pid, signal).0;
          return 0;
        }
      }
      return -1;
    }

    method CurrentPid() returns (pid: int)
      requires Valid()
      ensures pid == (if current < 0 then -1 else current + 1)
    {
      if current < 0 || procs[current].state != Runnable {
        return -1;
      }
      assert procs[..][current] != BLANK;
      return procs[current].pid;
    }

    method RunnableCount() returns (n: int)
      requires Valid()
      ensures n == WaitingTime.Runnables(procs[..], 0)
    {
      n := 0;
      for i := 0 to PROC_MAX
        invariant n + WaitingTime.Runnables(procs[..], i) == WaitingTime.Runnables(procs[..], 0)
      {
        if procs[i].state == Runnable {
          n := n + 1;
        }
      }
    }

    lemma RoundRobinStep(ps: seq<Process>, start: nat, n: nat)
      requires |ps| == PROC_MAX && start <= PROC_MAX && n < PROC_MAX
      ensures var idx := (start + n) % PROC_MAX;
              0 <= idx < PROC_MAX && ChooseRr(ps, start, n) ==
                if ps[idx].state == Runnable then idx else ChooseRr(ps, start, n + 1)
    {
      Place(start, n);
    }

    method ChooseRoundRobin() returns (next: int)
      requires Value().Shape()
      ensures next == ChooseRr(procs[..], Start(Value()), 0)
    {
      var start := if current < 0 then 0 else current + 1;
      ghost var ps := procs[..];
      assert ChooseRr(ps, start, PROC_MAX) == -1;
      hide ChooseRr, Ahead;
      for n := 0 to PROC_MAX
        invariant ChooseRr(ps, start, 0) == ChooseRr(ps, start, n)
      {
        RoundRobinStep(ps, start, n);
        var idx := (start + n) % PROC_MAX;
        if procs[idx].state == Runnable {
          return idx;
        }
      }
      return -1;
    }

    method ChooseLeastVruntime() returns (best: int)
      requires Value().Shape()
      ensures best == ChooseCfs(procs[..], 0, -1)
    {
      best := -1;
      for i := 0 to PROC_MAX
        invariant -1 <= best < i && (best >= 0 ==> procs[best].state == Runnable)
        invariant forall k :: 0 <= k < i && procs[k].state == Runnable ==>
                                best >= 0 && procs[best].vruntime <= procs[k].vruntime
        invariant forall k :: 0 <= k < best && procs[k].state == Runnable ==> procs[best].vruntime < procs[k].vruntime
        invariant ChooseCfs(procs[..], 0, -1) == ChooseCfs(procs[..], i, best)
      {
        if procs[i].state != Runnable {
          continue;
        }
        if best < 0 || procs[i].vruntime < procs[best].vruntime {
          best := i;
        }
      }
    }

    method TimerDispatch(sp: Frame) returns (frame: Frame)
      requires Valid()
      modifies this, procs
      ensures Valid() && (Value(), frame) == Tick(policy, old(Value()), sp)
    {
      NextKeepsInv(policy, Value(), Timer(sp));
      if !armed || sp[CS] % 4 != 3 {
        return sp;
      }
      if current >= 0 && procs[current].state == Runnable {
        procs[current] := procs[current].(frame := sp);
        procs[current] := procs[current].(vruntime := procs[current].vruntime + 1);
      }
      assert Value() == Charge(old(Value()), sp);
      hide Charge, Inv, ChooseRr, ChooseCfs, Next, Ahead;
      var next;
      if policy == Cfs {
        next := ChooseLeastVruntime();
      } else {
        next := ChooseRoundRobin();
      }
      if next < 0 {
        return sp;
      }
      current := next;
      return procs[current].frame;
    }
  }
}
