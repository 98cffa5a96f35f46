/**
 `xhci_cmd` store by store: each word of the TRB and of the link TRB is a step
 of its own, and the controller may look at the ring between any two of them.
 Up to stuttering this is `CommandRing`, as long as at most 254 commands are pending.
 */
module CommandStores {
  import opened Words
  import opened CommandRing

  /**
   The ring and both ends as they are in memory; `pc` is the next store of the
   call in progress, 0 for none; `was` is what the entry held when it began.
   */
  datatype Machine = Machine(ring: System, pc: nat, cmd: Trb, was: Trb)

  datatype Step = Begin(cmd: Trb) | Store | Look

  /** Memory after the next store. The command counts as submitted once its control word is in place. */
  function StoreNext(m: Machine): Machine
    requires m.ring.InBounds()
  {
    var r := m.ring;
    var t, l := r.trbs[r.index], r.trbs[LINK];
    match m.pc
    case 1 => m.(pc := 2, ring := r.(trbs := r.trbs[r.index := t.(parameter := m.cmd.parameter)]))
    case 2 => m.(pc := 3, ring := r.(trbs := r.trbs[r.index := t.(status := m.cmd.status)]))
    case 3 =>
      var written := r.(trbs := r.trbs[r.index := t.(control := WithCycle(m.cmd, r.cycle).control)],
                        submitted := r.submitted + [m.cmd]);
      if r.index + 1 == LINK then m.(pc := 4, ring := written)
      else m.(pc := 0, ring := written.(index := r.index + 1))
    case 4 => m.(pc := 5, ring := r.(trbs := r.trbs[LINK := l.(parameter := r.base)]))
    case 5 => m.(pc := 6, ring := r.(trbs := r.trbs[LINK := l.(status := 0)]))
    case 6 =>
      m.(pc := 0, ring := r.(trbs := r.trbs[LINK := l.(control := LinkTrb(r.base, r.cycle).control)],
                             index := 0, cycle := 1 - r.cycle % 2))
    case _ => m
  }

  /** One step; a call can begin only when the last one is over. */
  function Next(m: Machine, e: Step): Machine
    requires m.ring.InBounds()
  {
    match e
    case Begin(cmd) => if m.pc == 0 then m.(pc := 1, cmd := cmd, was := m.ring.trbs[m.ring.index]) else m
    case Store => StoreNext(m)
    case Look => m.(ring := Fetch(m.ring))
  }

  function Start(base: u64): Machine { Machine(Init(base), 0, ZERO_TRB, ZERO_TRB) }

  /** The ring as whole calls see it: before the control word nothing has happened, after it the call is done. */
  function Whole(m: Machine): System
    requires m.ring.InBounds()
  {
    var r := m.ring;
    if m.pc == 0 then r
    else if m.pc <= 3 then r.(trbs := r.trbs[r.index := m.was])
    else r.(trbs := r.trbs[LINK := LinkTrb(r.base, r.cycle)], index := 0, cycle := 1 - r.cycle % 2)
  }

  /** The entry being filled: its control word, hence its cycle bit, is still the old one. */
  ghost predicate Filling(m: Machine)
    requires m.ring.InBounds()
  {
    var t := m.ring.trbs[m.ring.index];
    && IsCommand(m.cmd) && t.control == m.was.control
    && (m.pc >= 2 ==> t.parameter == m.cmd.parameter) && (m.pc == 3 ==> t.status == m.cmd.status)
  }

  /** The link TRB being rewritten still has the cycle bit of the lap before. */
  ghost predicate Relinking(m: Machine)
    requires m.ring.InBounds()
  {
    var l := m.ring.trbs[LINK];
    && m.ring.index == LINK - 1 && m.ring.cycle < 2 && Cycle(l) != m.ring.cycle
    && (m.pc >= 5 ==> l.parameter == m.ring.base) && (m.pc == 6 ==> l.status == 0)
  }

  ghost predicate Inv(m: Machine, limit: nat)
  {
    && m.ring.InBounds() && m.pc <= 6 && CommandRing.Inv(Whole(m)) && limit < LINK
    && m.ring.Pending() + (if 1 <= m.pc <= 3 then 1 else 0) <= limit
    && (1 <= m.pc <= 3 ==> Filling(m)) && (4 <= m.pc ==> Relinking(m))
  }

  // ----- the controller between two stores

  /** While an entry is filled the controller does not own it. */
  lemma NotOwned(m: Machine, limit: nat)
    requires Inv(m, limit) && 1 <= m.pc <= 3 && m.ring.deq == m.ring.index
    ensures Cycle(m.was) != m.ring.ccs
  {
    var s := Whole(m);
    var n, c := |s.submitted|, |s.executed|;
    if c < n {
      SlotReuse(c, n);
    }
    Head(s);
  }

  /** While the link TRB is rewritten the controller does not own it. */
  lemma LinkNotOwned(m: Machine, limit: nat)
    requires Inv(m, limit) && 4 <= m.pc && m.ring.deq == LINK
    ensures Cycle(m.ring.trbs[LINK]) != m.ring.ccs
  {
    var s := Whole(m);
    var n, c := |s.submitted|, |s.executed|;
    if c < n {
      SlotReuse(c, n);
    }
  }

  lemma InRing(s: System)
    requires CommandRing.Inv(s)
    ensures s.InBounds()
  {
  }

  /** A look between two stores is a look between two calls, or no step at all. */
  lemma ControllerRefines(m: Machine, limit: nat)
    requires Inv(m, limit)
    ensures var t := Next(m, Look); Inv(t, limit) && (Whole(t) == Fetch(Whole(m)) || Whole(t) == Whole(m))
  {
    hide CommandRing.Inv, WithCycle, LinkTrb, IsCommand;
    var s, t := Whole(m), Next(m, Look);
    FetchExactly(s);
    InRing(Fetch(s));
    if 1 <= m.pc <= 3 {
      if m.ring.deq == m.ring.index {
        NotOwned(m, limit);
      }
      assert Whole(t) == Fetch(s);
    } else if 4 <= m.pc {
      if m.ring.deq == LINK {
        LinkNotOwned(m, limit);
        assert t == m;
      } else {
        assert Whole(t) == Fetch(s);
      }
    }
  }

  // ----- the driver's stores

  lemma BeginRefines(m: Machine, cmd: Trb, limit: nat)
    requires Inv(m, limit) && m.pc == 0 && IsCommand(cmd) && m.ring.Pending() < limit
    ensures var t := Next(m, Begin(cmd)); Inv(t, limit) && Whole(t) == Whole(m)
  {
    var r := m.ring;
    assert r.trbs[r.index := r.trbs[r.index]] == r.trbs;
  }

  /** Before the control word: still nothing has happened. */
  lemma EarlyStore(m: Machine, limit: nat)
    requires Inv(m, limit) && 1 <= m.pc <= 2
    ensures var t := Next(m, Store); Inv(t, limit) && Whole(t) == Whole(m)
  {
    var r, t := m.ring, Next(m, Store);
    hide CommandRing.Inv;
    assert t.ring.trbs[r.index := m.was] == r.trbs[r.index := m.was];
  }

  /** The control word: the whole call happens here. */
  lemma ControlStore(m: Machine, limit: nat)
    requires Inv(m, limit) && m.pc == 3
    ensures var t := Next(m, Store); Inv(t, limit) && Whole(t) == Submit(Whole(m), m.cmd)
  {
    hide CommandRing.Inv, Cycle, WithCycle, LinkTrb, IsCommand;
    var r, t, s := m.ring, Next(m, Store), Whole(m);
    SubmitKeepsInv(s, m.cmd);
    OldLink(s);
    WholeEntry(r.trbs[r.index], m.cmd, r.cycle);
    assert t.ring.trbs[r.index] == WithCycle(m.cmd, r.cycle);
    assert t.ring.trbs == s.trbs[r.index := WithCycle(m.cmd, r.cycle)];
  }

  lemma WholeEntry(t: Trb, cmd: Trb, cycle: nat)
    requires t.parameter == cmd.parameter && t.status == cmd.status
    ensures t.(control := WithCycle(cmd, cycle).control) == WithCycle(cmd, cycle)
  {
  }

  /** Between calls the link TRB has the cycle bit of the lap before. */
  lemma OldLink(s: System)
    requires CommandRing.Inv(s)
    ensures s.cycle < 2 && Cycle(s.trbs[LINK]) != s.cycle
  {
    var n := |s.submitted|;
    if n >= LINK {
      LinkBits(s.base, 1 - Phase(n));
    }
  }

  /** The link TRB: the call is over already. */
  lemma LinkStore(m: Machine, limit: nat)
    requires Inv(m, limit) && 4 <= m.pc
    ensures var t := Next(m, Store); Inv(t, limit) && Whole(t) == Whole(m)
  {
    var r, t := m.ring, Next(m, Store);
    hide CommandRing.Inv;
    assert m.pc == 6 ==> r.trbs[LINK].(control := LinkTrb(r.base, r.cycle).control) == LinkTrb(r.base, r.cycle);
    assert t.ring.trbs[LINK := LinkTrb(r.base, r.cycle)] == r.trbs[LINK := LinkTrb(r.base, r.cycle)];
  }

  /** Every step is a step between whole calls, or none: the refinement. */
  lemma StepRefines(m: Machine, e: Step, limit: nat)
    requires Inv(m, limit) && (e.Begin? && m.pc == 0 ==> IsCommand(e.cmd) && m.ring.Pending() < limit)
    ensures var t := Next(m, e);
            && Inv(t, limit)
            && (Whole(t) == Whole(m) || Whole(t) == Fetch(Whole(m))
                || (m.pc == 3 && Whole(t) == Submit(Whole(m), m.cmd)))
  {
    match e {
      case Begin(cmd) => if m.pc == 0 { BeginRefines(m, cmd, limit); }
      case Look => ControllerRefines(m, limit);
      case Store =>
        if 1 <= m.pc <= 2 {
          EarlyStore(m, limit);
        } else if m.pc == 3 {
          ControlStore(m, limit);
        } else if 4 <= m.pc {
          LinkStore(m, limit);
        }
    }
  }

  // ----- runs

  ghost predicate Obeys(m: Machine, run: seq<Step>, limit: nat)
    decreases |run|
  {
    run == [] ||
    (&& m.ring.InBounds()
     && (run[0].Begin? && m.pc == 0 ==> IsCommand(run[0].cmd) && m.ring.Pending() < limit)
     && Obeys(Next(m, run[0]), run[1..], limit))
  }

  /** The state after `run`; `None` is an access outside the ring. */
  function Execute(m: Machine, run: seq<Step>): Option<Machine>
    decreases |run|
  {
    if run == [] then Some(m)
    else if !m.ring.InBounds() then None
    else Execute(Next(m, run[0]), run[1..])
  }

  lemma {:induction false} RunKeepsInv(m: Machine, run: seq<Step>, limit: nat)
    requires Inv(m, limit) && Obeys(m, run, limit)
    ensures Execute(m, run).Some? && Inv(Execute(m, run).value, limit)
    decreases |run|
  {
    hide Inv, Next;
    if run == [] {
    } else {
      StepRefines(m, run[0], limit);
      InvBounds(Next(m, run[0]), limit);
      RunKeepsInv(Next(m, run[0]), run[1..], limit);
    }
  }

  lemma InvBounds(m: Machine, limit: nat)
    requires Inv(m, limit)
    ensures m.ring.InBounds()
  {
  }

  /**
   Safety store by store: in every interleaving of single stores and controller
   steps with at most 254 commands pending, what was executed is what was
   submitted, in order and once each, and no half-written entry is ever executed.
   */
  lemma InOrderStoreByStore(base: u64, run: seq<Step>, limit: nat)
    requires limit < LINK && Obeys(Start(base), run, limit)
    ensures Execute(Start(base), run).Some?
    ensures var r := Execute(Start(base), run).value.ring;
            r.InBounds() && r.executed <= r.submitted && r.Pending() <= limit
  {
    InitInv(base, limit);
    hide Obeys, Execute;
    RunKeepsInv(Start(base), run, limit);
  }

  lemma InitInv(base: u64, limit: nat)
    requires limit < LINK
    ensures Inv(Start(base), limit)
  {
  }

  /** And once the call in progress is over, the controller left alone executes everything. */
  lemma EveryCallExecutes(base: u64, run: seq<Step>, limit: nat)
    requires limit < LINK && Obeys(Start(base), run, limit)
    ensures Execute(Start(base), run).Some?
    ensures var m := Execute(Start(base), run).value;
            m.pc == 0 ==> CommandRing.Inv(m.ring) && Fetches(m.ring, 2 * LINK).executed == m.ring.submitted
  {
    InitInv(base, limit);
    hide Obeys, Execute;
    RunKeepsInv(Start(base), run, limit);
    var m := Execute(Start(base), run).value;
    if m.pc == 0 {
      Drains(m.ring, 2 * LINK);
    }
  }
}
