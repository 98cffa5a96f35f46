/**
 The xHCI command ring: `xhci_cmd` on the driver side, and a controller that
 obeys cycle bits and link TRBs (sections 4.9.3 and 6.4.4.1 of the xHCI
 specification) on the other. The two are interleaved freely.
 */
module CommandRing {
  import opened Words

  const RING_TRBS: nat := 256
  const LINK: nat := 255  // index of the link TRB; commands use the 255 entries before it
  const TYPE_LINK: nat := 6

  datatype Trb = Trb(parameter: u64, status: u32, control: u32)

  const ZERO_TRB := Trb(0, 0, 0)

  function TrbType(control: u32): nat { control / 0x400 % 64 }

  function Cycle(t: Trb): nat { t.control % 2 }

  /** `control | (cycle ? XHCI_TRB_CYCLE : 0)`. */
  function WithCycle(t: Trb, cycle: nat): Trb
  {
    if cycle == 0 then t else t.(control := t.control / 2 * 2 + 1)
  }

  /** What the controller executes: the TRB without its cycle bit. */
  function Payload(t: Trb): Trb { t.(control := t.control / 2 * 2) }

  /** The link TRB written on wrap: type 6, toggle-cycle set, pointing at the ring base. */
  function LinkTrb(base: u64, cycle: nat): Trb
  {
    WithCycle(Trb(base, 0, TYPE_LINK * 0x400 + 2), cycle)
  }

  /** A command the callers of `xhci_cmd` pass: not a link, cycle bit left to the driver. */
  predicate IsCommand(t: Trb) { Cycle(t) == 0 && TrbType(t.control) != TYPE_LINK }

  /** Driver state, controller state and the history of both ends. */
  datatype System = System(
    base: u64, trbs: seq<Trb>, index: nat, cycle: nat,
    deq: nat, ccs: nat,
    submitted: seq<Trb>, executed: seq<Trb>)
  {
    function Pending(): int { |submitted| - |executed| }

    /** Every index either end dereferences is inside the ring. */
    predicate InBounds() { |trbs| == RING_TRBS && index < LINK && deq < RING_TRBS }
  }

  /** `xhci_init_rings`: a zeroed ring, both ends at entry 0 with cycle 1. */
  function Init(base: u64): System
  {
    System(base, seq(RING_TRBS, _ => ZERO_TRB), 0, 1, 0, 1, [], [])
  }

  /** The ring after `xhci_cmd` has written `cmd`. */
  function Enqueue(base: u64, trbs: seq<Trb>, index: nat, cycle: nat, cmd: Trb): (seq<Trb>, nat, nat)
    requires |trbs| == RING_TRBS && index < LINK
  {
    var written := trbs[index := WithCycle(cmd, cycle)];
    if index + 1 == LINK then (written[LINK := LinkTrb(base, cycle)], 0, 1 - cycle % 2)
    else (written, index + 1, cycle)
  }

  function Submit(s: System, cmd: Trb): System
    requires s.InBounds()
  {
    var (trbs, index, cycle) := Enqueue(s.base, s.trbs, s.index, s.cycle, cmd);
    s.(trbs := trbs, index := index, cycle := cycle, submitted := s.submitted + [cmd])
  }

  /**
   One controller step: an entry whose cycle bit differs from the consumer
   cycle state is not owned and stops it; a link TRB redirects it and may
   toggle the cycle state; anything else is executed.
   */
  function Fetch(s: System): System
    requires s.InBounds()
  {
    var t := s.trbs[s.deq];
    if Cycle(t) != s.ccs then s
    else if TrbType(t.control) == TYPE_LINK then
      s.(deq := if t.parameter < s.base then 0 else (t.parameter - s.base) / 16,
         ccs := if t.control / 2 % 2 == 1 then 1 - s.ccs else s.ccs)
    else s.(deq := s.deq + 1, executed := s.executed + [Payload(t)])
  }

  /** The entry the `n`-th command is written to. */
  function Slot(n: nat): (j: nat)
    ensures j < LINK && (n < LINK ==> j == n)
  {
    if n < LINK then n else Slot(n - LINK)
  }

  /** The cycle bit the `n`-th command is written with; it flips on every lap. */
  function Phase(n: nat): (c: nat)
    ensures c < 2
  {
    if n < LINK then 1 else 1 - Phase(n - LINK)
  }

  /** The driver's end after submitting `log`: the last 255 commands are in the ring, each with its lap's cycle bit. */
  ghost predicate DriverInv(base: u64, trbs: seq<Trb>, index: nat, cycle: nat, log: seq<Trb>)
  {
    var n := |log|;
    && |trbs| == RING_TRBS
    && index == Slot(n) && cycle == Phase(n)
    && (forall m :: 0 <= m < n && n - LINK <= m ==> trbs[Slot(m)] == WithCycle(log[m], Phase(m)))
    && (forall j :: n <= j < LINK ==> trbs[j] == ZERO_TRB)
    && trbs[LINK] == (if n < LINK then ZERO_TRB else LinkTrb(base, 1 - Phase(n)))
    && (forall m :: 0 <= m < n ==> IsCommand(log[m]))
  }

  ghost predicate ControllerInv(s: System)
  {
    var c := |s.executed|;
    && c <= |s.submitted| && s.executed == s.submitted[..c]
    && if s.deq == LINK then Slot(c) == 0 && c > 0 && s.ccs == 1 - Phase(c)
       else s.deq == Slot(c) && s.ccs == Phase(c)
  }

  ghost predicate Inv(s: System)
  {
    && DriverInv(s.base, s.trbs, s.index, s.cycle, s.submitted)
    && ControllerInv(s)
    && s.Pending() <= LINK
  }

  datatype Event = Command(cmd: Trb) | Controller

  /** One event; `None` is an access outside the ring. */
  function Next(s: System, e: Event): Option<System>
  {
    if !s.InBounds() then None
    else match e
      case Command(cmd) => Some(Submit(s, cmd))
      case Controller => Some(Fetch(s))
  }

  /** The state after `run`, starting from a freshly initialised ring. */
  function Execute(base: u64, run: seq<Event>): Option<System>
  {
    if run == [] then Some(Init(base))
    else
      var before := Execute(base, run[..|run| - 1]);
      if before.None? then None else Next(before.value, run[|run| - 1])
  }

  /** Commands are submitted only while fewer than `limit` are pending. */
  ghost predicate Obeys(base: u64, run: seq<Event>, limit: nat)
  {
    run == [] ||
    var before, e := Execute(base, run[..|run| - 1]), run[|run| - 1];
    && Obeys(base, run[..|run| - 1], limit)
    && (before.Some? && e.Command? ==> IsCommand(e.cmd) && before.value.Pending() < limit)
  }

  lemma CycleBits(t: Trb, cycle: nat)
    requires IsCommand(t) && cycle < 2
    ensures Cycle(WithCycle(t, cycle)) == cycle
    ensures TrbType(WithCycle(t, cycle).control) == TrbType(t.control)
    ensures Payload(WithCycle(t, cycle)) == t
  {
  }

  lemma LinkBits(base: u64, cycle: nat)
    requires cycle < 2
    ensures var t := LinkTrb(base, cycle);
            Cycle(t) == cycle && TrbType(t.control) == TYPE_LINK && t.control / 2 % 2 == 1 && t.parameter == base
  {
  }

  lemma {:induction false} Advance(n: nat)
    ensures Slot(n) == LINK - 1 ==> Slot(n + 1) == 0 && Phase(n + 1) == 1 - Phase(n)
    ensures Slot(n) != LINK - 1 ==> Slot(n + 1) == Slot(n) + 1 && Phase(n + 1) == Phase(n)
  {
    if n < LINK {
    } else {
      Advance(n - LINK);
    }
  }

  lemma {:induction false} SlotReuse(m: nat, n: nat)
    requires m < n < m + LINK
    ensures Slot(m) != Slot(n)
    ensures Slot(m) == 0 ==> Phase(m) == Phase(n)
  {
    if m < LINK {
    } else {
      SlotReuse(m - LINK, n - LINK);
    }
  }

  lemma EnqueueKeepsDriverInv(base: u64, trbs: seq<Trb>, index: nat, cycle: nat, log: seq<Trb>, cmd: Trb)
    requires DriverInv(base, trbs, index, cycle, log) && IsCommand(cmd)
    ensures var (trbs', index', cycle') := Enqueue(base, trbs, index, cycle, cmd);
            DriverInv(base, trbs', index', cycle', log + [cmd])
  {
    var n := |log|;
    var (trbs', index', cycle') := Enqueue(base, trbs, index, cycle, cmd);
    Advance(n);
    forall m | 0 <= m < n + 1 && n + 1 - LINK <= m
      ensures trbs'[Slot(m)] == WithCycle((log + [cmd])[m], Phase(m))
    {
      if m < n {
        SlotReuse(m, n);
        assert trbs[Slot(m)] == WithCycle(log[m], Phase(m));
      }
    }
  }

  lemma SubmitKeepsInv(s: System, cmd: Trb)
    requires Inv(s) && IsCommand(cmd) && s.Pending() < LINK
    ensures Inv(Submit(s, cmd))
  {
    EnqueueKeepsDriverInv(s.base, s.trbs, s.index, s.cycle, s.submitted, cmd);
    assert Submit(s, cmd).submitted[..|s.executed|] == s.submitted[..|s.executed|];
  }

  /** What the controller sees at its dequeue pointer, for any number of pending commands up to 255. */
  lemma Head(s: System)
    requires Inv(s)
    ensures s.deq < LINK && s.Pending() > 0 ==>
              Cycle(s.trbs[s.deq]) == s.ccs && TrbType(s.trbs[s.deq].control) != TYPE_LINK
              && Payload(s.trbs[s.deq]) == s.submitted[|s.executed|]
    ensures s.deq < LINK && s.Pending() == 0 ==> Cycle(s.trbs[s.deq]) != s.ccs
    ensures s.deq == LINK ==>
              TrbType(s.trbs[LINK].control) == TYPE_LINK && (Cycle(s.trbs[LINK]) == s.ccs <==> s.Pending() < LINK)
  {
    var n, c := |s.submitted|, |s.executed|;
    if s.deq == LINK {
      LinkBits(s.base, 1 - Phase(n));
      if n < c + LINK && c < n {
        SlotReuse(c, n);
      }
    } else if c < n {
      assert s.trbs[Slot(c)] == WithCycle(s.submitted[c], Phase(c));
      CycleBits(s.submitted[c], Phase(c));
    } else if n >= LINK {
      var m := n - LINK;
      assert s.trbs[Slot(m)] == WithCycle(s.submitted[m], Phase(m));
      CycleBits(s.submitted[m], Phase(m));
    }
  }

  lemma FetchResult(s: System)
    requires Inv(s)
    ensures s.deq < LINK && s.Pending() > 0 ==>
              Fetch(s) == s.(deq := s.deq + 1, executed := s.executed + [s.submitted[|s.executed|]])
    ensures s.deq < LINK && s.Pending() == 0 ==> Fetch(s) == s
    ensures s.deq == LINK && s.Pending() < LINK ==> Fetch(s) == s.(deq := 0, ccs := 1 - s.ccs)
    ensures s.deq == LINK && s.Pending() == LINK ==> Fetch(s) == s
  {
    Head(s);
    LinkBits(s.base, s.ccs);
  }

  /** Executing the head keeps the invariant, also when the dequeue pointer moves onto the link TRB. */
  lemma ExecuteKeepsInv(s: System)
    requires Inv(s) && s.deq < LINK && s.Pending() > 0
    ensures Inv(s.(deq := s.deq + 1, executed := s.executed + [s.submitted[|s.executed|]]))
  {
    var c := |s.executed|;
    Advance(c);
    assert s.executed + [s.submitted[c]] == s.submitted[..c + 1];
  }

  /** Exactly what one controller step does in any state with at most 255 commands pending. */
  lemma FetchExactly(s: System)
    requires Inv(s)
    ensures Inv(Fetch(s)) && Fetch(s).submitted == s.submitted
    ensures s.deq < LINK && s.Pending() > 0 ==>
              Fetch(s) == s.(deq := s.deq + 1, executed := s.executed + [s.submitted[|s.executed|]])
    ensures s.deq < LINK && s.Pending() == 0 ==> Fetch(s) == s
    ensures s.deq == LINK && s.Pending() < LINK ==> Fetch(s) == s.(deq := 0, ccs := 1 - s.ccs)
    ensures s.deq == LINK && s.Pending() == LINK ==> Fetch(s) == s
  {
    FetchResult(s);
    if s.deq < LINK && s.Pending() > 0 {
      ExecuteKeepsInv(s);
    }
  }

  /** Safety: in every interleaving, what was executed is what was submitted, in order and once each. */
  lemma {:induction false} InOrderOnceEach(base: u64, run: seq<Event>, limit: nat)
    requires Obeys(base, run, limit) && limit <= LINK
    ensures Execute(base, run).Some?
    ensures var s := Execute(base, run).value;
            Inv(s) && s.executed <= s.submitted && s.Pending() <= limit
    decreases |run|
  {
    if run == [] {
    } else {
      var prefix, e := run[..|run| - 1], run[|run| - 1];
      InOrderOnceEach(base, prefix, limit);
      var s := Execute(base, prefix).value;
      match e
      case Command(cmd) => SubmitKeepsInv(s, cmd);
      case Controller => FetchExactly(s);
    }
  }

  /** `k` controller steps with no driver step in between. */
  function Fetches(s: System, k: nat): System
    requires Inv(s)
    decreases k
  {
    if k == 0 then s else FetchExactly(s); Fetches(Fetch(s), k - 1)
  }

  /**
   Progress: with at most 254 commands pending the controller executes every
   one of them, across any wrap, and then stops on the stale entries behind.
   */
  lemma {:induction false} Drains(s: System, k: nat)
    requires Inv(s) && s.Pending() < LINK
    requires k >= 2 * s.Pending() + (if s.deq == LINK then 1 else 0)
    ensures Fetches(s, k).executed == s.submitted
    ensures Fetches(s, k).submitted == s.submitted
    decreases k
  {
    if k == 0 {
    } else {
      FetchExactly(s);
      Drains(Fetch(s), k - 1);
    }
  }

  /** With 255 pending the controller is stuck for good exactly when it is parked on the link TRB. */
  lemma {:induction false} StuckIffParked(s: System, k: nat)
    requires Inv(s) && s.Pending() > 0 && k > 1
    ensures Fetches(s, k).executed == s.executed <==> s.deq == LINK && s.Pending() == LINK
  {
    FetchExactly(s);
    if s.deq == LINK && s.Pending() == LINK {
      StaysStuck(s, k);
    } else {
      var s2 := TwoFetches(s, k);
      ExecutedGrows(s2, k - 2);
    }
  }

  lemma TwoFetches(s: System, k: nat) returns (t: System)
    requires Inv(s) && s.Pending() > 0 && k > 1 && !(s.deq == LINK && s.Pending() == LINK)
    ensures Inv(t) && Fetches(s, k) == Fetches(t, k - 2) && |t.executed| > |s.executed|
  {
    var s1 := Fetch(s);
    FetchExactly(s);
    FetchExactly(s1);
    t := Fetch(s1);
    assert Fetches(s, k) == Fetches(s1, k - 1);
    assert Fetches(s1, k - 1) == Fetches(t, k - 2);
  }

  lemma {:induction false} StaysStuck(s: System, k: nat)
    requires Inv(s) && s.deq == LINK && s.Pending() == LINK
    ensures Fetches(s, k) == s
  {
    if k == 0 {
    } else {
      FetchExactly(s);
      StaysStuck(s, k - 1);
    }
  }

  lemma {:induction false} ExecutedGrows(s: System, k: nat)
    requires Inv(s)
    ensures |Fetches(s, k).executed| >= |s.executed|
    decreases k
  {
    if k == 0 {
    } else {
      FetchExactly(s);
      ExecutedGrows(Fetch(s), k - 1);
    }
  }

  /** `laps` commands, each executed before the next, then `burst` more with the controller idle. */
  function ParkingRun(cmd: Trb, laps: nat, burst: nat): seq<Event>
  {
    if burst > 0 then ParkingRun(cmd, laps, burst - 1) + [Command(cmd)]
    else if laps > 0 then ParkingRun(cmd, laps - 1, 0) + [Command(cmd)] + [Controller]
    else []
  }

  lemma ExecuteSnoc(base: u64, run: seq<Event>, e: Event)
    requires Execute(base, run).Some?
    ensures Execute(base, run + [e]) == Next(Execute(base, run).value, e)
    ensures forall limit :: Obeys(base, run + [e], limit) <==>
                            Obeys(base, run, limit) &&
                            (e.Command? ==> IsCommand(e.cmd) && Execute(base, run).value.Pending() < limit)
  {
    assert (run + [e])[..|run|] == run;
  }

  ghost predicate Parked(base: u64, run: seq<Event>, laps: nat, burst: nat)
  {
    && Execute(base, run).Some?
    && var s := Execute(base, run).value;
       Inv(s) && |s.executed| == laps && s.Pending() == burst && s.deq == laps
  }

  lemma CommandThenFetch(s: System, cmd: Trb) returns (t: System)
    requires Inv(s) && IsCommand(cmd) && s.deq < LINK && s.Pending() == 0
    ensures Next(s, Command(cmd)).Some? && Next(Next(s, Command(cmd)).value, Controller) == Some(t)
    ensures Inv(t) && |t.executed| == |s.executed| + 1 && t.Pending() == 0 && t.deq == s.deq + 1
  {
    var s1 := Submit(s, cmd);
    SubmitKeepsInv(s, cmd);
    FetchExactly(s1);
    t := Fetch(s1);
  }

  lemma {:induction false} Lockstep(base: u64, cmd: Trb, laps: nat)
    requires IsCommand(cmd) && laps <= LINK
    ensures Obeys(base, ParkingRun(cmd, laps, 0), 1)
    ensures Parked(base, ParkingRun(cmd, laps, 0), laps, 0)
  {
    if laps == 0 {
    } else {
      Lockstep(base, cmd, laps - 1);
      var r := ParkingRun(cmd, laps - 1, 0);
      var t := CommandThenFetch(Execute(base, r).value, cmd);
      ExecuteSnoc(base, r, Command(cmd));
      ExecuteSnoc(base, r + [Command(cmd)], Controller);
    }
  }

  lemma {:induction false} ParkingRunState(base: u64, cmd: Trb, laps: nat, burst: nat)
    requires IsCommand(cmd) && laps <= LINK && 0 < burst <= LINK
    ensures Obeys(base, ParkingRun(cmd, laps, burst), burst)
    ensures Parked(base, ParkingRun(cmd, laps, burst), laps, burst)
  {
    var r := ParkingRun(cmd, laps, burst - 1);
    if burst == 1 {
      Lockstep(base, cmd, laps);
    } else {
      ParkingRunState(base, cmd, laps, burst - 1);
      ObeysMore(base, r, burst - 1, burst);
    }
    ExecuteSnoc(base, r, Command(cmd));
    SubmitKeepsInv(Execute(base, r).value, cmd);
  }

  lemma {:induction false} ObeysMore(base: u64, run: seq<Event>, l1: nat, l2: nat)
    requires Obeys(base, run, l1) && l1 <= l2
    ensures Obeys(base, run, l2)
    decreases |run|
  {
    if run == [] {
    } else {
      ObeysMore(base, run[..|run| - 1], l1, l2);
    }
  }

  /**
   The limit of 254 is the best one: a run that allows one more pending
   command reaches a state whose commands are never executed.
   */
  lemma Limit255Stalls(base: u64, cmd: Trb, k: nat)
    requires IsCommand(cmd)
    ensures Obeys(base, ParkingRun(cmd, LINK, LINK), LINK)
    ensures var s := Execute(base, ParkingRun(cmd, LINK, LINK));
            s.Some? && Inv(s.value) && s.value.Pending() == LINK && Fetches(s.value, k) == s.value
  {
    ParkingRunState(base, cmd, LINK, LINK);
    StaysStuck(Execute(base, ParkingRun(cmd, LINK, LINK)).value, k);
  }

  /** Every command of every run with at most 254 pending is executed once the controller is left alone. */
  lemma EveryCommandExecutes(base: u64, run: seq<Event>)
    requires Obeys(base, run, LINK - 1)
    ensures var s := Execute(base, run);
            s.Some? && Inv(s.value) && Fetches(s.value, 2 * LINK).executed == s.value.submitted
  {
    InOrderOnceEach(base, run, LINK - 1);
    Drains(Execute(base, run).value, 2 * LINK);
  }

  /** The driver's static ring, updated in place. */
  class Driver {
    const base: u64
    const ring: array<Trb>
    var index: nat
    var cycle: nat

    ghost predicate Valid(log: seq<Trb>)
      reads this, ring
    {
      ring.Length == RING_TRBS && DriverInv(base, ring[..], index, cycle, log)
    }

    /** The command-ring part of `xhci_init_rings`. */
    constructor (base: u64)
      ensures Valid([]) && fresh(ring) && this.base == base
      ensures ring[..] == Init(base).trbs && index == Init(base).index && cycle == Init(base).cycle
    {
      this.base := base;
      ring := new Trb[RING_TRBS](_ => ZERO_TRB);
      index, cycle := 0, 1;
      new;
      assert ring[..] == Init(base).trbs;
    }

    /** `xhci_cmd` up to the doorbell: write the TRB, then wrap through the link TRB. */
    method Submit(parameter: u64, status: u32, control: u32, ghost log: seq<Trb>)
      requires Valid(log) && IsCommand(Trb(parameter, status, control))
      modifies this, ring
      ensures (ring[..], index, cycle) ==
              Enqueue(base, old(ring[..]), old(index), old(cycle), Trb(parameter, status, control))
      ensures Valid(log + [Trb(parameter, status, control)])
    {
      var cmd := Trb(parameter, status, control);
      EnqueueKeepsDriverInv(base, ring[..], index, cycle, log, cmd);
      ring[index] := WithCycle(cmd, cycle);
      index := index + 1;
      if index == RING_TRBS - 1 {
        ring[index] := LinkTrb(base, cycle);
        index := 0;
        cycle := 1 - cycle;
      }
      assert ring[..] == Enqueue(base, old(ring[..]), old(index), old(cycle), cmd).0;
    }
  }
}
