/**
 What a later call of `vm_map_identity_2m` does to the boot map: it computes the
 directory index modulo 512 GiB and ors the caller's flags into the address.
 */
module IdentityMap {
  import opened Words
  import opened PageTables
  import opened AddressSpace
  import opened VirtualMemory
  import opened MappedFrame

  /** The tables after a call for the 2 MiB pages `first` up to `last`. */
  ghost function Remapped(vm: Vm, first: nat, last: nat, flags: u64): Vm
    requires Distinct(vm) && first <= last < HUGE_PAGES
  {
    IdentityUpTo(LinkBoot(vm, 4), first, Reach(first, last), flags)
  }

  lemma InvDistinct(s: Space)
    requires Inv(s)
    ensures Distinct(s.vm) && s.vm.root !in s.vm.pd && s.vm.pdpt !in s.vm.pd
  {
    var vm, role := s.vm, s.role;
    assert forall j :: 0 <= j < 4 ==> role[vm.pd[j]] == [0, j];
    assert forall i, j :: 0 <= i < j < 4 ==> role[vm.pd[i]][1] != role[vm.pd[j]][1];
    assert forall j :: 0 <= j < 4 ==> |role[vm.pd[j]]| == 2;
  }

  // ----- what the call writes

  /** Root and directory-pointer table lead to the boot directories. */
  ghost predicate Leads(vm: Vm)
    requires Distinct(vm)
  {
    && Present(vm.ram[vm.root][0]) && vm.ram[vm.root][0] / PAGE == vm.pdpt
    && (forall j :: 0 <= j < 4 ==> Present(vm.ram[vm.pdpt][j]) && vm.ram[vm.pdpt][j] / PAGE == vm.pd[j])
  }

  lemma {:induction false} LinkElsewhere(vm: Vm, n: nat, p: nat)
    requires Distinct(vm) && n <= 4 && p < |vm.ram| && p != vm.root && p != vm.pdpt
    ensures LinkBoot(vm, n).ram[p] == vm.ram[p]
    decreases n
  {
    if n == 0 {
    } else {
      LinkElsewhere(vm, n - 1, p);
    }
  }

  /** Only the boot tables change; root and directory-pointer table are linked, all their other entries kept. */
  lemma RemappedTables(vm: Vm, first: nat, last: nat, flags: u64)
    requires Distinct(vm) && first <= last < HUGE_PAGES
    ensures var vm' := Remapped(vm, first, last, flags);
            && vm'.bump == vm.bump && vm'.root == vm.root && vm'.pdpt == vm.pdpt && vm'.pd == vm.pd
            && |vm'.ram| == |vm.ram|
            && Distinct(vm') && Leads(vm')
            && (forall i :: 1 <= i < ENTRIES ==> vm'.ram[vm.root][i] == vm.ram[vm.root][i])
            && (forall i :: 4 <= i < ENTRIES ==> vm'.ram[vm.pdpt][i] == vm.ram[vm.pdpt][i])
            && !Huge(vm'.ram[vm.root][0]) && (forall j :: 0 <= j < 4 ==> !Huge(vm'.ram[vm.pdpt][j]))
  {
    var linked := LinkBoot(vm, 4);
    LinkEntries(vm, 4);
    hide LinkBoot, IdentityUpTo, TableEntry;
    assert Distinct(linked);
    IdentityElsewhere(linked, first, Reach(first, last), flags, vm.root);
    IdentityElsewhere(linked, first, Reach(first, last), flags, vm.pdpt);
  }

  lemma RemappedElsewhere(vm: Vm, first: nat, last: nat, flags: u64, p: nat)
    requires Distinct(vm) && first <= last < HUGE_PAGES
    requires p < |vm.ram| && p != vm.root && p != vm.pdpt && p !in vm.pd
    ensures Remapped(vm, first, last, flags).ram[p] == vm.ram[p]
  {
    LinkElsewhere(vm, 4, p);
    hide LinkBoot;
    IdentityElsewhere(LinkBoot(vm, 4), first, Reach(first, last), flags, p);
  }

  /** A call that covers pages below 4 GiB only: which directory entries it sets. */
  lemma RemappedEntry(vm: Vm, first: nat, last: nat, flags: u64, j: nat, i: nat)
    requires Distinct(vm) && first <= last < HUGE_PAGES && j < 4 && i < ENTRIES
    requires Reach(first, last) <= 4 * ENTRIES || Reach(first, last) == first
    ensures Entry(Remapped(vm, first, last, flags), vm.pd[j], i) ==
            if first <= Number(j, i) < Reach(first, last) then HugeEntry(Number(j, i) * HUGE_PAGE, flags)
            else Entry(vm, vm.pd[j], i)
  {
    var linked, n := LinkBoot(vm, 4), Reach(first, last);
    LinkElsewhere(vm, 4, vm.pd[j]);
    hide LinkBoot, HugeEntry, Reach;
    if n == first {
      IdentityNone(linked, first, flags);
    } else {
      IdentityEntry(linked, first, n, flags, j, i);
    }
  }

  lemma {:induction false} OrGrows(a: nat, b: nat)
    ensures BitOr(a, b) >= a
    decreases a
  {
    if a == 0 || b == 0 {
    } else {
      OrGrows(a / 2, b / 2);
    }
  }

  lemma WrittenEntry(n: nat, flags: u64)
    requires n < HUGE_PAGES
    ensures var e := HugeEntry(n * HUGE_PAGE, flags);
            Huge(e) && e / HUGE_PAGE >= n && (Present(e) <==> flags % 2 == 1)
            && (e / HUGE_PAGE == n <==> FlagsInside(n * HUGE_PAGE, flags, 21))
  {
    assert n * HUGE_PAGE / HUGE_PAGE == n && n * HUGE_PAGE % 2 == 0;
    OrGrows(n, flags / HUGE_PAGE);
    OrAbsorbsIff(n, flags / HUGE_PAGE);
    HugeFlagsInsideIff(n * HUGE_PAGE, flags);
  }

  /** From 512 GiB up: the first page written lands in a low directory entry, which then maps memory from 512 GiB up. */
  lemma {:induction false} AliasedEntry(vm: Vm, first: nat, n: nat, flags: u64)
    requires Distinct(vm) && ENTRIES * ENTRIES <= first < n <= HUGE_PAGES && !Blocked(first)
    ensures var e := Entry(IdentityUpTo(vm, first, n, flags), vm.pd[first / ENTRIES % ENTRIES], first % ENTRIES);
            Huge(e) && e / HUGE_PAGE >= ENTRIES * ENTRIES
    decreases n
  {
    hide HugeEntry, SetEntry, Entry;
    var d, i := vm.pd[first / ENTRIES % ENTRIES], first % ENTRIES;
    if Blocked(n - 1) {
      AliasedEntry(vm, first, n - 1, flags);
    } else {
      var was, e := IdentityUpTo(vm, first, n - 1, flags), HugeEntry((n - 1) * HUGE_PAGE, flags);
      WrittenEntry(n - 1, flags);
      IdentityStep(vm, first, n - 1, flags);
      EntryAfter(was, vm.pd[(n - 1) / ENTRIES % ENTRIES], (n - 1) % ENTRIES, e, d, i);
      if n - 1 > first {
        AliasedEntry(vm, first, n - 1, flags);
      }
    }
  }

  // ----- what the low 4 GiB then translate to

  /** Every address below 4 GiB translates to itself. */
  ghost predicate LowMapKept(vm: Vm) { forall v: nat :: v < TWO32 ==> Translate(vm, v) == Some(v) }

  lemma LowIndices(j: nat, i: nat, v: nat)
    requires j < 4 && i < ENTRIES && v / HUGE_PAGE == Number(j, i)
    ensures Index(v, 3) == 0 && Index(v, 2) == j && Index(v, 1) == i
  {
    Shifts(v);
    hide Index;
    var n := Number(j, i);
    assert v / 0x20_0000 == n && v / 0x4000_0000 == n / 512 == j && v / 0x80_0000_0000 == 0;
  }

  /** An address in the low 4 GiB goes through its directory entry. */
  lemma LowWalk(vm: Vm, j: nat, i: nat, v: nat)
    requires Distinct(vm) && Leads(vm) && j < 4 && i < ENTRIES && v / HUGE_PAGE == Number(j, i)
             && Huge(Entry(vm, vm.pd[j], i))
    ensures var e := Entry(vm, vm.pd[j], i);
            Translate(vm, v) == if Present(e) then Some(e / HUGE_PAGE * HUGE_PAGE + v % HUGE_PAGE) else None
  {
    LowIndices(j, i, v);
    var e := Entry(vm, vm.pd[j], i);
    hide Index, Huge, Present, Number;
    assert Walk(vm.ram, vm.pd[j], 1, v) == if Present(e) then Some(e / HUGE_PAGE * HUGE_PAGE + v % HUGE_PAGE) else None;
    assert Walk(vm.ram, vm.pdpt, 2, v) == Walk(vm.ram, vm.pd[j], 1, v);
  }

  lemma KeptMapsItself(vm: Vm, j: nat, i: nat)
    requires Distinct(vm) && Leads(vm) && j < 4 && i < ENTRIES && Huge(Entry(vm, vm.pd[j], i)) && LowMapKept(vm)
    ensures MapsItself(vm, j, i)
  {
    var v := Number(j, i) * HUGE_PAGE;
    assert v < TWO32 && v / HUGE_PAGE == Number(j, i) && v % HUGE_PAGE == 0;
    hide Translate, Huge, Present;
    LowWalk(vm, j, i, v);
  }

  lemma LowNumber(v: nat) returns (j: nat, i: nat)
    requires v < TWO32
    ensures j < 4 && i < ENTRIES && v / HUGE_PAGE == Number(j, i)
  {
    var n := v / HUGE_PAGE;
    j, i := n / ENTRIES, n % ENTRIES;
    assert n < 4 * ENTRIES;
  }

  lemma MapsItselfKept(vm: Vm)
    requires Distinct(vm) && Leads(vm) && forall j, i :: 0 <= j < 4 && 0 <= i < ENTRIES ==> MapsItself(vm, j, i)
    ensures LowMapKept(vm)
  {
    assert |vm.pd| == 4;
    hide Translate, Leads, MapsItself, Distinct;
    forall v: nat | v < TWO32 ensures Translate(vm, v) == Some(v) {
      var j, i := LowNumber(v);
      assert MapsItself(vm, j, i);
      KeptAt(vm, j, i, v);
    }
  }

  lemma KeptAt(vm: Vm, j: nat, i: nat, v: nat)
    requires Distinct(vm) && Leads(vm) && j < 4 && i < ENTRIES && v / HUGE_PAGE == Number(j, i) && MapsItself(vm, j, i)
    ensures Translate(vm, v) == Some(v)
  {
    hide Translate, Leads, Huge, Present;
    LowWalk(vm, j, i, v);
  }

  // ----- the exact condition

  /**
   What a caller must see to: nothing is written, or the range starts below 512
   GiB, the flags have PRESENT, and no flag bit from 21 up is clear in any
   address written.
   */
  ghost predicate KeepsLow(first: nat, last: nat, flags: u64)
    requires first <= last < HUGE_PAGES
  {
    || Reach(first, last) == first
    || (&& first < ENTRIES * ENTRIES && flags % 2 == 1
        && forall m :: first <= m < Reach(first, last) ==> FlagsInside(m * HUGE_PAGE, flags, 21))
  }

  lemma EntriesKept(s: Space, first: nat, last: nat, flags: u64, j: nat, i: nat)
    requires Inv(s) && first <= last < HUGE_PAGES && KeepsLow(first, last, flags) && j < 4 && i < ENTRIES
    ensures Distinct(s.vm) && MapsItself(Remapped(s.vm, first, last, flags), j, i)
  {
    InvDistinct(s);
    ReachBelow(first, last);
    assert MapsItself(s.vm, j, i);
    RemappedTables(s.vm, first, last, flags);
    hide Inv, Reach, Remapped, FlagsInside, HugeEntry;
    RemappedEntry(s.vm, first, last, flags, j, i);
    var n := Number(j, i);
    if first <= n < Reach(first, last) {
      WrittenEntry(n, flags);
    }
  }

  /** Below 512 GiB with bad flags: some entry written is absent or maps other memory. */
  lemma BadFlagsBreak(s: Space, first: nat, last: nat, flags: u64, m: nat)
    requires Inv(s) && first <= last < HUGE_PAGES && first <= m < Reach(first, last) && first < ENTRIES * ENTRIES
    requires !(flags % 2 == 1 && FlagsInside(m * HUGE_PAGE, flags, 21))
    ensures Distinct(s.vm) && !LowMapKept(Remapped(s.vm, first, last, flags))
  {
    InvDistinct(s);
    ReachBelow(first, last);
    RemappedTables(s.vm, first, last, flags);
    hide Inv, Reach, Remapped, FlagsInside, HugeEntry, LowMapKept, Leads;
    assert m < 4 * ENTRIES;
    var j, i := m / ENTRIES, m % ENTRIES;
    assert Number(j, i) == m;
    RemappedEntry(s.vm, first, last, flags, j, i);
    WrittenEntry(m, flags);
    if LowMapKept(Remapped(s.vm, first, last, flags)) {
      KeptMapsItself(Remapped(s.vm, first, last, flags), j, i);
      assert false;
    }
  }

  lemma AliasBreaks(s: Space, first: nat, last: nat, flags: u64)
    requires Inv(s) && first <= last < HUGE_PAGES && ENTRIES * ENTRIES <= first < Reach(first, last)
    ensures Distinct(s.vm) && !LowMapKept(Remapped(s.vm, first, last, flags))
  {
    InvDistinct(s);
    var vm, j, i := Remapped(s.vm, first, last, flags), first / ENTRIES % ENTRIES, first % ENTRIES;
    assert !Blocked(first) && j < 4;
    RemappedTables(s.vm, first, last, flags);
    assert Distinct(LinkBoot(s.vm, 4)) by { LinkEntries(s.vm, 4); }
    AliasedEntry(LinkBoot(s.vm, 4), first, Reach(first, last), flags);
    hide Inv, Reach, IdentityUpTo, LinkBoot, LowMapKept, Leads, Blocked, Huge;
    if LowMapKept(vm) {
      KeptMapsItself(vm, j, i);
      assert false;
    }
  }

  /**
   In every state the kernel reaches after boot, a further call with any range
   and flags keeps the low 4 GiB identity-mapped exactly under that condition.
   */
  lemma LowMapKeptIff(s: Space, first: nat, last: nat, flags: u64)
    requires Inv(s) && first <= last < HUGE_PAGES
    ensures Distinct(s.vm) && (LowMapKept(Remapped(s.vm, first, last, flags)) <==> KeepsLow(first, last, flags))
  {
    InvDistinct(s);
    RemappedTables(s.vm, first, last, flags);
    hide Inv, Reach, Remapped, FlagsInside, LowMapKept, Leads, MapsItself, Distinct;
    if KeepsLow(first, last, flags) {
      forall j, i | 0 <= j < 4 && 0 <= i < ENTRIES ensures MapsItself(Remapped(s.vm, first, last, flags), j, i) {
        EntriesKept(s, first, last, flags, j, i);
      }
      MapsItselfKept(Remapped(s.vm, first, last, flags));
    } else if first < ENTRIES * ENTRIES {
      var m :| first <= m < Reach(first, last) && !(flags % 2 == 1 && FlagsInside(m * HUGE_PAGE, flags, 21));
      BadFlagsBreak(s, first, last, flags, m);
    } else {
      AliasBreaks(s, first, last, flags);
    }
  }

  /** From boot, after any run of mappings, page allocations and writes by other kernel code. */
  lemma LowMapAfterRun(k: Kernel, ops: seq<Op>, first: nat, last: nat, flags: u64)
    requires Booted(k) && Allowed(k, ops) && first <= last < HUGE_PAGES
    ensures var vm := Execute(k, ops).vm;
            Distinct(vm) && (LowMapKept(Remapped(vm, first, last, flags)) <==> KeepsLow(first, last, flags))
  {
    BootRefines(k);
    var role := RefinementRun(k, BootRole(k.vm), map[], ops);
    LowMapKeptIff(Space(Execute(k, ops).vm, role), first, last, flags);
  }

  // ----- a call that keeps the low map changes no translation at all

  lemma RemappedTree(s: Space, first: nat, last: nat, flags: u64, p: nat, i: nat)
    requires Inv(s) && first <= last < HUGE_PAGES && KeepsLow(first, last, flags)
    requires p in s.role && |s.role[p]| <= 2 && i < ENTRIES
    ensures Distinct(s.vm) && LinkOk(Remapped(s.vm, first, last, flags).ram, s.role, p, i)
  {
    InvDistinct(s);
    RemappedTables(s.vm, first, last, flags);
    assert LinkOk(s.vm.ram, s.role, p, i);
    if p in s.vm.pd {
      var j :| 0 <= j < 4 && s.vm.pd[j] == p;
      EntriesKept(s, first, last, flags, j, i);
    } else if p != s.vm.root && p != s.vm.pdpt {
      RemappedElsewhere(s.vm, first, last, flags, p);
    }
  }

  lemma RemapKeepsInv(s: Space, first: nat, last: nat, flags: u64)
    requires Inv(s) && first <= last < HUGE_PAGES && KeepsLow(first, last, flags)
    ensures Distinct(s.vm) && Inv(Space(Remapped(s.vm, first, last, flags), s.role))
  {
    InvDistinct(s);
    RemappedTables(s.vm, first, last, flags);
    var vm := Remapped(s.vm, first, last, flags);
    hide Remapped, KeepsLow, MapsItself, LinkOk, Huge;
    forall p, i | p in s.role && |s.role[p]| <= 2 && 0 <= i < ENTRIES ensures LinkOk(vm.ram, s.role, p, i) {
      RemappedTree(s, first, last, flags, p, i);
    }
    forall j, i | 0 <= j < 4 && 0 <= i < ENTRIES ensures MapsItself(vm, j, i) {
      EntriesKept(s, first, last, flags, j, i);
    }
    forall p, i | p in s.role && |s.role[p]| == 2 && p !in vm.pd && 0 <= i < ENTRIES ensures !Huge(Entry(vm, p, i)) {
      assert p != vm.root && p != vm.pdpt && !Huge(Entry(s.vm, p, i));
      RemappedElsewhere(s.vm, first, last, flags, p);
    }
  }

  /** From a table outside the boot map the walk reads no boot table. */
  lemma {:induction false} OtherWalk(s: Space, vm': Vm, q: nat, v: nat)
    requires Inv(s) && |vm'.ram| == |s.vm.ram| && q in s.role && s.role[q] == Path(v, |s.role[q]|)
    requires |s.role[q]| >= 1 && (Index(v, 3) == 0 ==> |s.role[q]| >= 2 && Index(v, 2) >= 4)
    requires forall p :: p in s.role && p != s.vm.root && p != s.vm.pdpt && p !in s.vm.pd ==> vm'.ram[p] == s.vm.ram[p]
    ensures Walk(vm'.ram, q, 3 - |s.role[q]|, v) == Walk(s.vm.ram, q, 3 - |s.role[q]|, v)
    decreases 3 - |s.role[q]|
  {
    NotBootTable(s, q, v);
    var level := 3 - |s.role[q]|;
    if level == 0 {
    } else {
      assert LinkOk(s.vm.ram, s.role, q, Index(v, level));
      var e := s.vm.ram[q][Index(v, level)];
      if Present(e) && !(level == 1 && Huge(e)) {
        assert Path(v, |s.role[q]| + 1) == s.role[q] + [Index(v, level)];
        OtherWalk(s, vm', e / PAGE, v);
      }
    }
  }

  lemma NotBootTable(s: Space, q: nat, v: nat)
    requires Inv(s) && q in s.role && s.role[q] == Path(v, |s.role[q]|)
    requires |s.role[q]| >= 1 && (Index(v, 3) == 0 ==> |s.role[q]| >= 2 && Index(v, 2) >= 4)
    ensures q != s.vm.root && q != s.vm.pdpt && q !in s.vm.pd
  {
    assert s.role[q][0] == Index(v, 3) && (|s.role[q]| >= 2 ==> s.role[q][1] == Index(v, 2));
    forall j | 0 <= j < 4 ensures s.vm.pd[j] != q {
      assert s.role[s.vm.pd[j]] == [0, j];
    }
  }

  lemma HighTranslation(s: Space, first: nat, last: nat, flags: u64, v: nat)
    requires Inv(s) && first <= last < HUGE_PAGES && PageIndex(v) >= BOOT_PAGES
    ensures Distinct(s.vm) && Translate(Remapped(s.vm, first, last, flags), v) == Translate(s.vm, v)
  {
    InvDistinct(s);
    LowAddresses(v);
    RemappedTables(s.vm, first, last, flags);
    var vm, vm' := s.vm, Remapped(s.vm, first, last, flags);
    forall p | p in s.role && p != vm.root && p != vm.pdpt && p !in vm.pd ensures vm'.ram[p] == vm.ram[p] {
      RemappedElsewhere(vm, first, last, flags, p);
    }
    assert Path(v, 1) == [Index(v, 3)] && Path(v, 2) == [Index(v, 3), Index(v, 2)];
    hide Remapped, Distinct, KeepsLow;
    if Index(v, 3) != 0 {
      BelowEntry(s, vm', vm.root, v);
    } else {
      BelowEntry(s, vm', vm.pdpt, v);
      assert Walk(vm.ram, vm.root, 3, v) == Walk(vm.ram, vm.pdpt, 2, v);
      assert Walk(vm'.ram, vm.root, 3, v) == Walk(vm'.ram, vm.pdpt, 2, v);
    }
  }

  /** Through an entry that is the same, to a table outside the boot map. */
  lemma BelowEntry(s: Space, vm': Vm, q: nat, v: nat)
    requires Inv(s) && |vm'.ram| == |s.vm.ram| && q in s.role && |s.role[q]| <= 1 && s.role[q] == Path(v, |s.role[q]|)
    requires Index(v, 3) == 0 ==> |s.role[q]| == 1 && Index(v, 2) >= 4
    requires forall p :: p in s.role && p != s.vm.root && p != s.vm.pdpt && p !in s.vm.pd ==> vm'.ram[p] == s.vm.ram[p]
    requires q < |s.vm.ram| && vm'.ram[q][Index(v, 3 - |s.role[q]|)] == s.vm.ram[q][Index(v, 3 - |s.role[q]|)]
    ensures Walk(vm'.ram, q, 3 - |s.role[q]|, v) == Walk(s.vm.ram, q, 3 - |s.role[q]|, v)
  {
    var i := Index(v, 3 - |s.role[q]|);
    assert LinkOk(s.vm.ram, s.role, q, i);
    assert Path(v, |s.role[q]| + 1) == s.role[q] + [i];
    var e := s.vm.ram[q][i];
    if Present(e) {
      OtherWalk(s, vm', e / PAGE, v);
    }
  }

  /** Under the condition the invariant holds again and every address translates as before. */
  lemma RemapIsIdle(s: Space, first: nat, last: nat, flags: u64, v: nat)
    requires Inv(s) && first <= last < HUGE_PAGES && KeepsLow(first, last, flags)
    ensures Distinct(s.vm) && Inv(Space(Remapped(s.vm, first, last, flags), s.role))
    ensures Translate(Remapped(s.vm, first, last, flags), v) == Translate(s.vm, v)
  {
    RemapKeepsInv(s, first, last, flags);
    hide Inv, Remapped, KeepsLow, Translate;
    if PageIndex(v) < BOOT_PAGES {
      LowIdentity(s, v);
      LowIdentity(Space(Remapped(s.vm, first, last, flags), s.role), v);
    } else {
      HighTranslation(s, first, last, flags, v);
    }
  }

  // ----- two calls that break the low map

  /** One page at 512 GiB: the call succeeds whatever its flags, and the low map is broken. */
  lemma AliasAt512GiB(s: Space, first: nat, flags: u64)
    requires Inv(s) && first * HUGE_PAGE == 0x80_0000_0000
    ensures Reach(first, first + 1) == first + 1 && Distinct(s.vm)
            && !LowMapKept(Remapped(s.vm, first, first + 1, flags))
  {
    assert first == ENTRIES * ENTRIES && !Blocked(first);
    OneReach(first, first + 1);
    OneReach(first + 1, first + 1);
    LowMapKeptIff(s, first, first + 1, flags);
  }

  /** One page at address 0 without the PRESENT flag: the call succeeds and address 0 has no translation. */
  lemma NotPresentAtZero(s: Space, flags: u64, zero: nat)
    requires Inv(s) && flags % 2 == 0 && zero == 0
    ensures Reach(zero, zero + 1) == zero + 1 && Distinct(s.vm) && !LowMapKept(Remapped(s.vm, zero, zero + 1, flags))
  {
    LowPage(zero);
    OneReach(zero, zero + 1);
    OneReach(zero + 1, zero + 1);
    LowMapKeptIff(s, zero, zero + 1, flags);
  }
}
