/** The static tables and bump pointer of `vm.c`, updated in place, proved against `PageTables` and `AddressSpace`. */
module VirtualMemory {
  import opened Words
  import opened PageTables
  import opened AddressSpace

  /** The shifts of the source: `(virt >> 39) & 0x1ff` and so on. */
  lemma Shifts(virt: nat)
    ensures Index(virt, 3) == virt / 0x80_0000_0000 % 512
    ensures Index(virt, 2) == virt / 0x4000_0000 % 512
    ensures Index(virt, 1) == virt / 0x20_0000 % 512
    ensures Index(virt, 0) == virt / 0x1000 % 512
  {
    assert Vpn(virt, 0) == virt / 0x1000;
    var n1 := Vpn(virt, 1);
    assert n1 == virt / 0x1000 / 512 == virt / 0x20_0000;
    var n2 := Vpn(virt, 2);
    assert n2 == n1 / 512 == virt / 0x4000_0000;
    var n3 := Vpn(virt, 3);
    assert n3 == n2 / 512 == virt / 0x80_0000_0000;
  }

  /** The links `vm_map_identity_2m` sets: root entry 0, and the first `n` directory pointers. */
  function LinkBoot(vm: Vm, n: nat): (r: Vm)
    requires n <= |vm.pd| == 4 && |vm.ram| * PAGE <= TWO64
    requires vm.pdpt < |vm.ram| && forall j :: 0 <= j < 4 ==> vm.pd[j] < |vm.ram|
    ensures r.bump == vm.bump && r.root == vm.root && r.pdpt == vm.pdpt && r.pd == vm.pd && |r.ram| == |vm.ram|
    decreases vm.root, n
  {
    if n == 0 then SetEntry(vm, vm.root, 0, TableEntry(vm.pdpt))
    else SetEntry(LinkBoot(vm, n - 1), vm.pdpt, n - 1, TableEntry(vm.pd[n - 1]))
  }

  /** Bits 30 to 38 of the address of 2 MiB page `n` name none of the four boot directories. */
  predicate Blocked(n: nat) { n / ENTRIES % ENTRIES >= 4 }

  /** Where the loop of `vm_map_identity_2m` stops: at the first page it cannot map, or at the end. */
  function Reach(first: nat, last: nat): (r: nat)
    requires first <= last
    ensures first <= r <= last && (forall m :: first <= m < r ==> !Blocked(m)) && (r < last ==> Blocked(r))
    decreases last - first
  {
    if first == last || Blocked(first) then first else Reach(first + 1, last)
  }

  /** 2 MiB pages in 64 bits of addresses. */
  const HUGE_PAGES: int := TWO64 / HUGE_PAGE

  /** The loop's writes for the 2 MiB pages `first` up to `n`: one directory entry each. */
  function IdentityUpTo(vm: Vm, first: nat, n: nat, flags: u64): (r: Vm)
    requires |vm.pd| == 4 && n <= HUGE_PAGES
    ensures r.bump == vm.bump && r.root == vm.root && r.pdpt == vm.pdpt && r.pd == vm.pd && |r.ram| == |vm.ram|
    decreases vm.root, n
  {
    if n <= first then vm
    else if Blocked(n - 1) then IdentityUpTo(vm, first, n - 1, flags)
    else SetEntry(IdentityUpTo(vm, first, n - 1, flags), vm.pd[(n - 1) / ENTRIES % ENTRIES], (n - 1) % ENTRIES,
                  HugeEntry((n - 1) * HUGE_PAGE, flags))
  }

  lemma IdentityStep(vm: Vm, first: nat, n: nat, flags: u64)
    requires |vm.pd| == 4 && first <= n < HUGE_PAGES && !Blocked(n)
    ensures IdentityUpTo(vm, first, n + 1, flags) ==
            SetEntry(IdentityUpTo(vm, first, n, flags), vm.pd[n / ENTRIES % ENTRIES], n % ENTRIES,
                     HugeEntry(n * HUGE_PAGE, flags))
  {
  }

  lemma IdentityNone(vm: Vm, n: nat, flags: u64)
    requires |vm.pd| == 4 && n <= HUGE_PAGES
    ensures IdentityUpTo(vm, n, n, flags) == vm
  {
  }

  /** `start + bytes` in 64 bits. */
  lemma RangeEnd(start: u64, bytes: u64, end: u64)
    requires start % HUGE_PAGE == 0 && bytes % HUGE_PAGE == 0 && end == (start + bytes) % TWO64
    ensures start == start / HUGE_PAGE * HUGE_PAGE && end == end / HUGE_PAGE * HUGE_PAGE
    ensures if start + bytes < TWO64 then end == start + bytes && start / HUGE_PAGE <= end / HUGE_PAGE
            else end / HUGE_PAGE < start / HUGE_PAGE
  {
    assert TWO64 == HUGE_PAGES * HUGE_PAGE;
    var a, b := start / HUGE_PAGE, bytes / HUGE_PAGE;
    assert start + bytes == (a + b) * HUGE_PAGE;
    if start + bytes >= TWO64 {
      assert end == (a + b - HUGE_PAGES) * HUGE_PAGE;
    }
  }

  lemma HugeIndex(addr: nat, n: nat)
    requires addr == n * HUGE_PAGE
    ensures addr / 0x4000_0000 % 512 == n / ENTRIES % ENTRIES && addr / 0x20_0000 % 512 == n % ENTRIES
    ensures Blocked(n) <==> addr / 0x4000_0000 % 512 >= 4
  {
    assert addr / 0x20_0000 == n;
    assert addr / 0x4000_0000 == n / 512;
  }

  lemma LowPage(n: nat)
    requires n < 4 * ENTRIES
    ensures !Blocked(n) && n / ENTRIES % ENTRIES == n / ENTRIES < 4
  {
  }

  /** Below 512 GiB the loop stops at 4 GiB. */
  lemma ReachBelow(first: nat, last: nat)
    requires first <= last
    ensures last <= 4 * ENTRIES ==> Reach(first, last) == last
    ensures first <= 4 * ENTRIES < last ==> Reach(first, last) == 4 * ENTRIES
    ensures 4 * ENTRIES < first < ENTRIES * ENTRIES ==> Reach(first, last) == first
  {
    hide Blocked;
    var r := Reach(first, last);
    if r < 4 * ENTRIES {
      LowPage(r);
    }
    MiddlePages(4 * ENTRIES);
    MiddlePages(first);
  }

  lemma MiddlePages(n: nat)
    ensures 4 * ENTRIES <= n < ENTRIES * ENTRIES ==> Blocked(n)
  {
  }

  ghost predicate Distinct(vm: Vm)
  {
    && |vm.pd| == 4 && |vm.ram| * PAGE <= TWO64
    && vm.root < |vm.ram| && vm.pdpt < |vm.ram| && vm.root != vm.pdpt
    && (forall j :: 0 <= j < 4 ==> vm.pd[j] < |vm.ram| && vm.pd[j] != vm.root && vm.pd[j] != vm.pdpt)
    && (forall i, j :: 0 <= i < j < 4 ==> vm.pd[i] != vm.pd[j])
  }

  /** Which directory entries the identity map sets. */
  lemma {:induction false} IdentityEntry(vm: Vm, first: nat, n: nat, flags: u64, j: nat, k: nat)
    requires Distinct(vm) && n <= 4 * ENTRIES && j < 4 && k < ENTRIES
    ensures Entry(IdentityUpTo(vm, first, n, flags), vm.pd[j], k) ==
            if first <= Number(j, k) < n then HugeEntry(Number(j, k) * HUGE_PAGE, flags) else Entry(vm, vm.pd[j], k)
    decreases n
  {
    hide HugeEntry, SetEntry, Entry;
    if n <= first {
    } else {
      IdentityEntry(vm, first, n - 1, flags, j, k);
      LowPage(n - 1);
      var i, m := (n - 1) / ENTRIES, (n - 1) % ENTRIES;
      assert Number(i, m) == n - 1;
      assert vm.pd[i] == vm.pd[j] ==> i == j;
      EntryAfter(IdentityUpTo(vm, first, n - 1, flags), vm.pd[i], m, HugeEntry((n - 1) * HUGE_PAGE, flags),
                 vm.pd[j], k);
    }
  }

  lemma EntryAfter(vm: Vm, table: nat, i: nat, e: u64, p: nat, k: nat)
    requires table < |vm.ram| && i < ENTRIES && p < |vm.ram| && k < ENTRIES
    ensures Entry(SetEntry(vm, table, i, e), p, k) == if p == table && k == i then e else Entry(vm, p, k)
  {
  }

  lemma {:induction false} IdentityElsewhere(vm: Vm, first: nat, n: nat, flags: u64, p: nat)
    requires Distinct(vm) && n <= HUGE_PAGES && p < |vm.ram| && p !in vm.pd
    ensures IdentityUpTo(vm, first, n, flags).ram[p] == vm.ram[p]
    decreases n
  {
    if n <= first {
    } else {
      IdentityElsewhere(vm, first, n - 1, flags, p);
    }
  }

  /** The 2 MiB page that entry `k` of directory `j` maps. */
  function Number(j: nat, k: nat): (m: nat)
    requires j < 4 && k < ENTRIES
    ensures m < 4 * ENTRIES && m / ENTRIES == j && m % ENTRIES == k
  {
    j * ENTRIES + k
  }

  /** Root and directory-pointer table hold the boot links and nothing else. */
  ghost predicate BootLinks(vm: Vm)
    requires Distinct(vm)
  {
    && (forall i :: 0 <= i < ENTRIES ==> vm.ram[vm.root][i] == if i == 0 then TableEntry(vm.pdpt) else 0)
    && (forall i :: 0 <= i < ENTRIES ==> vm.ram[vm.pdpt][i] == if i < 4 then TableEntry(vm.pd[i]) else 0)
  }

  lemma BootedFrom(vm: Vm)
    requires Distinct(vm) && BootLinks(vm) && vm.bump <= |vm.ram|
    requires vm.root < vm.bump && vm.pdpt < vm.bump && forall j :: 0 <= j < 4 ==> vm.pd[j] < vm.bump
    requires forall j, k :: 0 <= j < 4 && 0 <= k < ENTRIES ==> MapsItself(vm, j, k)
    ensures Booted(Kernel(vm, vm.bump, {}))
  {
  }

  lemma LinkedTables(zeroed: Vm, n: nat)
    requires Distinct(zeroed) && n == 4 && zeroed.ram[zeroed.root] == zeroed.ram[zeroed.pdpt] == ZeroPage()
    ensures Distinct(LinkBoot(zeroed, n)) && BootLinks(LinkBoot(zeroed, n))
  {
    LinkEntries(zeroed, n);
    hide LinkBoot;
  }

  lemma IdentityKeepsLinks(linked: Vm, vm: Vm, n: nat)
    requires Distinct(linked) && BootLinks(linked) && n == 4 * ENTRIES && vm == IdentityUpTo(linked, 0, n, 7)
    ensures Distinct(vm) && BootLinks(vm) && forall j, k :: 0 <= j < 4 && 0 <= k < ENTRIES ==> MapsItself(vm, j, k)
  {
    hide IdentityUpTo, MapsItself;
    IdentityElsewhere(linked, 0, n, 7, linked.root);
    IdentityElsewhere(linked, 0, n, 7, linked.pdpt);
    forall j, k | 0 <= j < 4 && 0 <= k < ENTRIES
      ensures MapsItself(vm, j, k)
    {
      IdentityEntry(linked, 0, n, 7, j, k);
      MappedEntry(vm, j, k);
    }
  }

  /** `vm_init` on zeroed static tables leaves the boot map. */
  lemma InitBoots(zeroed: Vm)
    requires Distinct(zeroed) && zeroed.bump <= |zeroed.ram|
    requires zeroed.root < zeroed.bump && zeroed.pdpt < zeroed.bump
             && forall j :: 0 <= j < 4 ==> zeroed.pd[j] < zeroed.bump
    requires zeroed.ram[zeroed.root] == zeroed.ram[zeroed.pdpt] == ZeroPage()
    ensures var vm := IdentityUpTo(LinkBoot(zeroed, 4), 0, 4 * ENTRIES, 7);
            Booted(Kernel(vm, vm.bump, {}))
  {
    hide LinkBoot, IdentityUpTo, MapsItself, BootLinks, Booted;
    LinkedTables(zeroed, 4);
    var linked := LinkBoot(zeroed, 4);
    var vm := IdentityUpTo(linked, 0, 4 * ENTRIES, 7);
    IdentityKeepsLinks(linked, vm, 4 * ENTRIES);
    BootedFrom(vm);
  }

  lemma MappedEntry(vm: Vm, j: nat, k: nat)
    requires |vm.pd| == 4 && j < 4 && k < ENTRIES
    requires Entry(vm, vm.pd[j], k) == HugeEntry(Number(j, k) * HUGE_PAGE, 7)
    ensures MapsItself(vm, j, k)
  {
    assert Number(j, k) * HUGE_PAGE / HUGE_PAGE == Number(j, k);
    assert BitOr(Number(j, k), 0) == Number(j, k);
  }

  lemma {:induction false} LinkEntries(vm: Vm, n: nat)
    requires Distinct(vm) && n <= 4
    ensures var r := LinkBoot(vm, n);
            && (forall i :: 0 <= i < ENTRIES ==>
                  r.ram[vm.root][i] == if i == 0 then TableEntry(vm.pdpt) else vm.ram[vm.root][i])
            && (forall i :: 0 <= i < ENTRIES ==>
                  r.ram[vm.pdpt][i] == if i < n then TableEntry(vm.pd[i]) else vm.ram[vm.pdpt][i])
  {
    if n == 0 {
    } else {
      LinkEntries(vm, n - 1);
    }
  }

  lemma OneReach(n: nat, last: nat)
    requires n <= last
    ensures Reach(n, last) == if n == last || Blocked(n) then n else Reach(n + 1, last)
  {
  }

  class PhysicalMemory {
    const ram: array<Page>
    var bump: nat
    const root: nat
    const pdpt: nat
    const pd: seq<nat>

    function Value(): Vm
      reads this, ram
    {
      Vm(ram[..], bump, root, pdpt, pd)
    }

    /** The statically allocated tables: six different pages below `_kernel_end`. */
    ghost predicate StaticTables(kernelPages: nat)
    {
      && |pd| == 4 && kernelPages <= ram.Length && ram.Length * PAGE <= TWO64
      && root < kernelPages && pdpt < kernelPages && root != pdpt
      && (forall j :: 0 <= j < 4 ==> pd[j] < kernelPages && pd[j] != root && pd[j] != pdpt)
      && (forall i, j :: 0 <= i < j < 4 ==> pd[i] != pd[j])
    }

    /** `(*table)[i] = e`. */
    method Write(table: nat, i: nat, e: u64)
      requires table < ram.Length && i < ENTRIES
      modifies ram
      ensures Value() == SetEntry(old(Value()), table, i, e)
    {
      ram[table] := ram[table][i := e];
      assert ram[..] == SetEntry(old(Value()), table, i, e).ram;
    }

    /** The links from the root down to the four boot directories. */
    method LinkBootTables(ghost kernelPages: nat)
      requires StaticTables(kernelPages)
      modifies ram
      ensures Value() == LinkBoot(old(Value()), 4)
    {
      Write(root, 0, TableEntry(pdpt));
      for i := 0 to 4
        invariant Value() == LinkBoot(old(Value()), i)
      {
        Write(pdpt, i, TableEntry(pd[i]));
      }
    }

    /** The loop of `vm_map_identity_2m`: whole 2 MiB pages up to the first it cannot map. */
    method MapRange(start: u64, end: u64, flags: u64, ghost first: nat, ghost last: nat, ghost kernelPages: nat)
      returns (r: int)
      requires StaticTables(kernelPages) && start == first * HUGE_PAGE && end == last * HUGE_PAGE
      modifies ram
      ensures first <= last ==>
                && Value() == IdentityUpTo(old(Value()), first, Reach(first, last), flags)
                && r == if Reach(first, last) == last then 0 else -1
      ensures last < first ==> r == 0 && Value() == old(Value())
    {
      hide SetEntry, HugeEntry, Reach, Blocked, IdentityUpTo;
      if first <= last {
        IdentityNone(Value(), first, flags);
      }
      var addr := start;
      ghost var n := first;
      while addr < end
        invariant addr == n * HUGE_PAGE && first <= n
                  && (first <= last ==> n <= last && Reach(n, last) == Reach(first, last))
        invariant first <= last ==> Value() == IdentityUpTo(old(Value()), first, n, flags)
        invariant last < first ==> Value() == old(Value())
        decreases end - addr
      {
        HugeIndex(addr, n);
        OneReach(n, last);
        var pdptIndex := addr / 0x4000_0000 % 512;
        var pdIndex := addr / 0x20_0000 % 512;
        if pdptIndex >= 4 {
          return -1;
        }
        IdentityStep(old(Value()), first, n, flags);
        Write(pd[pdptIndex], pdIndex, HugeEntry(addr, flags));
        addr, n := addr + HUGE_PAGE, n + 1;
      }
      OneReach(n, n);
      return 0;
    }

    /** `vm_map_identity_2m`. A range whose end wraps past 64 bits maps nothing and still succeeds. */
    method MapIdentity2m(start: u64, bytes: u64, flags: u64, ghost kernelPages: nat) returns (r: int)
      requires StaticTables(kernelPages)
      modifies ram
      ensures start % HUGE_PAGE != 0 || bytes % HUGE_PAGE != 0 ==> r == -1 && ram[..] == old(ram[..])
      ensures start % HUGE_PAGE == 0 && bytes % HUGE_PAGE == 0 && start + bytes < TWO64 ==>
                var first, last := start / HUGE_PAGE, (start + bytes) / HUGE_PAGE;
                && Value() == IdentityUpTo(LinkBoot(old(Value()), 4), first, Reach(first, last), flags)
                && r == if Reach(first, last) == last then 0 else -1
      ensures start % HUGE_PAGE == 0 && bytes % HUGE_PAGE == 0 && start + bytes >= TWO64 ==>
                r == 0 && Value() == LinkBoot(old(Value()), 4)
    {
      hide IdentityUpTo, LinkBoot, Reach;
      if start % HUGE_PAGE != 0 || bytes % HUGE_PAGE != 0 {
        return -1;
      }
      LinkBootTables(kernelPages);
      var end := (start + bytes) % TWO64;
      RangeEnd(start, bytes, end);
      r := MapRange(start, end, flags, start / HUGE_PAGE, end / HUGE_PAGE, kernelPages);
    }

    /** `vm_init`: the page region starts above the kernel and the low 4 GiB are mapped onto themselves. */
    method Init(kernelEnd: nat)
      requires StaticTables(kernelEnd / PAGE) && (kernelEnd + PAGE - 1) / PAGE <= ram.Length
      requires forall p :: 0 <= p < ram.Length && (p == root || p == pdpt || p in pd) ==> ram[p] == ZeroPage()
      modifies this, ram
      ensures Booted(Kernel(Value(), bump, {}))
    {
      bump := (kernelEnd + PAGE - 1) / PAGE;
      ghost var zeroed := Value();
      assert Distinct(zeroed);
      hide IdentityUpTo, LinkBoot, Booted, Reach, Distinct;
      var r := MapIdentity2m(0, 0x1_0000_0000, 7, kernelEnd / PAGE);
      assert 0x1_0000_0000 / HUGE_PAGE == 4 * ENTRIES;
      ReachBelow(0, 4 * ENTRIES);
      InitBoots(zeroed);
    }

    /** `vm_alloc_page`: the next page of the bump region, zeroed. */
    method AllocatePage() returns (page: nat)
      requires bump < ram.Length
      modifies this, ram
      ensures page == old(bump) && Value() == AllocPage(old(Value()))
    {
      page := bump;
      bump := bump + 1;
      for i := 0 to ENTRIES
        invariant forall k :: 0 <= k < i ==> ram[page][k] == 0
        invariant forall p :: 0 <= p < ram.Length && p != page ==> ram[p] == old(ram[p])
        invariant bump == old(bump) + 1
      {
        ram[page] := ram[page][i := 0];
      }
      assert ram[page] == ZeroPage();
      assert ram[..] == AllocPage(old(Value())).ram;
    }

    /** One level of `vm_map_page`: follow the entry, allocating the lower table if it is not present. */
    method LowerTable(table: nat, i: nat) returns (child: nat)
      requires table < ram.Length && ram.Length * PAGE <= TWO64 && i < ENTRIES && CanDescend(Value(), table, i)
      modifies this, ram
      ensures (Value(), child) == Descend(old(Value()), table, i)
    {
      if !Present(ram[table][i]) {
        child := AllocatePage();
        Write(table, i, TableEntry(child));
      } else {
        child := ram[table][i] / PAGE;
      }
    }

    method MapPage(virt: u64, phys: u64, flags: u64, ghost role: map<nat, seq<nat>>) returns (r: int)
      requires Inv(Space(Value(), role)) && CanMap(Value(), virt, phys)
      modifies this, ram
      ensures (Value(), r) == AddressSpace.MapPage(old(Value()), virt, phys, flags)
    {
      if virt % PAGE != 0 || phys % PAGE != 0 {
        return -1;
      }
      Shifts(virt);
      var i3 := virt / 0x80_0000_0000 % 512;
      var i2 := virt / 0x4000_0000 % 512;
      var i1 := virt / 0x20_0000 % 512;
      var i0 := virt / 0x1000 % 512;
      ghost var s0 := Space(Value(), role);

      ghost var s1, c1 := DescendStep(s0, root, i3);
      var dirPointers := LowerTable(root, i3);
      ghost var s2, c2 := DescendStep(s1, c1, i2);
      var directory := LowerTable(dirPointers, i2);
      assert Value() == s2.vm;
      if Huge(ram[directory][i1]) {
        return -1;
      }
      ghost var s3, c3 := DescendStep(s2, c2, i1);
      var table := LowerTable(directory, i1);
      assert Value() == s3.vm;
      Write(table, i0, LeafEntry(phys, flags));
      return 0;
    }

    /** `vm_virt_to_phys`: 0 stands for an address with no translation. */
    method VirtToPhys(virt: u64, ghost role: map<nat, seq<nat>>) returns (phys: nat)
      requires Tree(Value(), role)
      ensures phys == match Translate(Value(), virt) { case Some(p) => p case None => 0 }
    {
      Shifts(virt);
      var i3 := virt / 0x80_0000_0000 % 512;
      var i2 := virt / 0x4000_0000 % 512;
      var i1 := virt / 0x20_0000 % 512;
      var i0 := virt / 0x1000 % 512;
      assert LinkOk(ram[..], role, root, i3);
      var pml4e := ram[root][i3];
      if !Present(pml4e) {
        return 0;
      }
      var dirPointers := pml4e / PAGE;
      assert LinkOk(ram[..], role, dirPointers, i2);
      var pdpte := ram[dirPointers][i2];
      if !Present(pdpte) {
        return 0;
      }
      var directory := pdpte / PAGE;
      assert LinkOk(ram[..], role, directory, i1);
      var pde := ram[directory][i1];
      if !Present(pde) {
        return 0;
      }
      if Huge(pde) {
        return pde / HUGE_PAGE * HUGE_PAGE + virt % HUGE_PAGE;
      }
      var pte := ram[pde / PAGE][i0];
      if !Present(pte) {
        return 0;
      }
      return pte / PAGE * PAGE + virt % PAGE;
    }
  }
}
