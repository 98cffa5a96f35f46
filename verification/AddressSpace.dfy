/** `vm_map_page` and `vm_virt_to_phys` refine a plain map from page indices to frames. */
module AddressSpace {
  import opened Words
  import opened PageTables

  /** Enough pages are left for the tables `vm_map_page` has to allocate on the way to `virt`. */
  predicate HasTables(vm: Vm, virt: u64)
    requires |vm.ram| * PAGE <= TWO64
  {
    && CanDescend(vm, vm.root, Index(virt, 3))
    && var (vm1, pdpt) := Descend(vm, vm.root, Index(virt, 3));
       && CanDescend(vm1, pdpt, Index(virt, 2))
       && var (vm2, pd) := Descend(vm1, pdpt, Index(virt, 2));
          Huge(Entry(vm2, pd, Index(virt, 1))) || CanDescend(vm2, pd, Index(virt, 1))
  }

  /** Memory suffices for the call. */
  predicate CanMap(vm: Vm, virt: u64, phys: u64)
  {
    |vm.ram| * PAGE <= TWO64 && (virt % PAGE == 0 && phys % PAGE == 0 ==> HasTables(vm, virt))
  }

  /** `vm_map_page`: the new state and the return code. */
  function MapPage(vm: Vm, virt: u64, phys: u64, flags: u64): (Vm, int)
    requires CanMap(vm, virt, phys)
  {
    if virt % PAGE != 0 || phys % PAGE != 0 then (vm, -1)
    else
      var (vm1, pdpt) := Descend(vm, vm.root, Index(virt, 3));
      var (vm2, pd) := Descend(vm1, pdpt, Index(virt, 2));
      if Huge(Entry(vm2, pd, Index(virt, 1))) then (vm2, -1)
      else
        var (vm3, pt) := Descend(vm2, pd, Index(virt, 1));
        (SetEntry(vm3, pt, Index(virt, 0), LeafEntry(phys, flags)), 0)
  }

  /** A memory together with the position of each of its tables in the tree. */
  datatype Space = Space(vm: Vm, role: map<nat, seq<nat>>)

  /** Entry `k` of boot directory `j` maps its own 2 MiB. */
  predicate MapsItself(vm: Vm, j: nat, k: nat)
    requires |vm.pd| == 4 && j < 4 && k < ENTRIES
  {
    var e := Entry(vm, vm.pd[j], k);
    Present(e) && Huge(e) && e / HUGE_PAGE == j * ENTRIES + k
  }

  /** The boot map is in place and no other page directory holds a 2 MiB entry. */
  ghost predicate BootMap(vm: Vm, role: map<nat, seq<nat>>)
  {
    && |vm.pd| == 4
    && vm.pdpt in role && role[vm.pdpt] == [0]
    && (forall j :: 0 <= j < 4 ==> vm.pd[j] in role && role[vm.pd[j]] == [0, j])
    && Present(Entry(vm, vm.root, 0)) && Entry(vm, vm.root, 0) / PAGE == vm.pdpt
    && (forall j :: 0 <= j < 4 ==> Present(Entry(vm, vm.pdpt, j)) && Entry(vm, vm.pdpt, j) / PAGE == vm.pd[j])
    && (forall j, k :: 0 <= j < 4 && 0 <= k < ENTRIES ==> MapsItself(vm, j, k))
    && (forall p, k :: p in role && |role[p]| == 2 && p !in vm.pd && 0 <= k < ENTRIES ==> !Huge(Entry(vm, p, k)))
  }

  ghost predicate Inv(s: Space) { Tree(s.vm, s.role) && BootMap(s.vm, s.role) }

  /** Every address below 4 GiB, modulo 2^48, translates to itself. */
  lemma LowIdentity(s: Space, virt: nat)
    requires Inv(s) && PageIndex(virt) < BOOT_PAGES
    ensures Translate(s.vm, virt) == Some(PageIndex(virt) * PAGE + virt % PAGE)
  {
    var vm, i2, i1 := s.vm, Index(virt, 2), Index(virt, 1);
    LowAddresses(virt);
    var e := Entry(vm, vm.pd[i2], i1);
    assert MapsItself(vm, i2, i1);
    assert Walk(vm.ram, vm.pd[i2], 1, virt) == Some(e / HUGE_PAGE * HUGE_PAGE + virt % HUGE_PAGE);
    assert Walk(vm.ram, vm.pdpt, 2, virt) == Walk(vm.ram, vm.pd[i2], 1, virt);
    OffsetInHugePage(virt);
  }

  lemma OffsetInHugePage(virt: nat)
    requires Index(virt, 3) == 0
    ensures (Index(virt, 2) * ENTRIES + Index(virt, 1)) * HUGE_PAGE + virt % HUGE_PAGE ==
            PageIndex(virt) * PAGE + virt % PAGE
  {
    Digits(virt);
    HugeOffset(virt);
  }

  lemma HugeOffset(virt: nat)
    ensures virt % HUGE_PAGE == Index(virt, 0) * PAGE + virt % PAGE
  {
    var n := virt / PAGE;
    assert virt == n * PAGE + virt % PAGE && n == n / 512 * 512 + Index(virt, 0);
    assert virt == n / 512 * HUGE_PAGE + (Index(virt, 0) * PAGE + virt % PAGE);
  }

  /** Same boot tables, and memory only handed out further. */
  predicate Extends(before: Vm, after: Vm)
  {
    && after.root == before.root && after.pdpt == before.pdpt && after.pd == before.pd
    && before.bump <= after.bump && |after.ram| == |before.ram|
  }

  // ----- one table level

  /** Descending one level keeps the invariant and every translation. */
  lemma DescendStep(s: Space, table: nat, i: nat) returns (t: Space, child: nat)
    requires Inv(s) && i < ENTRIES && CanDescend(s.vm, table, i)
    requires table in s.role && |s.role[table]| <= 2
    requires !(|s.role[table]| == 2 && Huge(Entry(s.vm, table, i)))
    ensures (t.vm, child) == Descend(s.vm, table, i) && Extends(s.vm, t.vm)
    ensures Inv(t) && forall p :: p in s.role ==> p in t.role && t.role[p] == s.role[p]
    ensures child in t.role && t.role[child] == s.role[table] + [i]
    ensures Present(Entry(t.vm, table, i)) && Entry(t.vm, table, i) / PAGE == child
    ensures |s.role[table]| == 2 ==> !Huge(Entry(t.vm, table, i))
    ensures forall v: nat :: Translate(t.vm, v) == Translate(s.vm, v)
    ensures forall p :: p in t.role && p !in s.role ==> s.vm.bump <= p < t.vm.bump
    ensures forall p, k :: p in s.role && 0 <= k < ENTRIES && Present(Entry(s.vm, p, k)) ==>
                             Entry(t.vm, p, k) == Entry(s.vm, p, k)
  {
    child := Descend(s.vm, table, i).1;
    t := Space(Descend(s.vm, table, i).0, DescendRole(s.vm, s.role, table, i));
    DescendKeepsTree(s.vm, s.role, table, i);
    forall v: nat ensures Translate(t.vm, v) == Translate(s.vm, v) {
      DescendKeepsWalk(s.vm, s.role, table, i, s.vm.root, v);
    }
    DescendKeepsBootMap(s, table, i);
  }

  lemma DescendKeepsBootMap(s: Space, table: nat, i: nat)
    requires Inv(s) && i < ENTRIES && CanDescend(s.vm, table, i)
    requires table in s.role && |s.role[table]| <= 2
    ensures BootMap(Descend(s.vm, table, i).0, DescendRole(s.vm, s.role, table, i))
  {
    var vm, vm' := s.vm, Descend(s.vm, table, i).0;
    var role' := DescendRole(vm, s.role, table, i);
    assert forall p, k :: p in s.role && 0 <= k < ENTRIES && Present(Entry(vm, p, k)) ==>
                            Entry(vm', p, k) == Entry(vm, p, k);
    forall j, k | 0 <= j < 4 && 0 <= k < ENTRIES
      ensures MapsItself(vm', j, k)
    {
      assert MapsItself(vm, j, k);
    }
    forall p, k | p in role' && |role'[p]| == 2 && p !in vm'.pd && 0 <= k < ENTRIES
      ensures !Huge(Entry(vm', p, k))
    {
      if p in s.role {
        assert !Huge(Entry(vm, p, k));
      }
    }
  }

  /** The last-level write: the one page changes, every other translation stays. */
  lemma LeafStep(s: Space, virt: nat, pt: nat, e: u64) returns (t: Space)
    requires Inv(s) && pt in s.role && s.role[pt] == Path(virt, 3)
    ensures t == Space(SetEntry(s.vm, pt, Index(virt, 0), e), s.role) && Inv(t) && Extends(s.vm, t.vm)
    ensures forall v: nat :: PageIndex(v) != PageIndex(virt) ==> Translate(t.vm, v) == Translate(s.vm, v)
  {
    var i := Index(virt, 0);
    t := Space(SetEntry(s.vm, pt, i, e), s.role);
    LeafKeepsTree(s.vm, s.role, pt, i, e);
    assert Path(virt, 4) == s.role[pt] + [i];
    forall v: nat | PageIndex(v) != PageIndex(virt)
      ensures Translate(t.vm, v) == Translate(s.vm, v)
    {
      SamePath(v, virt);
      LeafFrame(s.vm, s.role, pt, i, e, s.vm.root, v);
    }
    assert forall p, k :: p in s.role && |s.role[p]| <= 2 && 0 <= k < ENTRIES ==>
             Entry(t.vm, p, k) == Entry(s.vm, p, k);
    assert forall j, k :: 0 <= j < 4 && 0 <= k < ENTRIES && MapsItself(s.vm, j, k) ==> MapsItself(t.vm, j, k);
  }

  /** The four entries a translation of `v` goes through. */
  ghost predicate Along(vm: Vm, pdpt: nat, pd: nat, pt: nat, v: nat)
  {
    && vm.root < |vm.ram| && pdpt < |vm.ram| && pd < |vm.ram| && pt < |vm.ram|
    && Present(Entry(vm, vm.root, Index(v, 3))) && Entry(vm, vm.root, Index(v, 3)) / PAGE == pdpt
    && Present(Entry(vm, pdpt, Index(v, 2))) && Entry(vm, pdpt, Index(v, 2)) / PAGE == pd
    && Present(Entry(vm, pd, Index(v, 1))) && Entry(vm, pd, Index(v, 1)) / PAGE == pt
    && !Huge(Entry(vm, pd, Index(v, 1)))
  }

  lemma WalkAlong(vm: Vm, pdpt: nat, pd: nat, pt: nat, virt: nat, e: u64)
    requires Along(vm, pdpt, pd, pt, virt) && Entry(vm, pt, Index(virt, 0)) == e && Present(e)
    ensures forall v: nat :: PageIndex(v) == PageIndex(virt) ==> Translate(vm, v) == Some(e / PAGE * PAGE + v % PAGE)
  {
    forall v: nat | PageIndex(v) == PageIndex(virt)
      ensures Translate(vm, v) == Some(e / PAGE * PAGE + v % PAGE)
    {
      SameDigits(v, virt);
      assert Walk(vm.ram, pt, 0, v) == Some(e / PAGE * PAGE + v % PAGE);
      assert Walk(vm.ram, pd, 1, v) == Walk(vm.ram, pt, 0, v);
      assert Walk(vm.ram, pdpt, 2, v) == Walk(vm.ram, pd, 1, v);
    }
  }

  predicate Mappable(virt: u64, phys: u64)
  {
    virt % PAGE == 0 && phys % PAGE == 0 && PageIndex(virt) >= BOOT_PAGES
  }

  /** A call that fails allocates nothing and changes no table. */
  lemma FailedMap(s: Space, virt: u64, phys: u64, flags: u64)
    requires Inv(s) && !Mappable(virt, phys)
    ensures CanMap(s.vm, virt, phys) && MapPage(s.vm, virt, phys, flags) == (s.vm, -1)
  {
    if virt % PAGE == 0 && phys % PAGE == 0 {
      LowAddresses(virt);
      assert MapsItself(s.vm, Index(virt, 2), Index(virt, 1));
    }
  }

  /** A directory above the boot map holds no 2 MiB entry. */
  lemma NoHugeEntry(s: Space, virt: nat, pd: nat, i: nat)
    requires Inv(s) && PageIndex(virt) >= BOOT_PAGES && pd in s.role && s.role[pd] == [Index(virt, 3), Index(virt, 2)]
             && i < ENTRIES
    ensures !Huge(Entry(s.vm, pd, i))
  {
    LowAddresses(virt);
    assert pd !in s.vm.pd;
  }

  lemma TablesInRam(s: Space)
    requires Inv(s)
    ensures s.vm.root in s.role && s.role[s.vm.root] == [] && forall p :: p in s.role ==> p < |s.vm.ram|
  {
  }

  /** The three descents of `vm_map_page`: they change no translation and reach the page's own table. */
  lemma ThreeLevels(s: Space, virt: u64) returns (t: Space, pdpt: nat, pd: nat, pt: nat)
    requires Inv(s) && HasTables(s.vm, virt) && PageIndex(virt) >= BOOT_PAGES
    ensures var (vm1, pdpt1) := Descend(s.vm, s.vm.root, Index(virt, 3));
            var (vm2, pd1) := Descend(vm1, pdpt1, Index(virt, 2));
            && pdpt == pdpt1 && pd == pd1
            && !Huge(Entry(vm2, pd, Index(virt, 1)))
            && (t.vm, pt) == Descend(vm2, pd, Index(virt, 1))
    ensures Inv(t) && Extends(s.vm, t.vm) && pt in t.role && t.role[pt] == Path(virt, 3)
    ensures pdpt in t.role && |t.role[pdpt]| == 1 && pd in t.role && |t.role[pd]| == 2
    ensures Along(t.vm, pdpt, pd, pt, virt)
    ensures forall v: nat :: Translate(t.vm, v) == Translate(s.vm, v)
    ensures forall p :: p in t.role && p !in s.role ==> s.vm.bump <= p < t.vm.bump
  {
    hide Inv, Translate, Huge, Present, Entry, Index;
    var s2;
    s2, pdpt, pd := TwoLevels(s, virt);
    NoHugeEntry(s2, virt, pd, Index(virt, 1));
    t, pt := DescendStep(s2, pd, Index(virt, 1));
    TablesInRam(t);
    assert t.role[pt] == Path(virt, 3);
  }

  /** The first two of them. */
  lemma TwoLevels(s: Space, virt: u64) returns (t: Space, pdpt: nat, pd: nat)
    requires Inv(s) && HasTables(s.vm, virt)
    ensures var (vm1, pdpt1) := Descend(s.vm, s.vm.root, Index(virt, 3));
            pdpt == pdpt1 && (t.vm, pd) == Descend(vm1, pdpt, Index(virt, 2))
    ensures Inv(t) && Extends(s.vm, t.vm) && t.vm.root in t.role && t.role[t.vm.root] == []
    ensures pdpt in t.role && |t.role[pdpt]| == 1 && pd in t.role && t.role[pd] == [Index(virt, 3), Index(virt, 2)]
    ensures Present(Entry(t.vm, t.vm.root, Index(virt, 3))) && Entry(t.vm, t.vm.root, Index(virt, 3)) / PAGE == pdpt
    ensures Present(Entry(t.vm, pdpt, Index(virt, 2))) && Entry(t.vm, pdpt, Index(virt, 2)) / PAGE == pd
    ensures forall v: nat :: Translate(t.vm, v) == Translate(s.vm, v)
    ensures forall p :: p in t.role && p !in s.role ==> s.vm.bump <= p < t.vm.bump
  {
    TablesInRam(s);
    hide Inv, Translate, Huge, Present, Entry, Index;
    var s1;
    s1, pdpt := DescendStep(s, s.vm.root, Index(virt, 3));
    t, pd := DescendStep(s1, pdpt, Index(virt, 2));
    TablesInRam(t);
  }

  /** A call that succeeds maps its page and leaves the translation of every other page alone. */
  lemma SuccessfulMap(s: Space, virt: u64, phys: u64, flags: u64) returns (t: Space)
    requires Inv(s) && CanMap(s.vm, virt, phys) && Mappable(virt, phys)
    ensures MapPage(s.vm, virt, phys, flags) == (t.vm, 0) && Inv(t) && Extends(s.vm, t.vm)
    ensures forall p :: p in t.role && p !in s.role ==> s.vm.bump <= p < t.vm.bump
    ensures forall v: nat :: Translate(t.vm, v) ==
                             if PageIndex(v) == PageIndex(virt)
                             then Some(BitOr(phys / PAGE, flags / PAGE) * PAGE + v % PAGE)
                             else Translate(s.vm, v)
  {
    var s3, pdpt, pd, pt := ThreeLevels(s, virt);
    var e := LeafEntry(phys, flags);
    t := LeafStep(s3, virt, pt, e);
    assert Along(t.vm, pdpt, pd, pt, virt) && Entry(t.vm, pt, Index(virt, 0)) == e;
    WalkAlong(t.vm, pdpt, pd, pt, virt, e);
  }

  // ----- runs

  /** The kernel's memory after boot, and the pages `vm_alloc_page` gave to other callers. */
  datatype Kernel = Kernel(vm: Vm, base: nat, taken: set<nat>)
  {
    predicate IsBootTable(p: nat) { p == vm.root || p == vm.pdpt || p in vm.pd }
  }

  datatype Op =
    | Map(virt: u64, phys: u64, flags: u64)
    | Take
    | Store(page: nat, i: nat, value: u64)

  /**
   Pages do not run out; other kernel code writes only to pages it took, or below the page
   region but not to the boot tables.
   */
  predicate Enabled(k: Kernel, op: Op)
  {
    && (op.Map? ==> CanMap(k.vm, op.virt, op.phys))
    && (op.Take? ==> k.vm.bump < |k.vm.ram|)
    && (op.Store? ==> op.i < ENTRIES && (op.page in k.taken || (op.page < k.base && !k.IsBootTable(op.page))))
  }

  function Next(k: Kernel, op: Op): Kernel
    requires Enabled(k, op)
  {
    match op
    case Map(virt, phys, flags) => k.(vm := MapPage(k.vm, virt, phys, flags).0)
    case Take => k.(vm := AllocPage(k.vm), taken := k.taken + {k.vm.bump})
    case Store(page, i, value) => k.(vm := SetEntry(k.vm, page, i, value))
  }

  ghost predicate Allowed(k: Kernel, ops: seq<Op>)
    decreases |ops|
  {
    ops == [] || (Enabled(k, ops[0]) && Allowed(Next(k, ops[0]), ops[1..]))
  }

  ghost function Execute(k: Kernel, ops: seq<Op>): Kernel
    requires Allowed(k, ops)
    decreases |ops|
  {
    if ops == [] then k else Execute(Next(k, ops[0]), ops[1..])
  }

  /** The abstract address space: frames by page index, over a fixed identity map of the low 4 GiB. */
  function Lookup(m: map<nat, nat>, v: nat): Option<nat>
  {
    var n := PageIndex(v);
    if n < BOOT_PAGES then Some(n * PAGE + v % PAGE)
    else if n in m then Some(m[n] * PAGE + v % PAGE)
    else None
  }

  function NextMap(m: map<nat, nat>, op: Op): map<nat, nat>
  {
    if op.Map? && Mappable(op.virt, op.phys)
    then m[PageIndex(op.virt) := BitOr(op.phys / PAGE, op.flags / PAGE)]
    else m
  }

  function ExecuteMap(m: map<nat, nat>, ops: seq<Op>): map<nat, nat>
    decreases |ops|
  {
    if ops == [] then m else ExecuteMap(NextMap(m, ops[0]), ops[1..])
  }

  ghost predicate Refines(k: Kernel, role: map<nat, seq<nat>>, m: map<nat, nat>)
  {
    && Inv(Space(k.vm, role))
    && Owns(k, role)
    && (forall v: nat :: Translate(k.vm, v) == Lookup(m, v))
  }

  /** Memory that is no table is invisible to the walk. */
  lemma {:induction false} ForeignPage(s: Space, ram': seq<Page>, q: nat, v: nat)
    requires Tree(s.vm, s.role) && q in s.role
    requires |ram'| == |s.vm.ram| && forall p :: p in s.role ==> ram'[p] == s.vm.ram[p]
    ensures Walk(ram', q, 3 - |s.role[q]|, v) == Walk(s.vm.ram, q, 3 - |s.role[q]|, v)
    decreases 3 - |s.role[q]|
  {
    var level := 3 - |s.role[q]|;
    var k := Index(v, level);
    if level == 0 {
    } else {
      assert LinkOk(s.vm.ram, s.role, q, k);
      var e := s.vm.ram[q][k];
      if Present(e) && !(level == 1 && Huge(e)) {
        ForeignPage(s, ram', e / PAGE, v);
      }
    }
  }

  lemma ForeignWrite(s: Space, ram': seq<Page>, bump': nat)
    requires Inv(s) && s.vm.bump <= bump' <= |ram'|
    requires |ram'| == |s.vm.ram| && forall p :: p in s.role ==> ram'[p] == s.vm.ram[p]
    ensures Inv(Space(s.vm.(ram := ram', bump := bump'), s.role))
    ensures forall v: nat :: Translate(s.vm.(ram := ram', bump := bump'), v) == Translate(s.vm, v)
  {
    var vm' := s.vm.(ram := ram', bump := bump');
    forall v: nat ensures Translate(vm', v) == Translate(s.vm, v) {
      ForeignPage(s, ram', s.vm.root, v);
    }
    forall p, i | p in s.role && |s.role[p]| <= 2 && 0 <= i < ENTRIES
      ensures LinkOk(ram', s.role, p, i)
    {
      assert LinkOk(s.vm.ram, s.role, p, i);
    }
    assert forall p, i :: p in s.role && 0 <= i < ENTRIES ==> Entry(vm', p, i) == Entry(s.vm, p, i);
    assert forall j, i :: 0 <= j < 4 && 0 <= i < ENTRIES && MapsItself(s.vm, j, i) ==> MapsItself(vm', j, i);
  }

  lemma MapLookup(vm: Vm, vm': Vm, m: map<nat, nat>, op: Op)
    requires op.Map? && Mappable(op.virt, op.phys)
    requires forall v: nat :: Translate(vm, v) == Lookup(m, v)
    requires forall v: nat :: Translate(vm', v) ==
                              if PageIndex(v) == PageIndex(op.virt)
                              then Some(BitOr(op.phys / PAGE, op.flags / PAGE) * PAGE + v % PAGE)
                              else Translate(vm, v)
    ensures forall v: nat :: Translate(vm', v) == Lookup(NextMap(m, op), v)
  {
  }

  ghost predicate Owns(k: Kernel, role: map<nat, seq<nat>>)
  {
    && k.base <= k.vm.bump
    && (forall p :: p in role ==> p !in k.taken && (k.IsBootTable(p) || k.base <= p))
    && (forall p :: p in k.taken ==> p < k.vm.bump)
  }

  lemma MapOwnership(k: Kernel, role: map<nat, seq<nat>>, t: Space)
    requires Owns(k, role) && Extends(k.vm, t.vm)
    requires forall p :: p in t.role && p !in role ==> k.vm.bump <= p < t.vm.bump
    ensures Owns(k.(vm := t.vm), t.role)
  {
  }

  lemma MapRefines(k: Kernel, role: map<nat, seq<nat>>, m: map<nat, nat>, op: Op)
    returns (role': map<nat, seq<nat>>)
    requires Refines(k, role, m) && Enabled(k, op) && op.Map?
    ensures Refines(Next(k, op), role', NextMap(m, op))
  {
    hide Inv, Translate, Owns;
    var s := Space(k.vm, role);
    if Mappable(op.virt, op.phys) {
      var t := SuccessfulMap(s, op.virt, op.phys, op.flags);
      role' := t.role;
      MapLookup(k.vm, t.vm, m, op);
      MapOwnership(k, role, t);
    } else {
      FailedMap(s, op.virt, op.phys, op.flags);
      role' := role;
    }
  }

  lemma OtherRefines(k: Kernel, role: map<nat, seq<nat>>, m: map<nat, nat>, op: Op)
    requires Refines(k, role, m) && Enabled(k, op) && !op.Map?
    ensures Refines(Next(k, op), role, m)
  {
    var k' := Next(k, op);
    assert k'.vm == k.vm.(ram := k'.vm.ram, bump := k'.vm.bump);
    ForeignWrite(Space(k.vm, role), k'.vm.ram, k'.vm.bump);
  }

  lemma RefinementStep(k: Kernel, role: map<nat, seq<nat>>, m: map<nat, nat>, op: Op)
    returns (role': map<nat, seq<nat>>)
    requires Refines(k, role, m) && Enabled(k, op)
    ensures Refines(Next(k, op), role', NextMap(m, op))
  {
    if op.Map? {
      role' := MapRefines(k, role, m, op);
    } else {
      OtherRefines(k, role, m, op);
      role' := role;
    }
  }

  lemma {:induction false} RefinementRun(k: Kernel, role: map<nat, seq<nat>>, m: map<nat, nat>, ops: seq<Op>)
    returns (role': map<nat, seq<nat>>)
    requires Refines(k, role, m) && Allowed(k, ops)
    ensures Refines(Execute(k, ops), role', ExecuteMap(m, ops))
    decreases |ops|
  {
    role' := role;
    if ops == [] {
    } else {
      role' := RefinementStep(k, role, m, ops[0]);
      role' := RefinementRun(Next(k, ops[0]), role', NextMap(m, ops[0]), ops[1..]);
    }
  }

  /** The state `vm_init` leaves: the boot map and nothing else. */
  ghost predicate Booted(k: Kernel)
  {
    var vm := k.vm;
    && k.taken == {} && k.base == vm.bump <= |vm.ram| && |vm.ram| * PAGE <= TWO64
    && |vm.pd| == 4
    && vm.root < vm.bump && vm.pdpt < vm.bump && vm.root != vm.pdpt
    && (forall j :: 0 <= j < 4 ==> vm.pd[j] < vm.bump && vm.pd[j] != vm.root && vm.pd[j] != vm.pdpt)
    && (forall i, j :: 0 <= i < j < 4 ==> vm.pd[i] != vm.pd[j])
    && (forall i :: 0 <= i < ENTRIES ==> vm.ram[vm.root][i] == if i == 0 then TableEntry(vm.pdpt) else 0)
    && (forall i :: 0 <= i < ENTRIES ==> vm.ram[vm.pdpt][i] == if i < 4 then TableEntry(vm.pd[i]) else 0)
    && (forall j, i :: 0 <= j < 4 && 0 <= i < ENTRIES ==> MapsItself(vm, j, i))
  }

  ghost function BootRole(vm: Vm): map<nat, seq<nat>>
    requires |vm.pd| == 4
  {
    map[vm.root := [], vm.pdpt := [0],
        vm.pd[0] := [0, 0], vm.pd[1] := [0, 1], vm.pd[2] := [0, 2], vm.pd[3] := [0, 3]]
  }

  lemma BootInv(k: Kernel)
    requires Booted(k)
    ensures Inv(Space(k.vm, BootRole(k.vm)))
  {
    var vm, role := k.vm, BootRole(k.vm);
    BootRoles(vm);
    forall p, i | p in role && |role[p]| <= 2 && 0 <= i < ENTRIES
      ensures LinkOk(vm.ram, role, p, i)
    {
      BootLink(k, p, i);
    }
  }

  lemma BootLink(k: Kernel, p: nat, i: nat)
    requires Booted(k) && p in BootRole(k.vm) && i < ENTRIES
    ensures LinkOk(k.vm.ram, BootRole(k.vm), p, i)
  {
    var vm := k.vm;
    BootRoles(vm);
    if p in vm.pd {
      var j :| 0 <= j < 4 && p == vm.pd[j];
      assert MapsItself(vm, j, i);
    }
  }

  lemma BootRoles(vm: Vm)
    requires |vm.pd| == 4 && vm.root != vm.pdpt
    requires forall j :: 0 <= j < 4 ==> vm.pd[j] != vm.root && vm.pd[j] != vm.pdpt
    requires forall i, j :: 0 <= i < j < 4 ==> vm.pd[i] != vm.pd[j]
    ensures var role := BootRole(vm);
            && role[vm.root] == [] && role[vm.pdpt] == [0]
            && (forall j :: 0 <= j < 4 ==> vm.pd[j] in role && role[vm.pd[j]] == [0, j])
            && (forall p :: p in role ==> p == vm.root || p == vm.pdpt || p in vm.pd)
  {
    var role := BootRole(vm);
    forall j | 0 <= j < 4 ensures vm.pd[j] in role && role[vm.pd[j]] == [0, j] {}
  }

  lemma BootRefines(k: Kernel)
    requires Booted(k)
    ensures Refines(k, BootRole(k.vm), map[])
  {
    BootInv(k);
    BootRoles(k.vm);
    forall v: nat ensures Translate(k.vm, v) == Lookup(map[], v) {
      BootTranslation(k, v);
    }
  }

  lemma BootTranslation(k: Kernel, v: nat)
    requires Booted(k)
    ensures Translate(k.vm, v) == Lookup(map[], v)
  {
    LowAddresses(v);
    BootInv(k);
    if PageIndex(v) < BOOT_PAGES {
      LowIdentity(Space(k.vm, BootRole(k.vm)), v);
    }
  }

  /**
   The refinement theorem: after boot and any run of mappings, page
   allocations and writes by other kernel code, translation is lookup in the
   abstract map. The low 4 GiB stay identity-mapped throughout.
   */
  lemma PageTablesRefineMap(k: Kernel, ops: seq<Op>, v: nat)
    requires Booted(k) && Allowed(k, ops)
    ensures Translate(Execute(k, ops).vm, v) == Lookup(ExecuteMap(map[], ops), v)
    ensures v < 0x1_0000_0000 ==> Translate(Execute(k, ops).vm, v) == Some(v)
  {
    BootRefines(k);
    var role := RefinementRun(k, BootRole(k.vm), map[], ops);
    if v < 0x1_0000_0000 {
      SmallAddress(ExecuteMap(map[], ops), v);
    }
  }

  lemma SmallAddress(m: map<nat, nat>, v: nat)
    requires v < 0x1_0000_0000
    ensures Lookup(m, v) == Some(v)
  {
    assert PageIndex(v) == v / PAGE;
  }
}
