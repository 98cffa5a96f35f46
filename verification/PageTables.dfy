/**
 Four-level page tables as `vm.c` builds and walks them (section 4.5 of Intel
 SDM volume 3A), over physical memory seen as 4 KiB pages of 512 entries.
 */
module PageTables {
  import opened Words

  const ENTRIES: nat := 512
  const PAGE: int := 0x1000
  const HUGE_PAGE: int := 0x20_0000
  const BOOT_PAGES: int := 0x10_0000  // 4 KiB pages in the 4 GiB boot map
  const TWO36: int := 0x10_0000_0000

  type Page = t: seq<u64> | |t| == 512 witness seq(512, _ => 0)

  // ----- bitwise or

  lemma OrHalf(a: nat, b: nat)
    ensures BitOr(a, b) / 2 == BitOr(a / 2, b / 2)
    ensures BitOr(a, b) % 2 == 1 <==> a % 2 == 1 || b % 2 == 1
  {
  }

  lemma OrEighth(a: nat, b: nat)
    ensures BitOr(a, b) / 8 == BitOr(a / 8, b / 8)
  {
    OrHalf(a, b);
    OrHalf(a / 2, b / 2);
    OrHalf(a / 2 / 2, b / 2 / 2);
    assert a / 2 / 2 / 2 == a / 8 && b / 2 / 2 / 2 == b / 8;
  }

  lemma Or64th(a: nat, b: nat)
    ensures BitOr(a, b) / 64 == BitOr(a / 64, b / 64)
  {
    OrEighth(a, b);
    OrEighth(a / 8, b / 8);
    assert a / 8 / 8 == a / 64 && b / 8 / 8 == b / 64;
  }

  /** A bitwise or splits at the 4 KiB boundary. */
  lemma OrPage(a: nat, b: nat)
    ensures BitOr(a, b) / PAGE == BitOr(a / PAGE, b / PAGE)
  {
    Or64th(a, b);
    Or64th(a / 64, b / 64);
    assert a / 64 / 64 == a / PAGE && b / 64 / 64 == b / PAGE;
  }

  /** A bitwise or splits at the 2 MiB boundary. */
  lemma OrHugePage(a: nat, b: nat)
    ensures BitOr(a, b) / HUGE_PAGE == BitOr(a / HUGE_PAGE, b / HUGE_PAGE)
  {
    OrPage(a, b);
    Or64th(a / PAGE, b / PAGE);
    OrEighth(a / PAGE / 64, b / PAGE / 64);
    assert a / PAGE / 64 / 8 == a / HUGE_PAGE && b / PAGE / 64 / 8 == b / HUGE_PAGE;
  }

  // ----- entries

  predicate Present(e: u64) { e % 2 == 1 }

  predicate Huge(e: u64) { e / 0x80 % 2 == 1 }

  function Pow2(n: nat): (p: nat)
    ensures p > 0
  {
    if n == 0 then 1 else 2 * Pow2(n - 1)
  }

  lemma {:induction false} OrBound(a: nat, b: nat, n: nat)
    requires a < Pow2(n) && b < Pow2(n)
    ensures BitOr(a, b) < Pow2(n)
  {
    if a == 0 || b == 0 {
    } else {
      OrBound(a / 2, b / 2, n - 1);
    }
  }

  lemma Pow2Byte(n: nat)
    ensures Pow2(n + 8) == 0x100 * Pow2(n)
  {
    assert Pow2(n + 8) == 4 * Pow2(n + 6);
    assert Pow2(n + 6) == 4 * Pow2(n + 4);
    assert Pow2(n + 4) == 4 * Pow2(n + 2);
    assert Pow2(n + 2) == 4 * Pow2(n);
  }

  lemma Pow2Word(n: nat)
    ensures Pow2(n + 32) == TWO32 * Pow2(n)
  {
    Pow2Byte(n);
    Pow2Byte(n + 8);
    Pow2Byte(n + 16);
    Pow2Byte(n + 24);
  }

  lemma OrBelow(a: u64, b: u64, n: nat)
    requires n == 0
    ensures BitOr(a, b) < TWO64
  {
    Pow2Word(n);
    Pow2Word(n + 32);
    OrBound(a, b, n + 64);
  }

  lemma OrIsU64(a: u64, b: u64)
    ensures BitOr(a, b) < TWO64
  {
    OrBelow(a, b, 0);
  }

  lemma OrLowBits(q: nat)
    ensures BitOr(8 * q, 7) == 8 * q + 7
  {
    assert BitOr(2 * q, 1) == 2 * q + 1;
    assert BitOr(4 * q, 3) == 4 * q + 3;
  }

  lemma LowSeven(page: nat)
    ensures var e := page * PAGE + 7; e % 2 == 1 && e / 0x80 == 32 * page && e / PAGE == page
  {
  }

  /** `page | PRESENT | WRITE | USER`, the link to a lower table. */
  function TableEntry(page: nat): (e: u64)
    requires page * PAGE < TWO64
    ensures Present(e) && !Huge(e) && e / PAGE == page
  {
    OrLowBits(page * ENTRIES);
    LowSeven(page);
    BitOr(page * PAGE, 7)
  }

  /** `phys | flags | PRESENT`, the last-level entry. */
  function LeafEntry(phys: u64, flags: u64): (e: u64)
    ensures Present(e) && e / PAGE == BitOr(phys / PAGE, flags / PAGE)
  {
    OrIsU64(phys, flags);
    OrPage(phys, flags);
    OrPage(BitOr(phys, flags), 1);
    OrHalf(BitOr(phys, flags), 1);
    OrIsU64(BitOr(phys, flags), 1);
    BitOr(BitOr(phys, flags), 1)
  }

  lemma HugeBit(x: u64)
    ensures var e := BitOr(x, 0x80);
            e < TWO64 && e / 0x80 % 2 == 1 && e / HUGE_PAGE == x / HUGE_PAGE && e % 2 == x % 2
  {
    OrIsU64(x, 0x80);
    OrHugePage(x, 0x80);
    OrHalf(x, 0x80);
    BitSeven(x);
  }

  lemma BitSeven(x: nat)
    ensures BitOr(x, 0x80) / 0x80 % 2 == 1
  {
    hide BitOr;
    Or64th(x, 0x80);
    HalfOf64th(BitOr(x, 0x80));
    var y := x / 64;
    OrHalf(y, 2);
    OrHalf(y / 2, 1);
  }

  lemma HalfOf64th(e: nat)
    ensures e / 0x80 == e / 64 / 2
  {
  }

  /** `addr | flags | HUGE`. */
  function HugeEntry(addr: u64, flags: u64): (e: u64)
    ensures Huge(e) && e / HUGE_PAGE == BitOr(addr / HUGE_PAGE, flags / HUGE_PAGE)
    ensures Present(e) <==> addr % 2 == 1 || flags % 2 == 1
  {
    OrIsU64(addr, flags);
    OrHalf(addr, flags);
    OrHugePage(addr, flags);
    HugeBit(BitOr(addr, flags));
    BitOr(BitOr(addr, flags), 0x80)
  }

  // ----- virtual addresses

  /** `virt >> (12 + 9 * level)`. */
  function Vpn(virt: nat, level: nat): nat
  {
    if level == 0 then virt / PAGE else Vpn(virt, level - 1) / ENTRIES
  }

  function Index(virt: nat, level: nat): (i: nat)
    ensures i < ENTRIES
  {
    Vpn(virt, level) % ENTRIES
  }

  /** Bits 12 to 47: all the walk ever looks at. */
  function PageIndex(virt: nat): nat { virt / PAGE % TWO36 }

  /** The table indices from the root down, the first `n` of four. */
  function Path(virt: nat, n: nat): (path: seq<nat>)
    requires n <= 4
    ensures |path| == n && forall k :: 0 <= k < n ==> path[k] == Index(virt, 3 - k)
  {
    if n == 0 then [] else Path(virt, n - 1) + [Index(virt, 4 - n)]
  }

  /** The four indices are the base-512 digits of the page index. */
  lemma Digits(virt: nat)
    ensures PageIndex(virt) == ((Index(virt, 3) * 512 + Index(virt, 2)) * 512 + Index(virt, 1)) * 512 + Index(virt, 0)
  {
    var n0 := Vpn(virt, 0);
    var n1 := Vpn(virt, 1);
    var n2 := Vpn(virt, 2);
    var n3 := Vpn(virt, 3);
    assert n1 == n0 / 512 && n2 == n1 / 512 && n3 == n2 / 512;
    Remainder(n0, n3 / 512, ((Index(virt, 3) * 512 + Index(virt, 2)) * 512 + Index(virt, 1)) * 512 + Index(virt, 0));
  }

  lemma Remainder(n: nat, m: nat, d: nat)
    requires n == m * TWO36 + d && d < TWO36
    ensures n % TWO36 == d
  {
  }

  lemma DigitsUnique(a: nat, b: nat, x: nat, y: nat)
    requires x < 512 && y < 512 && a * 512 + x == b * 512 + y
    ensures a == b && x == y
  {
  }

  lemma SameDigits(v: nat, w: nat)
    requires PageIndex(v) == PageIndex(w)
    ensures forall level :: 0 <= level < 4 ==> Index(v, level) == Index(w, level)
  {
    Digits(v);
    Digits(w);
    DigitsUnique((Index(v, 3) * 512 + Index(v, 2)) * 512 + Index(v, 1),
                 (Index(w, 3) * 512 + Index(w, 2)) * 512 + Index(w, 1), Index(v, 0), Index(w, 0));
    DigitsUnique(Index(v, 3) * 512 + Index(v, 2), Index(w, 3) * 512 + Index(w, 2), Index(v, 1), Index(w, 1));
    DigitsUnique(Index(v, 3), Index(w, 3), Index(v, 2), Index(w, 2));
  }

  lemma SamePath(v: nat, w: nat)
    ensures PageIndex(v) == PageIndex(w) <==> Path(v, 4) == Path(w, 4)
  {
    if PageIndex(v) == PageIndex(w) {
      SameDigits(v, w);
    } else if Path(v, 4) == Path(w, 4) {
      forall level | 0 <= level < 4 ensures Index(v, level) == Index(w, level) {
        assert Path(v, 4)[3 - level] == Path(w, 4)[3 - level];
      }
      Digits(v);
      Digits(w);
      assert false;
    }
  }

  lemma LowAddresses(v: nat)
    ensures PageIndex(v) < BOOT_PAGES <==> Index(v, 3) == 0 && Index(v, 2) < 4
  {
    Digits(v);
  }

  // ----- the walk

  /** `vm_virt_to_phys` from a table at `level` down; `None` where no entry is present. */
  function Walk(ram: seq<Page>, table: nat, level: nat, virt: nat): Option<nat>
    decreases level
  {
    if table >= |ram| then None
    else
      var e := ram[table][Index(virt, level)];
      if !Present(e) then None
      else if level == 0 then Some(e / PAGE * PAGE + virt % PAGE)
      else if level == 1 && Huge(e) then Some(e / HUGE_PAGE * HUGE_PAGE + virt % HUGE_PAGE)
      else Walk(ram, e / PAGE, level - 1, virt)
  }

  /** Memory, the next page `vm_alloc_page` hands out, and the statically allocated boot tables. */
  datatype Vm = Vm(ram: seq<Page>, bump: nat, root: nat, pdpt: nat, pd: seq<nat>)

  function Translate(vm: Vm, virt: nat): Option<nat> { Walk(vm.ram, vm.root, 3, virt) }

  function ZeroPage(): (page: Page)
    ensures forall i :: 0 <= i < ENTRIES ==> page[i] == 0
  {
    seq(512, _ => 0)
  }

  /** `vm_alloc_page`. */
  function AllocPage(vm: Vm): Vm
    requires vm.bump < |vm.ram|
  {
    vm.(ram := vm.ram[vm.bump := ZeroPage()], bump := vm.bump + 1)
  }

  /** A table reference outside memory reads 0 and writes nowhere; `Tree` rules it out. */
  function Entry(vm: Vm, table: nat, i: nat): u64
    requires i < ENTRIES
  {
    if table < |vm.ram| then vm.ram[table][i] else 0
  }

  function SetEntry(vm: Vm, table: nat, i: nat, e: u64): Vm
    requires i < ENTRIES
  {
    if table < |vm.ram| then vm.(ram := vm.ram[table := vm.ram[table][i := e]]) else vm
  }

  /** A page is left if the table below entry `i` has to be allocated. */
  predicate CanDescend(vm: Vm, table: nat, i: nat)
    requires i < ENTRIES
  {
    Present(Entry(vm, table, i)) || vm.bump < |vm.ram|
  }

  /** The table below entry `i` of `table`, allocated if the entry is not present. */
  function Descend(vm: Vm, table: nat, i: nat): (Vm, nat)
    requires |vm.ram| * PAGE <= TWO64 && i < ENTRIES && CanDescend(vm, table, i)
  {
    var e := Entry(vm, table, i);
    if Present(e) then (vm, e / PAGE)
    else (SetEntry(AllocPage(vm), table, i, TableEntry(vm.bump)), vm.bump)
  }

  // ----- the tree invariant

  /** `role[p]` is the path of indices from the root to table `p`: no table is reached along two paths. */
  ghost predicate Tree(vm: Vm, role: map<nat, seq<nat>>)
  {
    && vm.bump <= |vm.ram| && |vm.ram| * PAGE <= TWO64
    && vm.root in role && role[vm.root] == []
    && (forall p :: p in role ==> p < vm.bump && |role[p]| <= 3)
    && (forall p, i :: p in role && |role[p]| <= 2 && 0 <= i < ENTRIES ==> LinkOk(vm.ram, role, p, i))
  }

  ghost predicate LinkOk(ram: seq<Page>, role: map<nat, seq<nat>>, p: nat, i: nat)
    requires p in role && i < ENTRIES
  {
    p < |ram| &&
    var e := ram[p][i];
    if !Present(e) then e == 0
    else (|role[p]| == 2 && Huge(e)) || (e / PAGE in role && role[e / PAGE] == role[p] + [i])
  }

  /** The role map after `Descend`. */
  ghost function DescendRole(vm: Vm, role: map<nat, seq<nat>>, table: nat, i: nat): map<nat, seq<nat>>
    requires table in role && i < ENTRIES
  {
    if Present(Entry(vm, table, i)) then role else role[vm.bump := role[table] + [i]]
  }

  lemma DescendKeepsTree(vm: Vm, role: map<nat, seq<nat>>, table: nat, i: nat)
    requires Tree(vm, role) && i < ENTRIES && CanDescend(vm, table, i)
    requires table in role && |role[table]| <= 2
    requires !(|role[table]| == 2 && Huge(vm.ram[table][i]))
    ensures var (vm', child) := Descend(vm, table, i);
            var role' := DescendRole(vm, role, table, i);
            && Tree(vm', role') && child in role' && role'[child] == role[table] + [i]
            && vm'.ram[table][i] / PAGE == child && Present(vm'.ram[table][i])
            && !(|role[table]| == 2 && Huge(vm'.ram[table][i]))
  {
    var (vm', child) := Descend(vm, table, i);
    var role' := DescendRole(vm, role, table, i);
    assert LinkOk(vm.ram, role, table, i);
    if !Present(vm.ram[table][i]) {
      forall p, k | p in role' && |role'[p]| <= 2 && 0 <= k < ENTRIES
        ensures LinkOk(vm'.ram, role', p, k)
      {
        if p in role {
          assert LinkOk(vm.ram, role, p, k);
        }
      }
    }
  }

  lemma DescendWrites(vm: Vm, table: nat, i: nat, q: nat, k: nat)
    requires vm.bump <= |vm.ram| && |vm.ram| * PAGE <= TWO64 && i < ENTRIES && CanDescend(vm, table, i)
    requires table < vm.bump && q < vm.bump && k < ENTRIES
    ensures var vm' := Descend(vm, table, i).0;
            && |vm'.ram| == |vm.ram|
            && vm'.ram[q][k] ==
               (if q == table && k == i && !Present(vm.ram[q][k]) then TableEntry(vm.bump) else vm.ram[q][k])
            && (!Present(vm.ram[table][i]) ==> vm'.ram[vm.bump] == ZeroPage())
  {
    hide TableEntry;
  }

  /** Linking in a zeroed table changes no translation. */
  lemma {:induction false} DescendKeepsWalk(vm: Vm, role: map<nat, seq<nat>>, table: nat, i: nat, q: nat, virt: nat)
    requires Tree(vm, role) && i < ENTRIES && CanDescend(vm, table, i)
    requires table in role && |role[table]| <= 2
    requires q in role
    ensures var vm' := Descend(vm, table, i).0;
            Walk(vm'.ram, q, 3 - |role[q]|, virt) == Walk(vm.ram, q, 3 - |role[q]|, virt)
    decreases 3 - |role[q]|
  {
    var vm' := Descend(vm, table, i).0;
    var level := 3 - |role[q]|;
    var k := Index(virt, level);
    DescendWrites(vm, table, i, q, k);
    hide Descend, TableEntry, Index, BitOr;
    if level == 0 {
    } else {
      assert LinkOk(vm.ram, role, q, k);
      var e := vm.ram[q][k];
      if q == table && k == i && !Present(e) {
        assert vm'.ram[vm.bump][Index(virt, level - 1)] == 0;
        assert TableEntry(vm.bump) / PAGE == vm.bump;
      } else if Present(e) && !(level == 1 && Huge(e)) {
        DescendKeepsWalk(vm, role, table, i, e / PAGE, virt);
      }
    }
  }

  /** Writing a last-level entry changes only the translation of the page whose path ends there. */
  lemma {:induction false} LeafFrame(vm: Vm, role: map<nat, seq<nat>>, pt: nat, i: nat, e: u64, q: nat, virt: nat)
    requires Tree(vm, role) && i < ENTRIES
    requires pt in role && |role[pt]| == 3
    requires q in role && role[q] == Path(virt, |role[q]|)
    requires Path(virt, 4) != role[pt] + [i]
    ensures Walk(SetEntry(vm, pt, i, e).ram, q, 3 - |role[q]|, virt) == Walk(vm.ram, q, 3 - |role[q]|, virt)
    decreases 3 - |role[q]|
  {
    var level := 3 - |role[q]|;
    var k := Index(virt, level);
    assert Path(virt, |role[q]| + 1) == role[q] + [k];
    if level == 0 {
    } else {
      assert LinkOk(vm.ram, role, q, k);
      var d := vm.ram[q][k];
      if Present(d) && !(level == 1 && Huge(d)) {
        LeafFrame(vm, role, pt, i, e, d / PAGE, virt);
      }
    }
  }

  lemma LeafKeepsTree(vm: Vm, role: map<nat, seq<nat>>, pt: nat, i: nat, e: u64)
    requires Tree(vm, role) && i < ENTRIES
    requires pt in role && |role[pt]| == 3
    ensures Tree(SetEntry(vm, pt, i, e), role)
  {
    var vm' := SetEntry(vm, pt, i, e);
    forall p, k | p in role && |role[p]| <= 2 && 0 <= k < ENTRIES
      ensures LinkOk(vm'.ram, role, p, k)
    {
      assert LinkOk(vm.ram, role, p, k);
    }
  }
}
