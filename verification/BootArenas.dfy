/**
 The memory map at boot: `kalloc_init` starts the first-fit heap at the end of
 the kernel, and `vm_init` starts the pages the slab carves at the same place,
 rounded up to a page. What happens when a large block meets the first page.
 */
module BootArenas {
  import opened Words
  import opened LargeHeap
  import opened Kalloc
  import Slab

  /** `(_kernel_end + 15) & ~15` and the page-aligned `_kernel_end`, in bytes. */
  function HeapBase(kernelEnd: nat): nat { (kernelEnd + 15) / 16 * 16 }

  function PageBase(kernelEnd: nat): nat { (kernelEnd + 4095) / 4096 * 4096 }

  /** No allocation yet, no page taken, both arenas where the boot code puts them. */
  predicate AtBoot(h: Heap, kernelEnd: nat)
  {
    && h.slab.Shape() && h.slab.HasRoom() && h.slab.heads == [0, 0, 0, 0, 0, 0]
    && 0 < h.start < |h.slab.mem| && 8 * h.start == HeapBase(kernelEnd) && 4096 * h.slab.bump == PageBase(kernelEnd)
    && h.slab.mem[h.start] == 0
  }

  /** Words below the first page. */
  function Gap(h: Heap): int { h.slab.bump * Slab.PAGE_WORDS - h.start }

  /** The gap is below one page, whatever the kernel's size. */
  lemma SmallGap(h: Heap, kernelEnd: nat)
    requires AtBoot(h, kernelEnd)
    ensures 0 <= 8 * Gap(h) == PageBase(kernelEnd) - HeapBase(kernelEnd) < 4096
  {
    assert HeapBase(kernelEnd) <= PageBase(kernelEnd) by {
      var q := (kernelEnd + 4095) / 4096;
      assert 16 * (256 * q) >= kernelEnd;
    }
  }

  /** A request the slab does not serve, with memory for the first block. */
  predicate FirstLarge(h: Heap, size: u64)
  {
    !UsesSlab(size) && 0 < size <= TWO64 - 16 && h.start + HEADER_WORDS + RoundUp(size) / 8 <= |h.slab.mem|
  }

  /** The heap after the first large `kalloc`. */
  function AfterLarge(h: Heap, size: u64): Heap
    requires h.slab.Shape() && FirstLarge(h, size)
  {
    Kalloc.Alloc(h, [], size).0
  }

  /** The words of that block, header and payload. */
  predicate InBlock(h: Heap, size: u64, w: nat) { h.start <= w < h.start + HEADER_WORDS + RoundUp(size) / 8 }

  /** Memory after its owner has written anything to the payload. */
  ghost predicate OwnerWrites(h: Heap, size: u64, mem: seq<u64>)
    requires h.slab.Shape() && FirstLarge(h, size)
  {
    && |mem| == |h.slab.mem|
    && forall w :: 0 <= w < |mem| && !(InBlock(h, size, w) && w >= h.start + HEADER_WORDS) ==>
                     mem[w] == AfterLarge(h, size).slab.mem[w]
  }

  /** Memory after the next small `kalloc`, which has to carve the first page. */
  function AfterRefill(h: Heap, mem: seq<u64>, small: u64): seq<u64>
    requires h.slab.Shape() && h.slab.HasRoom() && |mem| == |h.slab.mem|
  {
    Slab.Alloc(h.slab.(mem := mem), small).0.mem
  }

  lemma LargeBlock(h: Heap, size: u64)
    requires h.slab.Shape() && FirstLarge(h, size)
    ensures var mem := AfterLarge(h, size).slab.mem;
            && |mem| == |h.slab.mem| && RoundUp(size) % 16 == 0
            && mem[h.start] == RoundUp(size) && mem[h.start + 1] % TWO32 == 0 && mem[h.start + 2] == 0
            && (forall w :: 0 <= w < |mem| && !(h.start <= w < h.start + HEADER_WORDS) ==> mem[w] == h.slab.mem[w])
            && Kalloc.Alloc(h, [], size) ==
               (h.(slab := h.slab.(mem := mem)), [Block(h.start, RoundUp(size), false)], h.start + HEADER_WORDS)
  {
    RoundUpFits(size);
    assert [] + [Block(h.start, RoundUp(size), false)] == [Block(h.start, RoundUp(size), false)];
  }

  /** The refill writes the first page and nothing else; its first word becomes a slot header. */
  lemma RefillWrites(h: Heap, kernelEnd: nat, mem: seq<u64>, small: u64)
    requires AtBoot(h, kernelEnd) && |mem| == |h.slab.mem| && Slab.ClassFor(small) >= 0
    ensures var t, page := AfterRefill(h, mem, small), h.slab.bump * Slab.PAGE_WORDS;
            && |t| == |mem| && page < |mem| && t[page] == Slab.Header(Slab.ClassFor(small))
            && forall w :: 0 <= w < page ==> t[w] == mem[w]
  {
    var s, c := h.slab.(mem := mem), Slab.ClassFor(small);
    assert 0 <= c < Slab.CLASSES;
    hide Slab.ClassFor, Slab.Header;
    FirstSlot(s, c);
    Slab.CarveElsewhere(s, c, Slab.PerPage(c));
    hide Slab.Carve, Slab.PerPage;
    assert forall w :: 0 <= w < s.bump * Slab.PAGE_WORDS ==> w / Slab.PAGE_WORDS != s.bump;
  }

  lemma FirstSlot(s: Slab.State, c: nat)
    requires s.Shape() && s.HasRoom() && c < Slab.CLASSES
    ensures Slab.Carve(s, c, Slab.PerPage(c)).mem[s.bump * Slab.PAGE_WORDS] == Slab.Header(c)
  {
    hide Slab.Carve;
    Slab.CarveHeader(s, c, Slab.PerPage(c), 0);
    assert Slab.SlotAt(s.bump, c, 0) == s.bump * Slab.PAGE_WORDS + 1;
  }

  /** A slot header is none of the values a block header holds. */
  lemma HeaderDiffers(c: nat, size: u64)
    requires c < Slab.CLASSES && 0 < size
    ensures Slab.Header(c) != RoundUp(size) && Slab.Header(c) % TWO32 != 0
  {
    RoundUpFits(size);
    assert Slab.Header(c) % TWO32 == Slab.MAGIC;
    if c == 0 {} else if c == 1 {} else if c == 2 {} else if c == 3 {} else if c == 4 {} else {}
  }

  /** What the first refill does to the first large block, whatever its owner has stored there. */
  lemma RefillMeetsBlock(h: Heap, kernelEnd: nat, size: u64, small: u64, mem: seq<u64>)
    requires AtBoot(h, kernelEnd) && FirstLarge(h, size) && Slab.ClassFor(small) >= 0 && OwnerWrites(h, size, mem)
    ensures var t, page := AfterRefill(h, mem, small), h.slab.bump * Slab.PAGE_WORDS;
            && |t| == |mem|
            && (HEADER_WORDS + RoundUp(size) / 8 <= Gap(h) ==> forall w: nat :: InBlock(h, size, w) ==> t[w] == mem[w])
            && (HEADER_WORDS + RoundUp(size) / 8 > Gap(h) ==>
                  && InBlock(h, size, page) && t[page] == Slab.Header(Slab.ClassFor(small))
                  && (page < h.start + HEADER_WORDS ==> t[page] != mem[page]))
  {
    SmallGap(h, kernelEnd);
    LargeBlock(h, size);
    hide AtBoot, Slab.ClassFor, UsesSlab, AfterLarge, AfterRefill, Slab.Header, RoundUp;
    assert h.slab.Shape() && h.slab.HasRoom() by { BootShape(h, kernelEnd); }
    RefillWrites(h, kernelEnd, mem, small);
    HeaderDiffers(Slab.ClassFor(small), size);
    var page := h.slab.bump * Slab.PAGE_WORDS;
    if page < h.start + HEADER_WORDS {
      assert mem[page] == AfterLarge(h, size).slab.mem[page];
    }
  }

  lemma BootShape(h: Heap, kernelEnd: nat)
    requires AtBoot(h, kernelEnd)
    ensures h.slab.Shape() && h.slab.HasRoom()
  {
  }

  /** Whatever the owner stores, the next small `kalloc` leaves the whole block alone. */
  ghost predicate Spared(h: Heap, size: u64, small: u64)
    requires h.slab.Shape() && h.slab.HasRoom() && FirstLarge(h, size)
  {
    forall mem, w: nat :: OwnerWrites(h, size, mem) && InBlock(h, size, w) ==>
                       w < |AfterRefill(h, mem, small)| && w < |mem| && AfterRefill(h, mem, small)[w] == mem[w]
  }

  /**
   A large `kalloc` followed by the first slab refill: the live block survives,
   whatever it holds, if and only if header and rounded size fit below the first page.
   */
  lemma BlockSparedIff(h: Heap, kernelEnd: nat, size: u64, small: u64)
    requires AtBoot(h, kernelEnd) && FirstLarge(h, size) && Slab.ClassFor(small) >= 0
    ensures Spared(h, size, small) <==> 24 + RoundUp(size) <= PageBase(kernelEnd) - HeapBase(kernelEnd)
  {
    SmallGap(h, kernelEnd);
    LargeBlock(h, size);
    hide AtBoot, Slab.ClassFor, UsesSlab, AfterLarge, AfterRefill, Slab.Header, RoundUp;
    if HEADER_WORDS + RoundUp(size) / 8 <= Gap(h) {
      forall mem, w: nat | OwnerWrites(h, size, mem) && InBlock(h, size, w)
        ensures w < |AfterRefill(h, mem, small)| && w < |mem| && AfterRefill(h, mem, small)[w] == mem[w]
      {
        RefillMeetsBlock(h, kernelEnd, size, small, mem);
      }
    } else {
      var page := h.slab.bump * Slab.PAGE_WORDS;
      var mem := Overwritten(h, size, page);
      RefillMeetsBlock(h, kernelEnd, size, small, mem);
      HeaderDiffers(Slab.ClassFor(small), size);
      assert AfterRefill(h, mem, small)[page] != mem[page];
    }
  }

  /** The block with a zero stored at `page`, if that is a word of the payload. */
  ghost function Overwritten(h: Heap, size: u64, page: nat): (mem: seq<u64>)
    requires h.slab.Shape() && FirstLarge(h, size) && InBlock(h, size, page)
    requires |AfterLarge(h, size).slab.mem| == |h.slab.mem|
    ensures OwnerWrites(h, size, mem) && (page >= h.start + HEADER_WORDS ==> mem[page] == 0)
  {
    var mem := AfterLarge(h, size).slab.mem;
    if page >= h.start + HEADER_WORDS then mem[page := 0] else mem
  }

  // ----- the other order

  /** The heap after a first small `kalloc`, which carves the first page. */
  function AfterSmall(h: Heap, small: u64): Heap
    requires h.slab.Shape() && h.slab.HasRoom()
  {
    h.(slab := Slab.Alloc(h.slab, small).0)
  }

  lemma SmallFirst(h: Heap, kernelEnd: nat, small: u64)
    requires AtBoot(h, kernelEnd) && UsesSlab(small)
    ensures var s, page := AfterSmall(h, small).slab, h.slab.bump * Slab.PAGE_WORDS;
            && s.Shape() && page + Slab.PAGE_WORDS <= |s.mem| == |h.slab.mem|
            && s.mem[page] == Slab.Header(Slab.ClassFor(small))
            && forall w :: 0 <= w < page ==> s.mem[w] == h.slab.mem[w]
  {
    RefillWrites(h, kernelEnd, h.slab.mem, small);
    assert h.slab.(mem := h.slab.mem) == h.slab;
    assert AfterSmall(h, small).slab.mem == AfterRefill(h, h.slab.mem, small);
    SmallShape(h, kernelEnd, small);
  }

  lemma SmallShape(h: Heap, kernelEnd: nat, small: u64)
    requires AtBoot(h, kernelEnd) && UsesSlab(small)
    ensures AfterSmall(h, small).slab.Shape()
  {
    var b := Slab.Book(map[], [[], [], [], [], [], []], map[]);
    assert Slab.Inv(h.slab, b);
    hide Slab.Alloc, Slab.ClassFor;
    var b' := Slab.AllocStep(h.slab, b, small);
  }

  /** After the first small `kalloc`, memory still holds the empty first-fit heap if and only if there is a gap. */
  lemma EmptyHeapKeptIff(h: Heap, kernelEnd: nat, small: u64, limit: nat)
    requires AtBoot(h, kernelEnd) && UsesSlab(small) && h.start + HEADER_WORDS <= limit <= |h.slab.mem|
    ensures Tiles(AfterSmall(h, small).slab.mem, h.start, [], limit) <==> HeapBase(kernelEnd) < PageBase(kernelEnd)
  {
    SmallGap(h, kernelEnd);
    SmallFirst(h, kernelEnd, small);
    HeaderDiffers(Slab.ClassFor(small), 1);
    hide AfterSmall, Slab.ClassFor, Slab.Header;
  }

  /** Whatever the owner of the first large block stores, the first slab page keeps every word. */
  ghost predicate PageSpared(h: Heap, h1: Heap, size: u64)
  {
    && h1.slab.Shape() && FirstLarge(h1, size)
    && forall mem, w: nat :: OwnerWrites(h1, size, mem) && InFirstPage(h, w) ==>
                               w < |mem| && w < |h1.slab.mem| && mem[w] == h1.slab.mem[w]
  }

  predicate InFirstPage(h: Heap, w: nat)
  {
    h.slab.bump * Slab.PAGE_WORDS <= w < (h.slab.bump + 1) * Slab.PAGE_WORDS
  }

  /** What the owner of the first large block can write: its block and nothing else. */
  lemma WritesStayInside(h1: Heap, size: u64, mem: seq<u64>, w: nat)
    requires h1.slab.Shape() && FirstLarge(h1, size) && OwnerWrites(h1, size, mem)
    requires w < |h1.slab.mem| && !InBlock(h1, size, w)
    ensures w < |mem| && mem[w] == h1.slab.mem[w]
  {
    LargeBlock(h1, size);
    hide AfterLarge, RoundUp;
  }

  /** A slot header inside the block is lost, whether to the block's header or to its owner. */
  lemma HeaderIsLost(h1: Heap, size: u64, w: nat, c: nat) returns (mem: seq<u64>)
    requires h1.slab.Shape() && FirstLarge(h1, size) && InBlock(h1, size, w) && c < Slab.CLASSES
    requires h1.slab.mem[w] == Slab.Header(c)
    ensures OwnerWrites(h1, size, mem) && w < |mem| && mem[w] != h1.slab.mem[w]
  {
    LargeBlock(h1, size);
    HeaderDiffers(c, size);
    hide AfterLarge, Slab.Header, RoundUp;
    mem := Overwritten(h1, size, w);
    if w < h1.start + HEADER_WORDS {
      assert mem[w] == AfterLarge(h1, size).slab.mem[w];
    }
  }

  lemma SparedIffBelow(h: Heap, h1: Heap, size: u64, c: nat)
    requires h1.slab.Shape() && FirstLarge(h1, size) && h1.start == h.start && Gap(h) >= 0 && c < Slab.CLASSES
    requires h.slab.bump * Slab.PAGE_WORDS + Slab.PAGE_WORDS <= |h1.slab.mem|
    requires h1.slab.mem[h.slab.bump * Slab.PAGE_WORDS] == Slab.Header(c)
    ensures PageSpared(h, h1, size) <==> HEADER_WORDS + RoundUp(size) / 8 <= Gap(h)
  {
    hide Slab.Header, RoundUp, OwnerWrites, FirstLarge;
    if HEADER_WORDS + RoundUp(size) / 8 <= Gap(h) {
      forall mem, w: nat | OwnerWrites(h1, size, mem) && InFirstPage(h, w)
        ensures w < |mem| && w < |h1.slab.mem| && mem[w] == h1.slab.mem[w]
      {
        WritesStayInside(h1, size, mem, w);
      }
    } else {
      var page := h.slab.bump * Slab.PAGE_WORDS;
      var mem := HeaderIsLost(h1, size, page, c);
      assert InFirstPage(h, page);
    }
  }

  /**
   A small `kalloc` followed by the first large one, where there is a gap: the
   page of the live slot survives whatever the new block's owner stores if and
   only if header and rounded size fit below it.
   */
  lemma PageSparedIff(h: Heap, kernelEnd: nat, size: u64, small: u64)
    requires AtBoot(h, kernelEnd) && UsesSlab(small) && FirstLarge(h, size)
    requires HeapBase(kernelEnd) < PageBase(kernelEnd)
    ensures PageSpared(h, AfterSmall(h, small), size) <==>
            24 + RoundUp(size) <= PageBase(kernelEnd) - HeapBase(kernelEnd)
  {
    hide PageSpared, Slab.Header, Slab.Alloc, HeapBase, PageBase;
    SmallGap(h, kernelEnd);
    SmallFirst(h, kernelEnd, small);
    RoundUpFits(size);
    hide RoundUp, Slab.ClassFor;
    SparedIffBelow(h, AfterSmall(h, small), size, Slab.ClassFor(small));
  }

  lemma AlignedBases(kernelEnd: nat, q: nat)
    requires kernelEnd == 4096 * q
    ensures HeapBase(kernelEnd) == kernelEnd && PageBase(kernelEnd) == kernelEnd
  {
    Quotient(kernelEnd + 15, 16, 256 * q, 15);
    Quotient(kernelEnd + 4095, 4096, q, 4095);
  }

  lemma Quotient(n: nat, unit: nat, k: nat, r: nat)
    requires (unit == 16 || unit == 4096) && r < unit && n == unit * k + r
    ensures n / unit * unit == n - r
  {
    if unit == 16 {
      assert n / 16 == k;
    } else {
      assert n / 4096 == k;
    }
  }

  lemma NoGap(h: Heap, kernelEnd: nat)
    requires AtBoot(h, kernelEnd) && kernelEnd % 4096 == 0
    ensures h.start == h.slab.bump * Slab.PAGE_WORDS
  {
    AlignedBases(kernelEnd, kernelEnd / 4096);
    hide HeapBase, PageBase;
  }

  lemma FirstClass()
    ensures Slab.ClassFor(8) == 0 && UsesSlab(8)
  {
  }

  /**
   A run that breaks the heap: when the kernel ends on a page boundary there is
   no gap, and `kalloc(8)` after a large `kalloc` replaces the live block's size
   by a slot header, so memory no longer holds a list with that block.
   */
  lemma BrokenRun(h: Heap, kernelEnd: nat, size: u64, limit: nat)
    requires AtBoot(h, kernelEnd) && kernelEnd % 4096 == 0 && FirstLarge(h, size)
    ensures var (h1, blocks1, n) := Kalloc.Alloc(h, [], size);
            && n == h.start + HEADER_WORDS && Slab.CanServe(h1.slab, 8) && UsesSlab(8)
            && (forall i :: 0 <= i < |blocks1| ==> blocks1[i].addr + 2 < |h1.slab.mem|)
            && var h2 := Kalloc.Alloc(h1, blocks1, 8).0;
               h2.slab.mem[h.start] == Slab.Header(0) != RoundUp(size) && !Tiles(h2.slab.mem, h.start, blocks1, limit)
  {
    LargeBlock(h, size);
    FirstClass();
    NoGap(h, kernelEnd);
    HeaderDiffers(0, size);
    BootShape(h, kernelEnd);
    hide AtBoot, RoundUp, LargeHeap.Alloc, Slab.ClassFor, Slab.Header;
    var (h1, blocks1, n) := Kalloc.Alloc(h, [], size);
    RefillWrites(h, kernelEnd, h1.slab.mem, 8);
    hide Slab.Alloc;
    assert Kalloc.Alloc(h1, blocks1, 8).0.slab.mem == AfterRefill(h, h1.slab.mem, 8);
    Untiled(Kalloc.Alloc(h1, blocks1, 8).0.slab.mem, h.start, blocks1[0], limit);
  }

  lemma Untiled(mem: seq<u64>, start: nat, b: Block, limit: nat)
    requires start < |mem| && b.addr == start && mem[start] != b.bytes
    ensures !Tiles(mem, start, [b], limit)
  {
    assert !BlockOk(mem, [b], 0, limit);
  }
}
