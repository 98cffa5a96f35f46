/**
 `kalloc` and `kfree`: slab slots for small requests, the first-fit heap for
 the rest, and a free that tells the two apart by the word before the pointer.
 */
module Kalloc {
  import opened Words
  import opened LargeHeap
  import Slab

  /** All of memory, the start of the first-fit heap and the end of the region it may grow into. */
  datatype Heap = Heap(slab: Slab.State, start: nat, limit: nat)

  /** The bookkeeping of both arenas: `large` gives the requested size of each live large pointer. */
  datatype Ledger = Ledger(book: Slab.Book, blocks: seq<Block>, large: map<nat, nat>)
  {
    /** Every live pointer with the number of bytes its owner asked for. */
    function Live(): map<nat, nat> { book.live + large }
  }

  /** The index of the block with payload `n`, or the number of blocks. */
  function BlockOf(blocks: seq<Block>, n: nat, i: nat): (k: nat)
    requires i <= |blocks|
    ensures i <= k <= |blocks|
    ensures k < |blocks| ==> blocks[k].Payload() == n
    ensures forall j :: i <= j < k ==> blocks[j].Payload() != n
    decreases |blocks| - i
  {
    if i == |blocks| then i else if blocks[i].Payload() == n then i else BlockOf(blocks, n, i + 1)
  }

  /** Live large pointers are exactly the payloads of the blocks in use. */
  ghost predicate LargeOk(blocks: seq<Block>, large: map<nat, nat>)
  {
    && (forall i :: 0 <= i < |blocks| ==> (blocks[i].Payload() in large <==> !blocks[i].free))
    && (forall i :: 0 <= i < |blocks| && !blocks[i].free ==> large[blocks[i].Payload()] <= blocks[i].bytes)
    && (forall n :: n in large ==> BlockOf(blocks, n, 0) < |blocks|)
  }

  /**
   The first-fit region lies below every slab page: an assumption about the memory map, not a
   consequence of the code (see `BootArenas`).
   */
  ghost predicate Separate(h: Heap, pages: map<nat, nat>)
  {
    h.limit <= h.slab.bump * Slab.PAGE_WORDS && forall p :: p in pages ==> h.limit <= p * Slab.PAGE_WORDS
  }

  ghost predicate Inv(h: Heap, g: Ledger)
  {
    && Slab.Inv(h.slab, g.book)
    && Tiles(h.slab.mem, h.start, g.blocks, h.limit)
    && Separate(h, g.book.pages)
    && LargeOk(g.blocks, g.large)
  }

  // ----- operations

  predicate UsesSlab(size: u64) { size <= 1024 && Slab.ClassFor(size) >= 0 }

  /** A request past the slab that no free block can serve. */
  predicate Grows(blocks: seq<Block>, size: u64) { !UsesSlab(size) && FirstFit(blocks, RoundUp(size), 0) == |blocks| }

  /** `kalloc`: the new heap, the new blocks and the pointer. */
  function Alloc(h: Heap, blocks: seq<Block>, size: u64): (Heap, seq<Block>, nat)
    requires h.slab.Shape() && (UsesSlab(size) ==> Slab.CanServe(h.slab, size))
    requires Grows(blocks, size) ==> NextAddress(h.start, blocks) + HEADER_WORDS <= |h.slab.mem|
    requires forall i :: 0 <= i < |blocks| ==> blocks[i].addr + 2 < |h.slab.mem|
  {
    if UsesSlab(size) then
      var (slab, n) := Slab.Alloc(h.slab, size);
      (h.(slab := slab), blocks, n)
    else
      var (mem, blocks', n) := LargeHeap.Alloc(h.slab.mem, h.start, blocks, RoundUp(size));
      (h.(slab := h.slab.(mem := mem)), blocks', n)
  }

  /** `kfree`: the slab takes the pointer if its header word says so, else the block is marked free. */
  function Free(h: Heap, blocks: seq<Block>, n: nat): (Heap, seq<Block>)
    requires h.slab.Shape() && n < |h.slab.mem| && (n == 0 || n >= 3)
  {
    if n == 0 then (h, blocks)
    else
      var (slab, taken) := Slab.Free(h.slab, n);
      if taken then (h.(slab := slab), blocks)
      else
        var mem, k := h.slab.mem, BlockOf(blocks, n, 0);
        (h.(slab := h.slab.(mem := mem[n - 2 := WithLow(mem[n - 2], 1)])),
         if k < |blocks| then blocks[k := blocks[k].(free := true)] else blocks)
  }

  // ----- facts about the two arenas

  lemma BlockBounds(h: Heap, g: Ledger, i: nat)
    requires Inv(h, g) && i < |g.blocks|
    ensures 0 < h.start <= g.blocks[i].addr && g.blocks[i].End() <= h.limit <= |h.slab.mem|
    ensures g.blocks[i].bytes >= 16
  {
    assert BlockOk(h.slab.mem, g.blocks, i, h.limit);
    FirstAddress(h.slab.mem, h.start, g.blocks, h.limit, i);
  }

  /** A slab slot lies above the first-fit region. */
  lemma SlotAbove(h: Heap, g: Ledger, n: nat, c: nat)
    requires Inv(h, g) && c < Slab.CLASSES && Slab.IsSlot(g.book.pages, n, c)
    ensures h.limit <= n - 1
  {
  }

  lemma BelowPages(h: Heap, g: Ledger)
    requires Inv(h, g)
    ensures forall w :: 0 <= w < h.limit ==> w / Slab.PAGE_WORDS !in g.book.pages
  {
  }

  /** Writing below the limit keeps the slab invariant. */
  lemma HeapWrite(h: Heap, g: Ledger, mem': seq<u64>)
    requires Inv(h, g) && |mem'| == |h.slab.mem|
    requires forall w :: h.limit <= w < |mem'| ==> mem'[w] == h.slab.mem[w]
    ensures Slab.Inv(h.slab.(mem := mem'), g.book)
  {
    BelowPages(h, g);
    Slab.ForeignWrites(h.slab, g.book, mem');
  }

  /** Writing above the limit keeps the tiling. */
  lemma PageWrite(h: Heap, g: Ledger, mem': seq<u64>)
    requires Inv(h, g) && |mem'| == |h.slab.mem|
    requires forall w :: 0 <= w < h.limit ==> mem'[w] == h.slab.mem[w]
    ensures Tiles(mem', h.start, g.blocks, h.limit)
  {
    forall i | 0 <= i < |g.blocks| ensures SameHeader(h.slab.mem, mem', g.blocks[i].addr) {
      BlockBounds(h, g, i);
    }
    TilesFrame(h.slab.mem, mem', h.start, g.blocks, h.limit);
  }

  /**
   Why `kfree` never mistakes a large block for a slot: the word before its
   payload is a null or 8-aligned link, and the magic is 2 modulo 8.
   */
  lemma LargeIsNoSlot(h: Heap, g: Ledger, n: nat)
    requires Inv(h, g) && n in g.large
    ensures 3 < n < |h.slab.mem| && Slab.HeaderClass(h.slab.mem[n - 1]) == -1
  {
    var i := BlockOf(g.blocks, n, 0);
    BlockBounds(h, g, i);
    assert BlockOk(h.slab.mem, g.blocks, i, h.limit);
    LinkIsNoMagic(if i + 1 < |g.blocks| then g.blocks[i + 1].addr else 0);
  }

  lemma LinkIsNoMagic(a: nat)
    ensures 8 * a % TWO32 != Slab.MAGIC
  {
    assert 8 * a % TWO32 % 8 == 0;
  }

  /** A live slot is recognised by its header. */
  lemma SlotIsSlot(h: Heap, g: Ledger, n: nat) returns (c: nat)
    requires Inv(h, g) && n in g.book.live
    ensures c < Slab.CLASSES && Slab.IsSlot(g.book.pages, n, c)
    ensures 3 < n < |h.slab.mem| && Slab.HeaderClass(h.slab.mem[n - 1]) == c && n !in g.large
  {
    assert Slab.Carved(g.book.pages, n);
    c :| c < Slab.CLASSES && Slab.IsSlot(g.book.pages, n, c);
    assert Slab.SlotOk(h.slab.mem, g.book, n, c);
    Slab.HeaderRoundTrip(c);
    Slab.SlotWordsInPage(g.book.pages, n, c);
    SlotAbove(h, g, n, c);
    if n in g.large {
      BlockBounds(h, g, BlockOf(g.blocks, n, 0));
    }
  }

  // ----- steps

  /** Memory is left where the request has to take new memory, and rounding it does not wrap. */
  predicate CanAlloc(h: Heap, blocks: seq<Block>, size: u64)
  {
    && size <= TWO64 - 16
    && (UsesSlab(size) ==> Slab.CanServe(h.slab, size))
    && (Grows(blocks, size) ==> HasRoom(h.start, blocks, RoundUp(size), h.limit))
  }

  lemma SlabAllocStep(h: Heap, g: Ledger, size: u64) returns (g': Ledger)
    requires Inv(h, g) && UsesSlab(size) && Slab.CanServe(h.slab, size)
    ensures var (slab, n) := Slab.Alloc(h.slab, size);
            && Inv(h.(slab := slab), g') && n != 0 && n !in g.Live() && g'.Live() == g.Live()[n := size]
            && Slab.KeepsPages(h.slab, g.book, slab, g'.book)
    ensures g'.blocks == g.blocks
  {
    assert h.slab.Shape();
    hide Slab.Inv, Slab.Alloc, Slab.IsSlot, Slab.ClassFor, Slab.KeepsPages, Slab.CanServe, Tiles, LargeOk;
    var b := Slab.AllocStep(h.slab, g.book, size);
    var (slab, n) := Slab.Alloc(h.slab, size);
    g' := g.(book := b);
    assert Separate(h.(slab := slab), b.pages);
    PageWrite(h, g, slab.mem);
    NewSlotIsNotLarge(h, g, b.pages, n, Slab.ClassFor(size));
    SmallUpdate(g.book.live, g.large, n, size);
  }

  lemma SmallUpdate(small: map<nat, nat>, large: map<nat, nat>, n: nat, size: nat)
    requires n !in large
    ensures small[n := size] + large == (small + large)[n := size]
  {
  }

  lemma NewSlotIsNotLarge(h: Heap, g: Ledger, pages: map<nat, nat>, n: nat, c: nat)
    requires Inv(h, g) && c < Slab.CLASSES && Slab.IsSlot(pages, n, c)
    requires forall p :: p in pages && p !in g.book.pages ==> p == h.slab.bump
    ensures n !in g.large
  {
    assert h.limit <= n - 1;
    if n in g.large {
      BlockBounds(h, g, BlockOf(g.blocks, n, 0));
    }
  }

  /** Nothing in the first-fit region is a slot. */
  lemma LowIsNoSlot(h: Heap, g: Ledger, n: nat)
    requires Inv(h, g) && n <= h.limit
    ensures n !in g.book.live
  {
    if n in g.book.live {
      var c := SlotIsSlot(h, g, n);
      SlotAbove(h, g, n, c);
    }
  }

  lemma LargeBounds(h: Heap, g: Ledger, size: nat)
    requires Inv(h, g) && HasRoom(h.start, g.blocks, size, h.limit)
    ensures NextAddress(h.start, g.blocks) + HEADER_WORDS <= |h.slab.mem|
    ensures forall i :: 0 <= i < |g.blocks| ==> g.blocks[i].addr + 2 < |h.slab.mem|
  {
    forall i | 0 <= i < |g.blocks| ensures g.blocks[i].addr + 2 < |h.slab.mem| {
      BlockBounds(h, g, i);
    }
  }

  lemma ReuseLarge(blocks: seq<Block>, large: map<nat, nat>, k: nat, size: nat)
    requires LargeOk(blocks, large) && k < |blocks| && blocks[k].free && size <= blocks[k].bytes
    requires forall i, j :: 0 <= i < |blocks| && 0 <= j < |blocks| && i != j ==>
               blocks[i].Payload() != blocks[j].Payload()
    ensures LargeOk(blocks[k := blocks[k].(free := false)], large[blocks[k].Payload() := size])
    ensures blocks[k].Payload() !in large
  {
    var blocks', large' := blocks[k := blocks[k].(free := false)], large[blocks[k].Payload() := size];
    forall n | n in large' ensures BlockOf(blocks', n, 0) < |blocks'| {
      SamePayloads(blocks, blocks', n, 0);
      assert blocks'[k].Payload() == blocks[k].Payload();
    }
  }

  /** Reusing the first block that fits. */
  lemma ReuseStep(h: Heap, g: Ledger, k: nat, size: nat) returns (g': Ledger)
    requires Inv(h, g) && k < |g.blocks| && g.blocks[k].free && size <= g.blocks[k].bytes
    ensures var b := g.blocks[k];
            && b.addr + 1 < |h.slab.mem|
            && g'.blocks == g.blocks[k := b.(free := false)] && g'.book == g.book
            && Inv(h.(slab := h.slab.(mem := h.slab.mem[b.addr + 1 := WithLow(h.slab.mem[b.addr + 1], 0)])), g')
            && b.Payload() !in g.Live() && g'.Live() == g.Live()[b.Payload() := size]
  {
    hide Slab.Inv, Tiles, LargeOk, WithLow;
    var b := g.blocks[k];
    BlockBounds(h, g, k);
    g' := g.(blocks := g.blocks[k := b.(free := false)], large := g.large[b.Payload() := size]);
    SetFlag(h.slab.mem, h.start, g.blocks, h.limit, k, false);
    HeapWrite(h, g, h.slab.mem[b.addr + 1 := WithLow(h.slab.mem[b.addr + 1], 0)]);
    BlocksApart(h, g);
    ReuseLarge(g.blocks, g.large, k, size);
    LowIsNoSlot(h, g, b.Payload());
  }

  lemma BlocksApart(h: Heap, g: Ledger)
    requires Inv(h, g)
    ensures forall i, j :: 0 <= i < |g.blocks| && 0 <= j < |g.blocks| && i != j ==>
                             g.blocks[i].Payload() != g.blocks[j].Payload()
  {
    forall i, j | 0 <= i < |g.blocks| && 0 <= j < |g.blocks| && i != j
      ensures g.blocks[i].Payload() != g.blocks[j].Payload()
    {
      BlocksDisjoint(h.slab.mem, h.start, g.blocks, h.limit, i, j);
    }
  }

  lemma {:induction false} SamePayloads(blocks: seq<Block>, blocks': seq<Block>, n: nat, i: nat)
    requires |blocks| <= |blocks'| && i <= |blocks|
    requires forall j :: 0 <= j < |blocks| ==> blocks'[j].Payload() == blocks[j].Payload()
    ensures BlockOf(blocks, n, i) < |blocks| ==> BlockOf(blocks', n, i) == BlockOf(blocks, n, i)
    decreases |blocks| - i
  {
    if i == |blocks| {
    } else {
      SamePayloads(blocks, blocks', n, i + 1);
    }
  }

  lemma GrowLarge(blocks: seq<Block>, large: map<nat, nat>, b: Block, size: nat)
    requires LargeOk(blocks, large) && !b.free && size <= b.bytes
    requires forall i :: 0 <= i < |blocks| ==> blocks[i].Payload() != b.Payload()
    ensures LargeOk(blocks + [b], large[b.Payload() := size]) && b.Payload() !in large
  {
    assert BlockOf(blocks, b.Payload(), 0) == |blocks|;
    var blocks', large' := blocks + [b], large[b.Payload() := size];
    forall n | n in large' ensures BlockOf(blocks', n, 0) < |blocks'| {
      SamePayloads(blocks, blocks', n, 0);
      assert blocks'[|blocks|].Payload() == b.Payload();
    }
  }

  lemma NewPayload(h: Heap, g: Ledger)
    requires Inv(h, g)
    ensures forall i :: 0 <= i < |g.blocks| ==> g.blocks[i].Payload() < NextAddress(h.start, g.blocks) + HEADER_WORDS
  {
    var n := |g.blocks|;
    forall i | 0 <= i < n ensures g.blocks[i].Payload() < NextAddress(h.start, g.blocks) + HEADER_WORDS {
      BlockBounds(h, g, i);
      if i < n - 1 {
        BlockBounds(h, g, n - 1);
        Ordered(h.slab.mem, h.start, g.blocks, h.limit, i, n - 1);
      }
    }
  }

  lemma AppendBelow(h: Heap, g: Ledger, bytes: nat)
    requires Inv(h, g) && HasRoom(h.start, g.blocks, bytes, h.limit) && bytes < TWO64
    ensures NextAddress(h.start, g.blocks) + HEADER_WORDS <= |h.slab.mem|
    ensures forall i :: 0 <= i < |g.blocks| ==> g.blocks[i].addr + 2 < |h.slab.mem|
    ensures var mem' := Append(h.slab.mem, h.start, g.blocks, bytes);
            |mem'| == |h.slab.mem| && forall w :: h.limit <= w < |mem'| ==> mem'[w] == h.slab.mem[w]
  {
    LargeBounds(h, g, bytes);
    if g.blocks != [] {
      BlockBounds(h, g, |g.blocks| - 1);
    }
  }

  lemma GrownRegions(h: Heap, g: Ledger, bytes: nat)
    requires Inv(h, g) && HasRoom(h.start, g.blocks, bytes, h.limit) && 0 < bytes < TWO64 && bytes % 16 == 0
    ensures NextAddress(h.start, g.blocks) + HEADER_WORDS <= |h.slab.mem| && 8 * |h.slab.mem| <= TWO64
    ensures forall i :: 0 <= i < |g.blocks| ==> g.blocks[i].addr + 2 < |h.slab.mem|
    ensures var mem' := Append(h.slab.mem, h.start, g.blocks, bytes);
            && Slab.Inv(h.slab.(mem := mem'), g.book)
            && Tiles(mem', h.start, g.blocks + [Block(NextAddress(h.start, g.blocks), bytes, false)], h.limit)
  {
    PointerBounds(h, g, 0);
    hide Slab.Inv, Append, Tiles, LargeOk;
    AppendBelow(h, g, bytes);
    AppendTiles(h.slab.mem, h.start, g.blocks, h.limit, bytes);
    HeapWrite(h, g, Append(h.slab.mem, h.start, g.blocks, bytes));
  }

  /** Growing the heap by one block. */
  lemma GrowStep(h: Heap, g: Ledger, bytes: nat, size: nat) returns (g': Ledger)
    requires Inv(h, g) && HasRoom(h.start, g.blocks, bytes, h.limit)
    requires 0 < bytes < TWO64 && bytes % 16 == 0 && size <= bytes
    ensures NextAddress(h.start, g.blocks) + HEADER_WORDS <= |h.slab.mem| && 8 * |h.slab.mem| <= TWO64
    ensures forall i :: 0 <= i < |g.blocks| ==> g.blocks[i].addr + 2 < |h.slab.mem|
    ensures var a := NextAddress(h.start, g.blocks);
            && g'.blocks == g.blocks + [Block(a, bytes, false)] && g'.book == g.book
            && Inv(h.(slab := h.slab.(mem := Append(h.slab.mem, h.start, g.blocks, bytes))), g')
            && a + HEADER_WORDS !in g.Live() && g'.Live() == g.Live()[a + HEADER_WORDS := size]
  {
    hide Slab.Inv, Append, Tiles, LargeOk;
    var b := Block(NextAddress(h.start, g.blocks), bytes, false);
    g' := g.(blocks := g.blocks + [b], large := g.large[b.Payload() := size]);
    GrownRegions(h, g, bytes);
    NewPayload(h, g);
    GrowLarge(g.blocks, g.large, b, size);
    LowIsNoSlot(h, g, b.Payload());
  }

  /**
   `kalloc` on either path: a fresh pointer, the other live allocations kept,
   and the heap grown only when no free block fits.
   */
  lemma AllocStep(h: Heap, g: Ledger, size: u64) returns (g': Ledger)
    requires Inv(h, g) && CanAlloc(h, g.blocks, size)
    ensures AllocSafe(h, g.blocks, size)
    ensures var (h', blocks', n) := Alloc(h, g.blocks, size);
            && Inv(h', g') && g'.blocks == blocks' && h'.start == h.start && h'.limit == h.limit
            && n != 0 && n !in g.Live() && g'.Live() == g.Live()[n := size]
            && Slab.KeepsPages(h.slab, g.book, h'.slab, g'.book)
            && (|blocks'| > |g.blocks| ==>
                  !UsesSlab(size) && forall j :: 0 <= j < |g.blocks| ==>
                      !(g.blocks[j].free && g.blocks[j].bytes >= size))
  {
    CanAllocIsSafe(h, g, size);
    hide Slab.Inv, Slab.Alloc, Append, Tiles, LargeOk, Slab.CanServe;
    if UsesSlab(size) {
      g' := SlabAllocStep(h, g, size);
    } else {
      Slab.NoClassAbove1016(size);
      RoundUpFits(size);
      var k := FirstFit(g.blocks, RoundUp(size), 0);
      if k < |g.blocks| {
        g' := ReuseStep(h, g, k, size);
      } else {
        g' := GrowStep(h, g, RoundUp(size), size);
        assert forall j :: 0 <= j < |g.blocks| && g.blocks[j].free ==> g.blocks[j].bytes < RoundUp(size);
        SixteenFits(h, g, size);
      }
    }
  }

  /** Every word `kalloc` touches exists. */
  ghost predicate AllocSafe(h: Heap, blocks: seq<Block>, size: u64)
  {
    && h.slab.Shape() && (UsesSlab(size) ==> Slab.CanServe(h.slab, size))
    && (Grows(blocks, size) ==> NextAddress(h.start, blocks) + HEADER_WORDS <= |h.slab.mem|)
    && forall i :: 0 <= i < |blocks| ==> blocks[i].addr + 2 < |h.slab.mem|
  }

  lemma CanAllocIsSafe(h: Heap, g: Ledger, size: u64)
    requires Inv(h, g) && CanAlloc(h, g.blocks, size)
    ensures AllocSafe(h, g.blocks, size)
  {
    hide Slab.Inv, UsesSlab, Slab.CanServe, FirstFit;
    assert h.slab.Shape() by { PointerBounds(h, g, 0); }
    forall i | 0 <= i < |g.blocks| ensures g.blocks[i].addr + 2 < |h.slab.mem| {
      BlockBounds(h, g, i);
    }
  }

  /** Block sizes are multiples of 16, so a block that holds the request holds the rounded request. */
  lemma SixteenFits(h: Heap, g: Ledger, size: u64)
    requires Inv(h, g) && 0 < size <= TWO64 - 16
    ensures forall j :: 0 <= j < |g.blocks| && g.blocks[j].bytes >= size ==> g.blocks[j].bytes >= RoundUp(size)
  {
    forall j | 0 <= j < |g.blocks| && g.blocks[j].bytes >= size ensures g.blocks[j].bytes >= RoundUp(size) {
      assert BlockOk(h.slab.mem, g.blocks, j, h.limit);
    }
  }

  /** The block of a live large pointer. */
  lemma OwnerBlock(h: Heap, g: Ledger, n: nat) returns (k: nat)
    requires Inv(h, g) && n in g.large
    ensures k == BlockOf(g.blocks, n, 0) < |g.blocks| && g.blocks[k].Payload() == n
    ensures h.start <= g.blocks[k].addr && n + (g.large[n] + 7) / 8 <= g.blocks[k].End() <= h.limit <= |h.slab.mem|
    ensures g.blocks[k].bytes >= 16
  {
    hide Slab.Inv;
    k := BlockOf(g.blocks, n, 0);
    BlockBounds(h, g, k);
    assert BlockOk(h.slab.mem, g.blocks, k, h.limit);
  }

  lemma SmallRemoval(small: map<nat, nat>, large: map<nat, nat>, n: nat)
    requires n !in large
    ensures (map m | m in small && m != n :: small[m]) + large == (small + large) - {n}
  {
  }

  lemma LargeRemoval(small: map<nat, nat>, large: map<nat, nat>, n: nat)
    requires n !in small
    ensures small + (large - {n}) == (small + large) - {n}
  {
  }

  /** `kfree` of a live slot goes to the slab: the first-fit heap keeps its blocks. */
  lemma FreeSmallStep(h: Heap, g: Ledger, n: nat) returns (g': Ledger)
    requires Inv(h, g) && n in g.book.live
    ensures 3 <= n < |h.slab.mem| && h.slab.Shape()
    ensures var (h', blocks') := Free(h, g.blocks, n);
            && Inv(h', g') && blocks' == g.blocks == g'.blocks && g'.large == g.large
            && g'.book.pages == g.book.pages && h'.slab.bump == h.slab.bump
    ensures g'.Live() == g.Live() - {n}
  {
    assert h.slab.Shape();
    hide Slab.Inv, Slab.IsSlot, Tiles, LargeOk, Separate, Slab.HeaderClass;
    var c := SlotIsSlot(h, g, n);
    Slab.FreeStep(h.slab, g.book, n, c);
    SlotAbove(h, g, n, c);
    var slab := Slab.Free(h.slab, n).0;
    g' := g.(book := Slab.Returned(g.book, n, c));
    PageWrite(h, g, slab.mem);
    SameSeparation(h, slab, g.book.pages);
    SmallRemoval(g.book.live, g.large, n);
    assert Free(h, g.blocks, n) == (h.(slab := slab), g.blocks);
  }

  lemma SameSeparation(h: Heap, slab: Slab.State, pages: map<nat, nat>)
    requires Separate(h, pages) && slab.bump == h.slab.bump
    ensures Separate(h.(slab := slab), pages)
  {
  }

  lemma FreedLarge(blocks: seq<Block>, large: map<nat, nat>, k: nat)
    requires LargeOk(blocks, large) && k < |blocks|
    requires forall i, j :: 0 <= i < |blocks| && 0 <= j < |blocks| && i != j ==>
               blocks[i].Payload() != blocks[j].Payload()
    ensures LargeOk(blocks[k := blocks[k].(free := true)], large - {blocks[k].Payload()})
  {
    var blocks' := blocks[k := blocks[k].(free := true)];
    forall n | n in large - {blocks[k].Payload()} ensures BlockOf(blocks', n, 0) < |blocks'| {
      SamePayloads(blocks, blocks', n, 0);
    }
  }

  /** `kfree` of a live large pointer marks its block free: the slab keeps its lists. */
  lemma FreeLargeStep(h: Heap, g: Ledger, n: nat) returns (g': Ledger)
    requires Inv(h, g) && n in g.large
    ensures 3 <= n < |h.slab.mem| && h.slab.Shape()
    ensures var (h', blocks') := Free(h, g.blocks, n);
            && Inv(h', g') && blocks' == g'.blocks && g'.book == g.book && h'.slab.heads == h.slab.heads
            && h'.slab.bump == h.slab.bump
    ensures g'.Live() == g.Live() - {n}
  {
    assert h.slab.Shape();
    hide Slab.Inv, Tiles, LargeOk, WithLow, Separate, Slab.HeaderClass;
    LargeIsNoSlot(h, g, n);
    var k := OwnerBlock(h, g, n);
    SetFlag(h.slab.mem, h.start, g.blocks, h.limit, k, true);
    BlocksApart(h, g);
    FreedLarge(g.blocks, g.large, k);
    LowIsNoSlot(h, g, n);
    var mem' := h.slab.mem[n - 2 := WithLow(h.slab.mem[n - 2], 1)];
    HeapWrite(h, g, mem');
    SameSeparation(h, h.slab.(mem := mem'), g.book.pages);
    LargeRemoval(g.book.live, g.large, n);
    g' := g.(blocks := g.blocks[k := g.blocks[k].(free := true)], large := g.large - {n});
    assert Free(h, g.blocks, n) == (h.(slab := h.slab.(mem := mem')), g'.blocks);
  }

  /** A word inside the payload the owner of `n` asked for. */
  predicate InPayload(g: Ledger, n: nat, w: nat) { n in g.Live() && n <= w < n + (g.Live()[n] + 7) / 8 }

  lemma LargeStore(h: Heap, g: Ledger, n: nat, w: nat, v: u64)
    requires Inv(h, g) && n in g.large && n <= w < n + (g.large[n] + 7) / 8
    ensures w < |h.slab.mem| && Inv(h.(slab := h.slab.(mem := h.slab.mem[w := v])), g)
  {
    hide Slab.Inv, LargeOk, Tiles;
    var i := OwnerBlock(h, g, n);
    var mem' := h.slab.mem[w := v];
    forall j | 0 <= j < |g.blocks| ensures SameHeader(h.slab.mem, mem', g.blocks[j].addr) {
      if j != i {
        BlocksDisjoint(h.slab.mem, h.start, g.blocks, h.limit, i, j);
        BlockBounds(h, g, j);
      }
    }
    TilesFrame(h.slab.mem, mem', h.start, g.blocks, h.limit);
    HeapWrite(h, g, mem');
  }

  lemma SmallStore(h: Heap, g: Ledger, n: nat, w: nat, v: u64)
    requires Inv(h, g) && n in g.book.live && n <= w < n + (g.book.live[n] + 7) / 8
    ensures w < |h.slab.mem| && Inv(h.(slab := h.slab.(mem := h.slab.mem[w := v])), g)
  {
    var c := SlotIsSlot(h, g, n);
    assert Slab.SlotOk(h.slab.mem, g.book, n, c);
    hide Slab.Inv, Slab.IsSlot, LargeOk, Tiles;
    SlotAbove(h, g, n, c);
    Slab.SlotRoom(c, g.book.live[n]);
    Slab.StoreStep(h.slab, g.book, n, c, w, v);
    PageWrite(h, g, h.slab.mem[w := v]);
  }

  /** An owner may write anything to its payload. */
  lemma StoreStep(h: Heap, g: Ledger, n: nat, w: nat, v: u64)
    requires Inv(h, g) && InPayload(g, n, w)
    ensures w < |h.slab.mem| && Inv(h.(slab := h.slab.(mem := h.slab.mem[w := v])), g)
  {
    hide Inv;
    if n in g.large {
      LargeStore(h, g, n, w, v);
    } else {
      SmallStore(h, g, n, w, v);
    }
  }

  // ----- the theorem over runs

  /** A call or a write by an owner, or `vm_alloc_page` called for something else and a write to such a page. */
  datatype Op =
    | Kalloc(size: u64)
    | Kfree(ptr: nat)
    | Store(ptr: nat, word: nat, value: u64)
    | TakePage
    | Foreign(word: nat, value: u64)

  /** A word of a page that `vm_alloc_page` gave to another caller. */
  predicate Elsewhere(h: Heap, g: Ledger, w: nat)
  {
    h.limit <= w < h.slab.bump * Slab.PAGE_WORDS && w / Slab.PAGE_WORDS !in g.book.pages
  }

  /** What callers owe: memory for the request, and frees and writes only of what they hold. */
  ghost predicate Enabled(h: Heap, g: Ledger, op: Op)
  {
    match op
    case Kalloc(size) => CanAlloc(h, g.blocks, size)
    case Kfree(ptr) => ptr == 0 || ptr in g.Live()
    case Store(ptr, word, value) => InPayload(g, ptr, word)
    case TakePage => h.slab.HasRoom()
    case Foreign(word, value) => Elsewhere(h, g, word)
  }

  ghost predicate StepsTo(h: Heap, g: Ledger, op: Op, h': Heap, g': Ledger)
    requires Inv(h, g) && Enabled(h, g, op)
  {
    match op
    case Kalloc(size) =>
      CanAllocIsSafe(h, g, size);
      var (h1, blocks1, n) := Alloc(h, g.blocks, size);
      && h' == h1 && g'.blocks == blocks1 && n !in g.Live() && n != 0 && g'.Live() == g.Live()[n := size]
      && Slab.KeepsPages(h.slab, g.book, h'.slab, g'.book)
    case Kfree(ptr) =>
      PointerBounds(h, g, ptr);
      && (h', g'.blocks) == Free(h, g.blocks, ptr) && g'.Live() == g.Live() - {ptr}
      && Slab.KeepsPages(h.slab, g.book, h'.slab, g'.book)
    case Store(ptr, word, value) =>
      StoreStep(h, g, ptr, word, value);
      h' == h.(slab := h.slab.(mem := h.slab.mem[word := value])) && g' == g
    case TakePage =>
      h' == h.(slab := Slab.TakePage(h.slab)) && g' == g
    case Foreign(word, value) =>
      h' == h.(slab := h.slab.(mem := h.slab.mem[word := value])) && g' == g
  }

  /** A page taken by another caller is above everything: no block and no slot is in it. */
  lemma TakeStep(h: Heap, g: Ledger)
    requires Inv(h, g) && h.slab.HasRoom()
    ensures Inv(h.(slab := Slab.TakePage(h.slab)), g)
  {
    hide LargeOk, Tiles;
    var s := Slab.TakePage(h.slab);
    assert forall w :: 0 <= w < h.slab.bump * Slab.PAGE_WORDS ==> s.mem[w] == h.slab.mem[w];
    PageWrite(h, g, s.mem);
    Slab.ForeignWrites(h.slab, g.book, s.mem);
    Slab.LaterBump(h.slab.(mem := s.mem), g.book);
    hide Slab.Inv;
  }

  /** What another caller writes to its page. */
  lemma ForeignStep(h: Heap, g: Ledger, w: nat, v: u64)
    requires Inv(h, g) && Elsewhere(h, g, w)
    ensures w < |h.slab.mem| && Inv(h.(slab := h.slab.(mem := h.slab.mem[w := v])), g)
  {
    assert h.slab.Shape();
    hide Slab.Inv, LargeOk, Tiles;
    var mem' := h.slab.mem[w := v];
    PageWrite(h, g, mem');
    Slab.ForeignWrites(h.slab, g.book, mem');
  }

  lemma PointerBounds(h: Heap, g: Ledger, n: nat)
    requires Inv(h, g) && (n == 0 || n in g.Live())
    ensures h.slab.Shape() && n < |h.slab.mem| && (n == 0 || n >= 3)
  {
    if n in g.large {
      LargeIsNoSlot(h, g, n);
    } else if n in g.book.live {
      var c := SlotIsSlot(h, g, n);
    }
  }

  /** Every step keeps the invariant and changes the live allocations as its caller expects. */
  lemma StepKeepsInv(h: Heap, g: Ledger, op: Op) returns (h': Heap, g': Ledger)
    requires Inv(h, g) && Enabled(h, g, op)
    ensures Inv(h', g') && StepsTo(h, g, op, h', g')
  {
    hide Inv, Alloc, Free;
    match op
    case Kalloc(size) =>
      h', g' := KallocKeepsInv(h, g, op);
    case Kfree(ptr) =>
      h', g' := KfreeKeepsInv(h, g, op);
    case Store(ptr, word, value) =>
      StoreStep(h, g, ptr, word, value);
      h', g' := h.(slab := h.slab.(mem := h.slab.mem[word := value])), g;
    case TakePage =>
      PointerBounds(h, g, 0);
      TakeStep(h, g);
      h', g' := h.(slab := Slab.TakePage(h.slab)), g;
    case Foreign(word, value) =>
      ForeignStep(h, g, word, value);
      h', g' := h.(slab := h.slab.(mem := h.slab.mem[word := value])), g;
  }

  lemma KallocKeepsInv(h: Heap, g: Ledger, op: Op) returns (h': Heap, g': Ledger)
    requires Inv(h, g) && op.Kalloc? && Enabled(h, g, op)
    ensures Inv(h', g') && StepsTo(h, g, op, h', g')
  {
    CanAllocIsSafe(h, g, op.size);
    hide Inv;
    g' := AllocStep(h, g, op.size);
    h' := Alloc(h, g.blocks, op.size).0;
  }

  lemma KfreeKeepsInv(h: Heap, g: Ledger, op: Op) returns (h': Heap, g': Ledger)
    requires Inv(h, g) && op.Kfree? && Enabled(h, g, op)
    ensures Inv(h', g') && StepsTo(h, g, op, h', g')
  {
    hide Inv;
    PointerBounds(h, g, op.ptr);
    h', g' := Free(h, g.blocks, op.ptr).0, g;
    if op.ptr == 0 {
      NullIsNotLive(h, g);
    } else if op.ptr in g.large {
      g' := FreeLargeStep(h, g, op.ptr);
    } else {
      g' := FreeSmallStep(h, g, op.ptr);
    }
  }

  lemma NullIsNotLive(h: Heap, g: Ledger)
    requires Inv(h, g)
    ensures 0 !in g.Live()
  {
    if 0 in g.large {
      LargeIsNoSlot(h, g, 0);
    } else if 0 in g.book.live {
      var c := SlotIsSlot(h, g, 0);
    }
  }

  lemma LargeDisjoint(h: Heap, g: Ledger, n: nat, m: nat)
    requires Inv(h, g) && n in g.large && m in g.large && n != m
    ensures n + (g.large[n] + 7) / 8 <= m || m + (g.large[m] + 7) / 8 <= n
  {
    hide Slab.Inv, Tiles;
    var i := OwnerBlock(h, g, n);
    var j := OwnerBlock(h, g, m);
    BlocksDisjoint(h.slab.mem, h.start, g.blocks, h.limit, i, j);
  }

  lemma SmallAboveLarge(h: Heap, g: Ledger, n: nat, m: nat)
    requires Inv(h, g) && n in g.large && m in g.book.live
    ensures n + (g.large[n] + 7) / 8 <= m - 1 && m !in g.large
  {
    hide Slab.Inv, Tiles;
    var i := OwnerBlock(h, g, n);
    var c := SlotIsSlot(h, g, m);
    SlotAbove(h, g, m, c);
  }

  /** Live payloads never overlap, whichever arena they come from. */
  lemma LivePayloadsDisjoint(h: Heap, g: Ledger, n: nat, m: nat, w: nat)
    requires Inv(h, g) && n != m && InPayload(g, n, w)
    ensures !InPayload(g, m, w)
  {
    if m in g.Live() {
      if n in g.large && m in g.large {
        LargeDisjoint(h, g, n, m);
      } else if n in g.large {
        SmallAboveLarge(h, g, n, m);
      } else if m in g.large {
        SmallAboveLarge(h, g, m, n);
      } else {
        Slab.LiveSlotsDisjoint(h.slab, g.book, n, m);
      }
    }
  }

  lemma StepExists(h: Heap, g: Ledger, op: Op)
    requires Inv(h, g) && Enabled(h, g, op)
    ensures exists r: (Heap, Ledger) :: Inv(r.0, r.1) && StepsTo(h, g, op, r.0, r.1)
  {
    hide *;
    var h', g' := StepKeepsInv(h, g, op);
    var r := (h', g');
    assert Inv(r.0, r.1) && StepsTo(h, g, op, r.0, r.1);
  }

  ghost function Next(h: Heap, g: Ledger, op: Op): (r: (Heap, Ledger))
    requires Inv(h, g) && Enabled(h, g, op)
    ensures Inv(r.0, r.1) && StepsTo(h, g, op, r.0, r.1)
  {
    StepExists(h, g, op);
    var r: (Heap, Ledger) :| Inv(r.0, r.1) && StepsTo(h, g, op, r.0, r.1);
    r
  }

  ghost predicate Allowed(h: Heap, g: Ledger, ops: seq<Op>)
    requires Inv(h, g)
    decreases |ops|
  {
    ops == [] ||
    (Enabled(h, g, ops[0]) && var (h', g') := Next(h, g, ops[0]); Allowed(h', g', ops[1..]))
  }

  /** The heap and the ledger after `ops`. */
  ghost function Execute(h: Heap, g: Ledger, ops: seq<Op>): (Heap, Ledger)
    requires Inv(h, g) && Allowed(h, g, ops)
    decreases |ops|
  {
    if ops == [] then (h, g) else var (h', g') := Next(h, g, ops[0]); Execute(h', g', ops[1..])
  }

  /** The pages other callers take during the run. */
  ghost function TakenPages(h: Heap, g: Ledger, ops: seq<Op>): set<nat>
    requires Inv(h, g) && Allowed(h, g, ops)
    decreases |ops|
  {
    if ops == [] then {}
    else
      var (h', g') := Next(h, g, ops[0]);
      TakenBy(h, ops[0]) + TakenPages(h', g', ops[1..])
  }

  function TakenBy(h: Heap, op: Op): set<nat> { if op.TakePage? then {h.slab.bump} else {} }

  /**
   No page is lost: carved pages stay carved for their class, and a page handed
   out since then is carved unless another caller took it, which it never is.
   */
  ghost predicate PagesAccounted(h: Heap, g: Ledger, h': Heap, g': Ledger, taken: set<nat>)
  {
    && h.slab.bump <= h'.slab.bump
    && (forall p :: p in g.book.pages ==> p in g'.book.pages && g'.book.pages[p] == g.book.pages[p])
    && (forall p :: p in g'.book.pages && p !in g.book.pages ==> h.slab.bump <= p)
    && (forall p :: h.slab.bump <= p < h'.slab.bump ==> (p in g'.book.pages <==> p !in taken))
    && (forall p :: p in taken ==> h.slab.bump <= p < h'.slab.bump)
  }

  /** A live payload is in the first-fit region or in a carved page. */
  lemma PayloadPlace(h: Heap, g: Ledger, n: nat, w: nat)
    requires Inv(h, g) && InPayload(g, n, w)
    ensures !Elsewhere(h, g, w)
  {
    hide Tiles;
    if n in g.large {
      var k := OwnerBlock(h, g, n);
    } else {
      var c := SlotIsSlot(h, g, n);
      assert Slab.SlotOk(h.slab.mem, g.book, n, c);
      Slab.SlotRoom(c, g.book.live[n]);
      Slab.SlotWordsInPage(g.book.pages, n, c);
    }
  }

  /**
   Over every run of `kalloc`, `kfree`, writes by the owners, and other callers
   of `vm_alloc_page` that write to the pages they take: the blocks tile the
   heap, every slot of every carved page is live or once on its class's list
   with its header intact, every page is accounted for, no word belongs to two
   live payloads and none to another caller's page.
   */
  lemma {:induction false} HeapRun(h: Heap, g: Ledger, ops: seq<Op>)
    requires Inv(h, g) && Allowed(h, g, ops)
    ensures var (h', g') := Execute(h, g, ops);
            && Inv(h', g') && PagesAccounted(h, g, h', g', TakenPages(h, g, ops))
            && (forall n: nat, m: nat, w: nat :: n != m && InPayload(g', n, w) ==> !InPayload(g', m, w))
            && (forall n: nat, w: nat :: InPayload(g', n, w) ==> !Elsewhere(h', g', w))
    decreases |ops|
  {
    if ops == [] {
      SamePages(h, g);
      forall n: nat, m: nat, w: nat | n != m && InPayload(g, n, w) ensures !InPayload(g, m, w) {
        LivePayloadsDisjoint(h, g, n, m, w);
      }
      forall n: nat, w: nat | InPayload(g, n, w) ensures !Elsewhere(h, g, w) {
        PayloadPlace(h, g, n, w);
      }
    } else {
      hide Inv, InPayload, Enabled, StepsTo, PagesAccounted, Elsewhere;
      var (h', g') := Next(h, g, ops[0]);
      StepPages(h, g, ops[0], h', g');
      HeapRun(h', g', ops[1..]);
      var (h2, g2) := Execute(h', g', ops[1..]);
      ChainPages(h, g, h', g', h2, g2, TakenBy(h, ops[0]), TakenPages(h', g', ops[1..]));
    }
  }

  lemma SamePages(h: Heap, g: Ledger)
    ensures PagesAccounted(h, g, h, g, {})
  {
  }

  lemma StepPages(h: Heap, g: Ledger, op: Op, h': Heap, g': Ledger)
    requires Inv(h, g) && Enabled(h, g, op) && StepsTo(h, g, op, h', g')
    ensures PagesAccounted(h, g, h', g', TakenBy(h, op))
  {
    assert h.slab.Shape() && forall p :: p in g.book.pages ==> p < h.slab.bump;
    hide Inv, Slab.ClassFor, LargeHeap.Alloc;
  }

  lemma ChainPages(h: Heap, g: Ledger, h1: Heap, g1: Ledger, h2: Heap, g2: Ledger, first: set<nat>, rest: set<nat>)
    requires PagesAccounted(h, g, h1, g1, first) && PagesAccounted(h1, g1, h2, g2, rest)
    ensures PagesAccounted(h, g, h2, g2, first + rest)
  {
  }

  // ----- what the heap leaves alone

  /** Word `w` and the heap's place are the same after the step. */
  predicate Leaves(h: Heap, h': Heap, w: nat)
  {
    h'.limit == h.limit && w < |h.slab.mem| == |h'.slab.mem| && h'.slab.mem[w] == h.slab.mem[w]
  }

  lemma AllocLeaves(h: Heap, g: Ledger, size: u64, w: nat)
    requires Inv(h, g) && CanAlloc(h, g.blocks, size) && Elsewhere(h, g, w)
    ensures AllocSafe(h, g.blocks, size)
    ensures var h' := Alloc(h, g.blocks, size).0;
            Leaves(h, h', w)
  {
    assert h.slab.Shape();
    CanAllocIsSafe(h, g, size);
    hide Slab.Inv, Slab.Alloc, Append, Tiles, LargeOk, Slab.CanServe, WithLow;
    if UsesSlab(size) {
      var b := Slab.AllocStep(h.slab, g.book, size);
    } else {
      Slab.NoClassAbove1016(size);
      RoundUpFits(size);
      var k := FirstFit(g.blocks, RoundUp(size), 0);
      if k < |g.blocks| {
        BlockBounds(h, g, k);
      } else {
        AppendBelow(h, g, RoundUp(size));
      }
    }
  }

  lemma FreeLeaves(h: Heap, g: Ledger, n: nat, w: nat)
    requires Inv(h, g) && (n == 0 || n in g.Live()) && Elsewhere(h, g, w)
    ensures h.slab.Shape() && n < |h.slab.mem| && (n == 0 || n >= 3)
    ensures var h' := Free(h, g.blocks, n).0;
            Leaves(h, h', w)
  {
    PointerBounds(h, g, n);
    hide Slab.Inv, Tiles, LargeOk, WithLow, Slab.HeaderClass;
    if n in g.large {
      LargeIsNoSlot(h, g, n);
      var k := OwnerBlock(h, g, n);
    } else if n != 0 {
      var c := SlotIsSlot(h, g, n);
      Slab.SlotWordsInPage(g.book.pages, n, c);
    }
  }

  lemma StillElsewhere(h: Heap, g: Ledger, h': Heap, g': Ledger, taken: set<nat>, w: nat)
    requires PagesAccounted(h, g, h', g', taken) && Elsewhere(h, g, w) && h'.limit == h.limit
    ensures Elsewhere(h', g', w)
  {
  }

  lemma CallLeaves(h: Heap, g: Ledger, op: Op, h': Heap, g': Ledger, w: nat)
    requires Inv(h, g) && Enabled(h, g, op) && StepsTo(h, g, op, h', g') && Elsewhere(h, g, w)
    requires op.Kalloc? || op.Kfree?
    ensures Leaves(h, h', w)
  {
    hide Inv, Alloc, Free, Slab.KeepsPages, CanAlloc, Elsewhere;
    if op.Kalloc? {
      AllocLeaves(h, g, op.size, w);
    } else {
      FreeLeaves(h, g, op.ptr, w);
    }
  }

  lemma TakeLeaves(h: Heap, g: Ledger, w: nat)
    requires h.slab.Shape() && h.slab.HasRoom() && Elsewhere(h, g, w)
    ensures Leaves(h, h.(slab := Slab.TakePage(h.slab)), w)
  {
    assert w / Slab.PAGE_WORDS != h.slab.bump;
  }

  lemma UpdateLeaves(h: Heap, g: Ledger, word: nat, value: u64, w: nat)
    requires h.slab.Shape() && word < |h.slab.mem| && word != w && Elsewhere(h, g, w)
    ensures Leaves(h, h.(slab := h.slab.(mem := h.slab.mem[word := value])), w)
  {
  }

  lemma WriteLeaves(h: Heap, g: Ledger, op: Op, h': Heap, g': Ledger, w: nat)
    requires Inv(h, g) && Enabled(h, g, op) && StepsTo(h, g, op, h', g') && Elsewhere(h, g, w)
    requires op.Store? || op.TakePage? || (op.Foreign? && op.word != w)
    ensures Leaves(h, h', w)
  {
    hide Inv, InPayload, Slab.TakePage, Elsewhere, Leaves;
    PointerBounds(h, g, 0);
    if op.TakePage? {
      TakeLeaves(h, g, w);
    } else if op.Store? {
      PayloadPlace(h, g, op.ptr, op.word);
      StoreStep(h, g, op.ptr, op.word, op.value);
      UpdateLeaves(h, g, op.word, op.value, w);
    } else {
      ForeignStep(h, g, op.word, op.value);
      UpdateLeaves(h, g, op.word, op.value, w);
    }
  }

  /** `kalloc`, `kfree` and owners never write a page that another caller took. */
  lemma OthersUntouched(h: Heap, g: Ledger, op: Op, h': Heap, g': Ledger, w: nat)
    requires Inv(h, g) && Enabled(h, g, op) && StepsTo(h, g, op, h', g') && Elsewhere(h, g, w)
    requires op.Foreign? ==> op.word != w
    ensures Elsewhere(h', g', w) && w < |h.slab.mem| == |h'.slab.mem| && h'.slab.mem[w] == h.slab.mem[w]
  {
    hide Inv, Enabled, StepsTo, Elsewhere, PagesAccounted;
    StepPages(h, g, op, h', g');
    if op.Kalloc? || op.Kfree? {
      CallLeaves(h, g, op, h', g', w);
    } else {
      WriteLeaves(h, g, op, h', g', w);
    }
    StillElsewhere(h, g, h', g', TakenBy(h, op), w);
  }

  /** The state `kalloc_init` leaves: no page carved, and a heap that is one block of size 0. */
  lemma InitInv(h: Heap)
    requires h.slab.Shape() && h.slab.heads == [0, 0, 0, 0, 0, 0]
    requires 0 < h.start && h.start + HEADER_WORDS <= h.limit <= h.slab.bump * Slab.PAGE_WORDS
    requires h.slab.mem[h.start] == 0
    ensures Inv(h, Ledger(Slab.Book(map[], [[], [], [], [], [], []], map[]), [], map[]))
  {
  }
}
