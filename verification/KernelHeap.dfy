/** The allocators' static state, updated in place, proved against `Slab`, `LargeHeap` and `Kalloc`. */
module KernelHeap {
  import opened Words
  import opened LargeHeap
  import Slab
  import K = Kalloc

  /** `off` is where slot `k` of class `c` begins in its page. */
  ghost predicate OffsetOf(c: nat, k: nat, off: nat)
    requires c < Slab.CLASSES
  {
    off == k * Slab.SlotWords(c)
  }

  lemma CarveStart(s: Slab.State, c: nat)
    requires s.Shape() && s.HasRoom() && c < Slab.CLASSES
    ensures Slab.Carve(s, c, 0) == Slab.TakePage(s) && OffsetOf(c, 0, 0)
  {
  }

  lemma NextOffset(c: nat, k: nat, off: nat)
    requires c < Slab.CLASSES && OffsetOf(c, k, off)
    ensures OffsetOf(c, k + 1, off + Slab.SlotWords(c))
    ensures k < Slab.PerPage(c) <==> off + Slab.SlotWords(c) <= Slab.PAGE_WORDS
  {
    Slab.WholeSlots(c, k);
    hide Slab.PerPage, Slab.SlotWords;
    assert (k + 1) * Slab.SlotWords(c) == k * Slab.SlotWords(c) + Slab.SlotWords(c);
  }

  /** One more slot carved. */
  lemma CarveNext(s: Slab.State, c: nat, k: nat, off: nat)
    requires s.Shape() && s.HasRoom() && c < Slab.CLASSES && k < Slab.PerPage(c) && OffsetOf(c, k, off)
    ensures var n := Slab.SlotAt(s.bump, c, k);
            var t := Slab.Carve(s, c, k);
            && 0 < n < |t.mem| && c < |t.heads| && Slab.Header(c) < TWO64 && Slab.Address(t.heads[c]) < TWO64
            && n == s.bump * Slab.PAGE_WORDS + off + 1
            && Slab.Carve(s, c, k + 1) ==
               t.(mem := t.mem[n - 1 := Slab.Header(c)][n := Slab.Address(t.heads[c])], heads := t.heads[c := n])
  {
    Slab.HeaderRoundTrip(c);
    Slab.SlotPlace(s.bump, c, k);
    var o := Slab.IndexOnSlot(c, k, s.bump);
  }

  class KernelHeap {
    const ram: array<u64>
    const lists: array<nat>
    var bump: nat
    var start: nat
    ghost var limit: nat      // end of the region the first-fit heap may grow into
    ghost var ledger: K.Ledger

    function Value(): Slab.State
      reads this, ram, lists
    {
      Slab.State(ram[..], lists[..], bump)
    }

    ghost function Heap(): K.Heap
      reads this, ram, lists
    {
      K.Heap(Value(), start, limit)
    }

    ghost predicate Valid()
      reads this, ram, lists
    {
      K.Inv(Heap(), ledger)
    }

    method Write(w: nat, v: u64)
      requires w < ram.Length
      modifies ram
      ensures Value() == old(Value()).(mem := old(ram[..])[w := v])
    {
      ram[w] := v;
      assert ram[..] == old(ram[..])[w := v];
    }

    method SetHead(c: nat, n: nat)
      requires c < lists.Length
      modifies lists
      ensures Value() == old(Value()).(heads := old(lists[..])[c := n])
    {
      lists[c] := n;
      assert lists[..] == old(lists[..])[c := n];
    }

    /** `class_for`. */
    method ClassFor(size: u64) returns (c: int)
      ensures c == Slab.ClassFor(size)
    {
      var need := (size + 8) % TWO64;
      for i := 0 to Slab.CLASSES
        invariant Slab.ClassFor(size) == Slab.ClassFrom(need, i)
      {
        if need <= Slab.SlotBytes(i) {
          return i;
        }
      }
      return -1;
    }

    /** `vm_alloc_page`, seen from the allocator. */
    method TakePage() returns (page: nat)
      requires Value().Shape() && Value().HasRoom()
      modifies `bump, ram
      ensures page == old(bump) && Value() == Slab.TakePage(old(Value()))
    {
      page := bump;
      bump := bump + 1;
      for i := 0 to Slab.PAGE_WORDS
        invariant bump == page + 1
        invariant forall w :: 0 <= w < ram.Length ==>
                    ram[w] == if page * Slab.PAGE_WORDS <= w < page * Slab.PAGE_WORDS + i then 0 else old(ram[w])
      {
        ram[page * Slab.PAGE_WORDS + i] := 0;
      }
      assert ram[..] == Slab.TakePage(old(Value())).mem;
    }

    /** One turn of the loop in `refill`: write the header and push the slot. */
    method PushSlot(n: nat, c: nat)
      requires 0 < n < ram.Length && c < Slab.CLASSES == lists.Length
      requires Slab.Header(c) < TWO64 && Slab.Address(lists[c]) < TWO64
      modifies ram, lists
      ensures Value() == old(Value()).(mem := old(ram[..])[n - 1 := Slab.Header(c)][n := Slab.Address(old(lists[c]))],
                                       heads := old(lists[..])[c := n])
    {
      var head := lists[c];
      Write(n - 1, Slab.Header(c));
      Write(n, Slab.Address(head));
      SetHead(c, n);
    }

    /** `refill`: carve a fresh page into slots, each pushed on the list of class `c`. */
    method Refill(c: nat)
      requires Value().Shape() && Value().HasRoom() && c < Slab.CLASSES
      modifies `bump, ram, lists
      ensures Value() == Slab.Carve(old(Value()), c, Slab.PerPage(c))
    {
      CarveStart(Value(), c);
      hide Slab.PerPage, Slab.SlotWords, Slab.TakePage, Slab.Header, Slab.Carve, Slab.SlotAt, OffsetOf, Slab.Address;
      var page := TakePage();
      var slot := Slab.SlotWords(c);
      var off: nat, k: nat := 0, 0;
      while off + slot <= Slab.PAGE_WORDS
        invariant 0 <= k <= Slab.PerPage(c) && OffsetOf(c, k, off)
        invariant Value() == Slab.Carve(old(Value()), c, k)
        decreases Slab.PerPage(c) - k
      {
        NextOffset(c, k, off);
        CarveNext(old(Value()), c, k, off);
        PushSlot(page * Slab.PAGE_WORDS + off + 1, c);
        off, k := off + slot, k + 1;
      }
      NextOffset(c, k, off);
    }

    /** `slab_alloc`; 0 is the null pointer. */
    method SlabAlloc(size: u64) returns (n: nat)
      requires Slab.CanServe(Value(), size)
      modifies `bump, ram, lists
      ensures (Value(), n) == Slab.Alloc(old(Value()), size)
    {
      var c := ClassFor(size);
      if c < 0 {
        return 0;
      }
      if lists[c] == 0 {
        Refill(c);
      }
      n := lists[c];
      SetHead(c, ram[n] / 8);
    }

    /** `slab_free`. */
    method SlabFree(n: nat) returns (taken: bool)
      requires Value().Shape() && n < ram.Length
      modifies ram, lists
      ensures (Value(), taken) == Slab.Free(old(Value()), n)
    {
      if n == 0 {
        return false;
      }
      var header := ram[n - 1];
      if header % TWO32 != Slab.MAGIC || header / TWO32 >= Slab.CLASSES {
        return false;
      }
      var c := header / TWO32;
      Write(n, Slab.Address(lists[c]));
      SetHead(c, n);
      return true;
    }

    /** The first-fit walk of `kalloc` over the headers in memory. */
    method FindFit(size: nat, ghost blocks: seq<Block>, ghost limit: nat) returns (current: nat, found: bool)
      requires Tiles(ram[..], start, blocks, limit)
      ensures found <==> FirstFit(blocks, size, 0) < |blocks|
      ensures found ==> current == blocks[FirstFit(blocks, size, 0)].addr
      ensures !found ==> current == if blocks == [] then start else blocks[|blocks| - 1].addr
    {
      current, found := start, false;
      ghost var i := 0;
      Cursor(ram[..], start, blocks, limit, 0);
      while ram[current] != 0
        invariant blocks == [] ==> i == 0 && current == start
        invariant blocks != [] ==> 0 <= i < |blocks| && current == blocks[i].addr
        invariant current + 2 < ram.Length && (ram[current] == 0 <==> blocks == [])
        invariant FirstFit(blocks, size, 0) == FirstFit(blocks, size, i)
        decreases |blocks| - i
      {
        assert BlockOk(ram[..], blocks, i, limit);
        if ram[current + 1] % TWO32 != 0 && ram[current] >= size {
          found := true;
          return;
        }
        if ram[current + 2] == 0 {
          return;
        }
        current := ram[current + 2] / 8;
        i := i + 1;
        Cursor(ram[..], start, blocks, limit, i);
      }
    }

    /** `kalloc` past the slab. */
    method LargeAlloc(size: u64, ghost blocks: seq<Block>, ghost limit: nat) returns (n: nat)
      requires Tiles(ram[..], start, blocks, limit)
      requires FirstFit(blocks, size, 0) == |blocks| ==> NextAddress(start, blocks) + HEADER_WORDS <= ram.Length
      requires forall i :: 0 <= i < |blocks| ==> blocks[i].addr + 2 < ram.Length
      modifies ram
      ensures var (mem, _, p) := LargeHeap.Alloc(old(ram[..]), start, blocks, size); ram[..] == mem && n == p
      ensures Value() == old(Value()).(mem := ram[..])
    {
      Cursor(ram[..], start, blocks, limit, if blocks == [] then 0 else |blocks| - 1);
      assert 8 * ram.Length <= TWO64;
      var current, found := FindFit(size, blocks, limit);
      hide Tiles, WithLow, FirstFit, HasRoom;
      if found {
        Write(current + 1, WithLow(ram[current + 1], 0));
        return current + HEADER_WORDS;
      }
      n := Grow(current, size, blocks);
    }

    /** A new last block after `current`, where the walk ended. */
    method Grow(current: nat, size: u64, ghost blocks: seq<Block>) returns (n: nat)
      requires NextAddress(start, blocks) + HEADER_WORDS <= ram.Length && 8 * ram.Length <= TWO64
               && current + 2 < ram.Length
      requires current == if blocks == [] then start else blocks[|blocks| - 1].addr
      requires if blocks == [] then ram[current] == 0 else ram[current] == blocks[|blocks| - 1].bytes > 0
      modifies ram
      ensures ram[..] == Append(old(ram[..]), start, blocks, size) && n == NextAddress(start, blocks) + HEADER_WORDS
      ensures Value() == old(Value()).(mem := ram[..])
    {
      hide WithLow;
      var next := if ram[current] == 0 then start else current + HEADER_WORDS + ram[current] / 8;
      assert next == NextAddress(start, blocks);
      Write(next, size);
      Write(next + 1, WithLow(ram[next + 1], 0));
      Write(next + 2, 0);
      if current != next {
        Write(current + 2, 8 * next);
      }
      return next + HEADER_WORDS;
    }

    /** `kalloc_init`; `heapWord` is `_kernel_end` rounded up to 16 bytes. */
    method KallocInit(heapWord: nat, ghost end: nat)
      requires 0 < heapWord && heapWord + HEADER_WORDS <= ram.Length
      modifies this, ram
      ensures Value().heads == old(Value()).heads && Value().bump == old(Value()).bump
      ensures old(start) != 0 ==> Heap() == old(Heap()) && ledger == old(ledger)
      ensures old(start) == 0 ==> start == heapWord && limit == end
      ensures (old(start) == 0 && Value().Shape() && lists[..] == [0, 0, 0, 0, 0, 0]
               && heapWord + HEADER_WORDS <= end <= bump * Slab.PAGE_WORDS) ==> Valid()
    {
      if start != 0 {
        return;
      }
      start := heapWord;
      ram[start] := 0;
      ram[start + 1] := WithLow(ram[start + 1], 1);
      ram[start + 2] := 0;
      limit := end;
      ledger := K.Ledger(Slab.Book(map[], [[], [], [], [], [], []], map[]), [], map[]);
      if Value().Shape() && lists[..] == [0, 0, 0, 0, 0, 0]
         && heapWord + HEADER_WORDS <= end <= bump * Slab.PAGE_WORDS {
        K.InitInv(Heap());
      }
    }

    /** `kalloc`, step by step: the slab first for small requests, the first-fit heap if it has no class. */
    method AllocBytes(size: u64, ghost blocks: seq<Block>) returns (n: nat)
      requires Tiles(ram[..], start, blocks, limit) && K.AllocSafe(Heap(), blocks, size)
      requires K.UsesSlab(size) ==> Slab.Alloc(Value(), size).1 != 0
      modifies `bump, ram, lists
      ensures var (h, _, p) := K.Alloc(old(Heap()), blocks, size); Heap() == h && n == p
    {
      hide Tiles, LargeHeap.Alloc, Slab.ClassFor, HasRoom, NextAddress, Slab.Stocked;
      if size <= 1024 {
        n := SlabAlloc(size);
        if n != 0 {
          return;
        }
      }
      assert !K.UsesSlab(size) && Value() == old(Value());
      n := LargeAlloc((size + 15) % TWO64 / 16 * 16, blocks, limit);
    }

    /** `kalloc`: the new allocation is disjoint from the live ones because the invariant is kept. */
    method Kalloc(size: u64) returns (n: nat)
      requires Valid() && K.CanAlloc(Heap(), ledger.blocks, size)
      modifies this, ram, lists
      ensures Valid() && start == old(start) && limit == old(limit)
      ensures n != 0 && n !in old(ledger).Live() && ledger.Live() == old(ledger).Live()[n := size]
      ensures Slab.KeepsPages(old(Value()), old(ledger).book, Value(), ledger.book)
    {
      K.CanAllocIsSafe(Heap(), ledger, size);
      assert Tiles(ram[..], start, ledger.blocks, limit);
      hide K.Inv, Tiles, Slab.Alloc, LargeHeap.Alloc, K.UsesSlab, HasRoom;
      ghost var after := K.AllocStep(Heap(), ledger, size);
      n := AllocBytes(size, ledger.blocks);
      ledger := after;
    }

    /** `kfree`, step by step: the slab looks at the word before the pointer first. */
    method FreeBytes(n: nat, ghost blocks: seq<Block>)
      requires Value().Shape() && n < ram.Length && (n == 0 || n >= 3)
      modifies ram, lists
      ensures Heap() == K.Free(old(Heap()), blocks, n).0
    {
      if n == 0 {
        return;
      }
      var taken := SlabFree(n);
      if taken {
        return;
      }
      Write(n - 2, WithLow(ram[n - 2], 1));
    }

    /** `kfree` of null or of a live pointer. */
    method Kfree(n: nat)
      requires Valid() && (n == 0 || n in ledger.Live())
      modifies this, ram, lists
      ensures Valid() && start == old(start) && limit == old(limit)
      ensures ledger.Live() == old(ledger).Live() - {n}
    {
      hide K.Inv;
      K.PointerBounds(Heap(), ledger, n);
      ghost var after := ledger;
      if n == 0 {
        K.NullIsNotLive(Heap(), ledger);
      } else if n in ledger.large {
        after := K.FreeLargeStep(Heap(), ledger, n);
      } else {
        after := K.FreeSmallStep(Heap(), ledger, n);
      }
      FreeBytes(n, ledger.blocks);
      ledger := after;
    }
  }

  /** What the walk sees at its `i`-th stop. */
  lemma Cursor(mem: seq<u64>, start: nat, blocks: seq<Block>, limit: nat, i: nat)
    requires Tiles(mem, start, blocks, limit) && (if blocks == [] then i == 0 else i < |blocks|)
    ensures blocks == [] ==> start + 2 < |mem| && mem[start] == 0
    ensures blocks != [] ==> blocks[i].addr + 2 < |mem| && mem[blocks[i].addr] == blocks[i].bytes > 0
  {
    if blocks != [] {
      assert BlockOk(mem, blocks, i, limit);
    }
  }
}
