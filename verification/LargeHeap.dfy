/** The first-fit list of `kalloc.c`: blocks with three-word headers that tile one range of memory. */
module LargeHeap {
  import opened Words

  const HEADER_WORDS: nat := 3

  /** A block: the word index of its header, its payload bytes and whether it is free. */
  datatype Block = Block(addr: nat, bytes: nat, free: bool)
  {
    function Payload(): nat { addr + HEADER_WORDS }

    function End(): nat { addr + HEADER_WORDS + bytes / 8 }
  }

  /** `(size + 15) & ~15` on 64 bits. */
  function RoundUp(size: u64): nat { (size + 15) % TWO64 / 16 * 16 }

  /** Rounding yields a nonzero multiple of 16 that holds the request unless the sum wraps. */
  lemma RoundUpFits(size: u64)
    requires size > 0
    ensures RoundUp(size) % 16 == 0
    ensures RoundUp(size) >= size <==> size <= TWO64 - 16
    ensures RoundUp(size) == 0 <==> size > TWO64 - 16
  {
  }

  /** The low half of a word: `is_free` is a 32-bit field followed by padding. */
  function WithLow(w: u64, v: u32): u64 { w / TWO32 * TWO32 + v }

  /** The header of block `i` in memory, and the tiling with its successor. */
  ghost predicate BlockOk(mem: seq<u64>, blocks: seq<Block>, i: nat, limit: nat)
    requires i < |blocks|
  {
    var b := blocks[i];
    && 0 < b.bytes && b.bytes % 16 == 0 && b.End() <= limit <= |mem|
    && mem[b.addr] == b.bytes
    && (mem[b.addr + 1] % TWO32 != 0 <==> b.free)
    && (if i + 1 < |blocks| then mem[b.addr + 2] == 8 * blocks[i + 1].addr && blocks[i + 1].addr == b.End()
        else mem[b.addr + 2] == 0)
  }

  /** From `start`, memory holds exactly `blocks`, end to end; an empty heap is a block of size 0. */
  ghost predicate Tiles(mem: seq<u64>, start: nat, blocks: seq<Block>, limit: nat)
  {
    && 0 < start && start + HEADER_WORDS <= limit <= |mem| && 8 * |mem| <= TWO64
    && (if blocks == [] then mem[start] == 0 else blocks[0].addr == start)
    && (forall i :: 0 <= i < |blocks| ==> BlockOk(mem, blocks, i, limit))
  }

  lemma {:induction false} Ordered(mem: seq<u64>, start: nat, blocks: seq<Block>, limit: nat, i: nat, j: nat)
    requires Tiles(mem, start, blocks, limit) && i < j < |blocks|
    ensures blocks[i].End() <= blocks[j].addr
    decreases j - i
  {
    assert BlockOk(mem, blocks, i, limit);
    if i + 1 == j {
    } else {
      assert BlockOk(mem, blocks, i + 1, limit);
      Ordered(mem, start, blocks, limit, i + 1, j);
    }
  }

  /** No two blocks share a word, headers included. */
  lemma BlocksDisjoint(mem: seq<u64>, start: nat, blocks: seq<Block>, limit: nat, i: nat, j: nat)
    requires Tiles(mem, start, blocks, limit) && i < |blocks| && j < |blocks| && i != j
    ensures blocks[i].End() <= blocks[j].addr || blocks[j].End() <= blocks[i].addr
  {
    if i < j {
      Ordered(mem, start, blocks, limit, i, j);
    } else {
      Ordered(mem, start, blocks, limit, j, i);
    }
  }

  lemma FirstAddress(mem: seq<u64>, start: nat, blocks: seq<Block>, limit: nat, i: nat)
    requires Tiles(mem, start, blocks, limit) && i < |blocks|
    ensures start <= blocks[i].addr
  {
    if i > 0 {
      Ordered(mem, start, blocks, limit, 0, i);
    }
  }

  /** The first free block at or after `i` that holds `size` bytes, or the number of blocks. */
  function FirstFit(blocks: seq<Block>, size: nat, i: nat): (k: nat)
    requires i <= |blocks|
    ensures i <= k <= |blocks|
    ensures k < |blocks| ==> blocks[k].free && blocks[k].bytes >= size
    ensures forall j :: i <= j < k ==> !(blocks[j].free && blocks[j].bytes >= size)
    decreases |blocks| - i
  {
    if i == |blocks| then i
    else if blocks[i].free && blocks[i].bytes >= size then i
    else FirstFit(blocks, size, i + 1)
  }

  /** Where the heap grows. */
  function NextAddress(start: nat, blocks: seq<Block>): nat
  {
    if blocks == [] then start else blocks[|blocks| - 1].End()
  }

  /** There is room for a block of `size` bytes below `limit`. */
  predicate HasRoom(start: nat, blocks: seq<Block>, size: nat, limit: nat)
  {
    NextAddress(start, blocks) + HEADER_WORDS + size / 8 <= limit
  }

  /** Memory after a new last block of `size` bytes is written and linked. */
  function Append(mem: seq<u64>, start: nat, blocks: seq<Block>, size: nat): seq<u64>
    requires NextAddress(start, blocks) + HEADER_WORDS <= |mem| && size < TWO64 && 8 * |mem| <= TWO64
    requires blocks != [] ==> blocks[|blocks| - 1].addr + 2 < |mem|
  {
    var a := NextAddress(start, blocks);
    var mem1 := mem[a := size][a + 1 := WithLow(mem[a + 1], 0)][a + 2 := 0];
    if blocks == [] then mem1 else mem1[blocks[|blocks| - 1].addr + 2 := 8 * a]
  }

  /** The part of `kalloc` past the slab: first fit, else grow. Memory, blocks and payload pointer. */
  function Alloc(mem: seq<u64>, start: nat, blocks: seq<Block>, size: nat): (seq<u64>, seq<Block>, nat)
    requires FirstFit(blocks, size, 0) == |blocks| ==> NextAddress(start, blocks) + HEADER_WORDS <= |mem|
    requires size < TWO64 && 8 * |mem| <= TWO64
    requires forall i :: 0 <= i < |blocks| ==> blocks[i].addr + 2 < |mem|
  {
    var k := FirstFit(blocks, size, 0);
    if k < |blocks| then
      var b := blocks[k];
      (mem[b.addr + 1 := WithLow(mem[b.addr + 1], 0)], blocks[k := b.(free := false)], b.Payload())
    else
      var a := NextAddress(start, blocks);
      (Append(mem, start, blocks, size), blocks + [Block(a, size, false)], a + HEADER_WORDS)
  }

  /** Setting `is_free` of one block changes that flag and nothing else. */
  lemma SetFlag(mem: seq<u64>, start: nat, blocks: seq<Block>, limit: nat, k: nat, free: bool)
    requires Tiles(mem, start, blocks, limit) && k < |blocks|
    ensures var a := blocks[k].addr + 1;
            a < |mem| && Tiles(mem[a := WithLow(mem[a], if free then 1 else 0)], start,
                               blocks[k := blocks[k].(free := free)], limit)
  {
    assert BlockOk(mem, blocks, k, limit);
    var a := blocks[k].addr + 1;
    var mem', blocks' := mem[a := WithLow(mem[a], if free then 1 else 0)], blocks[k := blocks[k].(free := free)];
    forall i | 0 <= i < |blocks'| ensures BlockOk(mem', blocks', i, limit) {
      assert BlockOk(mem, blocks, i, limit);
      if i != k {
        BlocksDisjoint(mem, start, blocks, limit, i, k);
      }
    }
  }

  /** What the words of a new last block and of the link to it hold. */
  lemma Appended(mem: seq<u64>, start: nat, blocks: seq<Block>, limit: nat, size: nat)
    requires Tiles(mem, start, blocks, limit) && HasRoom(start, blocks, size, limit) && size < TWO64
    ensures blocks != [] ==> blocks[|blocks| - 1].addr + 2 < NextAddress(start, blocks)
    ensures var mem', a := Append(mem, start, blocks, size), NextAddress(start, blocks);
            && |mem'| == |mem| && mem'[a] == size && mem'[a + 1] % TWO32 == 0 && mem'[a + 2] == 0
            && (forall w :: 0 <= w < a && (blocks != [] ==> w != blocks[|blocks| - 1].addr + 2) ==> mem'[w] == mem[w])
            && (blocks != [] ==> mem'[blocks[|blocks| - 1].addr + 2] == 8 * a)
  {
    if blocks != [] {
      assert BlockOk(mem, blocks, |blocks| - 1, limit);
    }
    assert WithLow(mem[NextAddress(start, blocks) + 1], 0) % TWO32 == 0;
    hide WithLow;
  }

  lemma AppendTiles(mem: seq<u64>, start: nat, blocks: seq<Block>, limit: nat, size: nat)
    requires Tiles(mem, start, blocks, limit) && HasRoom(start, blocks, size, limit)
    requires 0 < size < TWO64 && size % 16 == 0
    ensures blocks != [] ==> blocks[|blocks| - 1].addr + 2 < |mem|
    ensures Tiles(Append(mem, start, blocks, size), start,
                  blocks + [Block(NextAddress(start, blocks), size, false)], limit)
  {
    Appended(mem, start, blocks, limit, size);
    hide Append;
    var a, n := NextAddress(start, blocks), |blocks|;
    var mem', blocks' := Append(mem, start, blocks, size), blocks + [Block(a, size, false)];
    forall i | 0 <= i < |blocks'| ensures BlockOk(mem', blocks', i, limit) {
      if i < n {
        assert BlockOk(mem, blocks, i, limit);
        assert blocks'[i] == blocks[i];
        if i < n - 1 {
          Ordered(mem, start, blocks, limit, i, n - 1);
          assert blocks'[i + 1] == blocks[i + 1];
        }
      }
    }
  }

  predicate SameHeader(mem: seq<u64>, mem': seq<u64>, a: nat)
  {
    a + 2 < |mem| == |mem'| ==> mem'[a] == mem[a] && mem'[a + 1] == mem[a + 1] && mem'[a + 2] == mem[a + 2]
  }

  /** Writes outside the headers leave the list as it is. */
  lemma TilesFrame(mem: seq<u64>, mem': seq<u64>, start: nat, blocks: seq<Block>, limit: nat)
    requires Tiles(mem, start, blocks, limit) && |mem'| == |mem|
    requires blocks == [] ==> mem'[start] == mem[start]
    requires forall i :: 0 <= i < |blocks| ==> SameHeader(mem, mem', blocks[i].addr)
    ensures Tiles(mem', start, blocks, limit)
  {
    forall i | 0 <= i < |blocks| ensures BlockOk(mem', blocks, i, limit) {
      assert BlockOk(mem, blocks, i, limit);
    }
  }
}
