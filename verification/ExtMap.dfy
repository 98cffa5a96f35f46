/**
 The ext2 block map: 12 direct pointers, then single, double and triple indirect trees
 (`map_indirect` of `extfs.c`).
 */
module ExtMap {
  import opened Words
  import opened Bytes
  import opened ExtDisk
  import Disk

  /** A mounted volume: first sector of the partition, and bytes per block. */
  datatype Volume = Volume(base: nat, blockSize: nat)
  {
    /** The sizes `extfs_mount` accepts. */
    predicate Valid() { blockSize == 1024 || blockSize == 2048 || blockSize == 4096 }

    /** Disk offset of a block. */
    function At(block: nat): nat { base * SECTOR + block * blockSize }

    /** Pointers per block. */
    function Per(): (p: nat)
      requires Valid()
      ensures p > 0 && 4 * p == blockSize
    {
      blockSize / 4
    }

    /** Pointers below a doubly indirect block. */
    function Square(): (s: nat)
      requires Valid()
      ensures s > 0
    {
      assert Per() * Per() > 0;
      Per() * Per()
    }
  }

  /** Two disks of the same size hold the same bytes in `block`. */
  ghost predicate SameBlock(v: Volume, a: seq<byte>, b: seq<byte>, block: nat)
  {
    |a| == |b| && forall i :: v.At(block) <= i < v.At(block) + v.blockSize && i < |a| ==> a[i] == b[i]
  }

  function BlockBytes(v: Volume, disk: seq<byte>, block: nat): seq<byte>
    requires v.At(block) + v.blockSize <= |disk|
  {
    disk[v.At(block)..v.At(block) + v.blockSize]
  }

  /** `read_block_full`. */
  method ReadBlockFull(v: Volume, dev: Disk.Device, block: nat) returns (r: Option<seq<byte>>)
    requires v.Valid() && WholeSectors(dev.bytes)
    ensures r == if v.At(block) + v.blockSize <= |dev.bytes| then Some(BlockBytes(v, dev.bytes, block)) else None
  {
    r := ReadBytes(dev, v.base, block * v.blockSize, v.blockSize);
  }

  /** Pointer `idx` of a block; 0 when its sector cannot be read. */
  function PtrAt(v: Volume, disk: seq<byte>, block: nat, idx: nat): u32
  {
    if SectorEnd(v, block, idx) <= |disk| then
      PtrInside(v, block, idx);
      Le32At(disk, v.At(block) + 4 * idx)
    else 0
  }

  /** End of the sector that holds pointer `idx`. */
  function SectorEnd(v: Volume, block: nat, idx: nat): nat { v.At(block) + (idx / 128 + 1) * SECTOR }

  lemma PtrInside(v: Volume, block: nat, idx: nat)
    ensures 4 * idx == idx / 128 * SECTOR + idx % 128 * 4
    ensures v.At(block) + 4 * idx + 4 <= SectorEnd(v, block, idx)
  {
    var q, r := idx / 128, idx % 128;
    assert idx == 128 * q + r;
  }

  /** `read_u32_block`: through the sector that holds the pointer. */
  method ReadU32Block(v: Volume, dev: Disk.Device, block: nat, idx: nat) returns (r: u32)
    requires WholeSectors(dev.bytes)
    ensures r == PtrAt(v, dev.bytes, block, idx)
  {
    var whichSec, off := idx / 128, idx % 128 * 4;
    var sec := ReadBytes(dev, v.base, block * v.blockSize + whichSec * SECTOR, SECTOR);
    PtrInside(v, block, idx);
    if sec.None? {
      return 0;
    }
    ghost var p := v.At(block) + whichSec * SECTOR;
    SliceOfSlice(dev.bytes, p, p + SECTOR, off, off + 4);
    SameField(sec.value, dev.bytes, off, p + off);
    return Le32At(sec.value, off);
  }

  lemma PtrFrame(v: Volume, a: seq<byte>, b: seq<byte>, block: nat, idx: nat)
    requires v.Valid() && idx < v.Per() && SameBlock(v, a, b, block)
    ensures PtrAt(v, a, block, idx) == PtrAt(v, b, block, idx)
  {
    if SectorEnd(v, block, idx) <= |a| {
      PtrInside(v, block, idx);
      var o := v.At(block) + 4 * idx;
      SameSlice(a, b, o, o + 4);
      SameField(a, b, o, o);
    }
  }

  // ----- the trees

  /** `p` to the power `n`. */
  function Power(p: nat, n: nat): nat { if n == 0 then 1 else Times(p, Power(p, n - 1)) }

  /** The blocks below `block` in order, `level` pointer blocks deep; a null pointer stands for a run of holes. */
  ghost function Flat(v: Volume, disk: seq<byte>, block: nat, level: nat): seq<nat>
    requires v.Valid()
    decreases level, 1, 0
  {
    if level == 0 then [block] else FlatFrom(v, disk, block, level, 0)
  }

  /** The children of `block` from pointer `i` on. */
  ghost function FlatFrom(v: Volume, disk: seq<byte>, block: nat, level: nat, i: nat): seq<nat>
    requires v.Valid() && level > 0 && i <= v.Per()
    decreases level, 0, v.Per() - i
  {
    if i == v.Per() then []
    else Flat(v, disk, Child(v, disk, block, i), level - 1) + FlatFrom(v, disk, block, level, i + 1)
  }

  function Child(v: Volume, disk: seq<byte>, block: nat, i: nat): nat
  {
    if block == 0 then 0 else PtrAt(v, disk, block, i)
  }

  lemma {:induction false} FlatLength(v: Volume, disk: seq<byte>, block: nat, level: nat)
    requires v.Valid()
    ensures |Flat(v, disk, block, level)| == Power(v.Per(), level)
    decreases level, 1, 0
  {
    if level == 0 {
    } else {
      FlatFromLength(v, disk, block, level, 0);
    }
  }

  lemma {:induction false} FlatFromLength(v: Volume, disk: seq<byte>, block: nat, level: nat, i: nat)
    requires v.Valid() && level > 0 && i <= v.Per()
    ensures |FlatFrom(v, disk, block, level, i)| == Times(v.Per() - i, Power(v.Per(), level - 1))
    decreases level, 0, v.Per() - i
  {
    if i == v.Per() {
    } else {
      FlatLength(v, disk, Child(v, disk, block, i), level - 1);
      FlatFromLength(v, disk, block, level, i + 1);
    }
  }

  /** The `q`-th child's part starts `q` whole parts in. */
  lemma {:induction false} FlatAt(v: Volume, disk: seq<byte>, block: nat, level: nat, i: nat, q: nat, r: nat)
    requires v.Valid() && level > 0 && i <= q < v.Per() && r < Power(v.Per(), level - 1)
    ensures var k := Times(q - i, Power(v.Per(), level - 1)) + r;
            && k < |FlatFrom(v, disk, block, level, i)|
            && r < |Flat(v, disk, Child(v, disk, block, q), level - 1)|
            && FlatFrom(v, disk, block, level, i)[k] == Flat(v, disk, Child(v, disk, block, q), level - 1)[r]
    decreases q - i
  {
    hide Volume.Per, Volume.Valid, Child;
    FlatLength(v, disk, Child(v, disk, block, i), level - 1);
    FlatLength(v, disk, Child(v, disk, block, q), level - 1);
    if i == q {
    } else {
      FlatAt(v, disk, block, level, i + 1, q, r);
    }
  }

  // ----- the map

  const DIRECT: nat := 12

  /** Block pointer `i` of an inode. */
  function InodePtr(inode: seq<byte>, i: nat): u32
    requires |inode| >= 100 && i < 15
  {
    Le32At(inode, 40 + 4 * i)
  }

  /** `map_indirect`. */
  function MapIndirect(v: Volume, disk: seq<byte>, inode: seq<byte>, lbn: nat): nat
    requires v.Valid() && |inode| >= 100
  {
    var per := v.Per();
    if lbn < DIRECT then InodePtr(inode, lbn)
    else
      var l1 := lbn - DIRECT;
      if l1 < per then Child(v, disk, InodePtr(inode, 12), l1)
      else
        var l2 := l1 - per;
        if l2 < v.Square() then
          var a := Child(v, disk, InodePtr(inode, 13), l2 / per);
          Child(v, disk, a, l2 % per)
        else
          var l3 := l2 - v.Square();
          var a := Child(v, disk, InodePtr(inode, 14), l3 / v.Square());
          var b := Child(v, disk, a, l3 / per % per);
          Child(v, disk, b, l3 % per)
  }

  /** `map_indirect`, pointer by pointer. */
  method FollowPointers(v: Volume, dev: Disk.Device, inode: seq<byte>, lbn: nat) returns (pb: nat)
    requires v.Valid() && |inode| >= 100 && WholeSectors(dev.bytes)
    ensures pb == MapIndirect(v, dev.bytes, inode, lbn)
  {
    hide PtrAt, InodePtr, WholeSectors;
    var per := v.Per();
    if lbn < DIRECT {
      return InodePtr(inode, lbn);
    }
    var left := lbn - DIRECT;
    if left < per {
      pb := NextPointer(v, dev, InodePtr(inode, 12), left);
      return;
    }
    left := left - per;
    if left < v.Square() {
      pb := NextPointer(v, dev, InodePtr(inode, 13), left / per);
      pb := NextPointer(v, dev, pb, left % per);
      return;
    }
    left := left - v.Square();
    pb := NextPointer(v, dev, InodePtr(inode, 14), left / v.Square());
    pb := NextPointer(v, dev, pb, left / per % per);
    pb := NextPointer(v, dev, pb, left % per);
  }

  /** One step: a null pointer leads nowhere. */
  method NextPointer(v: Volume, dev: Disk.Device, block: nat, idx: nat) returns (pb: nat)
    requires WholeSectors(dev.bytes)
    ensures pb == Child(v, dev.bytes, block, idx)
  {
    if block == 0 {
      return 0;
    }
    pb := ReadU32Block(v, dev, block, idx);
  }

  /** The file's blocks in order: the direct pointers and the three trees laid end to end. */
  ghost function FileBlocks(v: Volume, disk: seq<byte>, inode: seq<byte>): seq<nat>
    requires v.Valid() && |inode| >= 100
  {
    seq(DIRECT, i requires 0 <= i < DIRECT => InodePtr(inode, i)) + Flat(v, disk, InodePtr(inode, 12), 1)
    + Flat(v, disk, InodePtr(inode, 13), 2) + Flat(v, disk, InodePtr(inode, 14), 3)
  }

  /** The three geometries, with everything that is needed of their products. */
  lemma Sizes(v: Volume)
    requires v.Valid()
    ensures (v.Per(), v.Square()) in [(256, 65536), (512, 262144), (1024, 1048576)]
  {
  }

  lemma Powers(v: Volume)
    requires v.Valid()
    ensures var p := v.Per();
            && Power(p, 0) == 1 && Power(p, 1) == p && Power(p, 2) == v.Square()
            && Power(p, 3) == Times(p, v.Square())
  {
    var p := v.Per();
    TimesIsProduct(p, 1);
    TimesIsProduct(p, p);
    assert Power(p, 1) == Times(p, Power(p, 0)) && Power(p, 2) == Times(p, Power(p, 1));
    assert Power(p, 3) == Times(p, Power(p, 2));
  }

  /** Base-`per` digits of a position below a doubly indirect block. */
  lemma TwoDigits(v: Volume, l: nat)
    requires v.Valid() && l < v.Square()
    ensures var p := v.Per(); l / p < p && l % p < p && l == Times(l / p, p) + l % p
  {
    TimesIsProduct(l / v.Per(), v.Per());
    Sizes(v);
    hide Volume.Per, Volume.Square, Times;
    var p := v.Per();
    if p == 256 {
    } else if p == 512 {
    } else {
      assert p == 1024;
    }
  }

  lemma Digits256(l: nat)
    ensures l == l / 65536 * 65536 + (l / 256 % 256 * 256 + l % 256)
  {
    assert l / 65536 == l / 256 / 256;
  }

  lemma Digits512(l: nat)
    ensures l == l / 262144 * 262144 + (l / 512 % 512 * 512 + l % 512)
  {
    assert l / 262144 == l / 512 / 512;
  }

  lemma Digits1024(l: nat)
    ensures l == l / 1048576 * 1048576 + (l / 1024 % 1024 * 1024 + l % 1024)
  {
    assert l / 1048576 == l / 1024 / 1024;
  }

  lemma DigitBound(p: nat, sq: nat, l: nat)
    requires (p, sq) in [(256, 65536), (512, 262144), (1024, 1048576)] && l < p * sq
    ensures l / sq < p && l / p % p < p && l % p < p
  {
    if p == 256 {
    } else if p == 512 {
    } else {
      assert p == 1024;
    }
  }

  /** Base-`per` digits of a position below a triply indirect block. */
  lemma ThreeDigits(v: Volume, l: nat)
    requires v.Valid() && l < Times(v.Per(), v.Square())
    ensures var p := v.Per();
            && l / v.Square() < p && l / p % p < p && l % p < p
            && l == Times(l / v.Square(), v.Square()) + (Times(l / p % p, p) + l % p)
  {
    var p, sq := v.Per(), v.Square();
    TimesIsProduct(l / sq, sq);
    TimesIsProduct(l / p % p, p);
    TimesIsProduct(p, sq);
    Sizes(v);
    hide Volume.Per, Volume.Square, Times;
    DigitBound(p, sq, l);
    if p == 256 {
      Digits256(l);
    } else if p == 512 {
      Digits512(l);
    } else {
      Digits1024(l);
    }
  }

  // ----- which pointer slot a logical block uses

  /** Logical blocks below this are mapped by the trees: 12 + p + p^2 + p^3. */
  function Limit(v: Volume): nat
    requires v.Valid()
  {
    DIRECT + v.Per() + v.Square() + Times(v.Per(), v.Square())
  }

  ghost predicate InBlock(v: Volume, path: seq<nat>)
    requires v.Valid()
  {
    forall i :: 0 <= i < |path| ==> path[i] < v.Per()
  }

  /** The tree (0 for the direct pointers) and the pointer indices on the way down. */
  function SlotOf(v: Volume, lbn: nat): (nat, seq<nat>)
    requires v.Valid()
  {
    var p, sq := v.Per(), v.Square();
    if lbn < DIRECT then (0, [lbn])
    else if lbn < DIRECT + p then (1, [lbn - DIRECT])
    else if lbn < DIRECT + p + sq then var l := lbn - DIRECT - p; (2, [l / p, l % p])
    else var l := lbn - DIRECT - p - sq; (3, [l / sq, l / p % p, l % p])
  }

  /** Follow pointer indices down from `block`. */
  function Follow(v: Volume, disk: seq<byte>, block: nat, path: seq<nat>): nat
    decreases |path|
  {
    if path == [] then block else Follow(v, disk, Child(v, disk, block, path[0]), path[1..])
  }

  /** The pointer blocks read on the way. */
  function PointerBlocks(v: Volume, disk: seq<byte>, block: nat, path: seq<nat>): set<nat>
    decreases |path|
  {
    if path == [] || block == 0 then {} else {block} + PointerBlocks(v, disk, Child(v, disk, block, path[0]), path[1..])
  }

  function MetaBlocks(v: Volume, disk: seq<byte>, inode: seq<byte>, lbn: nat): set<nat>
    requires v.Valid() && |inode| >= 100
  {
    var (tree, path) := SlotOf(v, lbn);
    if tree == 0 then {} else PointerBlocks(v, disk, InodePtr(inode, 11 + tree), path)
  }

  lemma Follow1(v: Volume, disk: seq<byte>, block: nat, i: nat)
    ensures Follow(v, disk, block, [i]) == Child(v, disk, block, i)
  {
    assert [i][1..] == [];
  }

  lemma Follow2(v: Volume, disk: seq<byte>, block: nat, i: nat, j: nat)
    ensures Follow(v, disk, block, [i, j]) == Child(v, disk, Child(v, disk, block, i), j)
  {
    assert [i, j][1..] == [j];
    Follow1(v, disk, Child(v, disk, block, i), j);
  }

  lemma Follow3(v: Volume, disk: seq<byte>, block: nat, h: nat, i: nat, j: nat)
    ensures Follow(v, disk, block, [h, i, j]) == Child(v, disk, Child(v, disk, Child(v, disk, block, h), i), j)
  {
    assert [h, i, j][1..] == [i, j];
    Follow2(v, disk, Child(v, disk, block, h), i, j);
  }

  /** `map_indirect` reads exactly the slot of the logical block. */
  lemma MapFollowsSlot(v: Volume, disk: seq<byte>, inode: seq<byte>, lbn: nat)
    requires v.Valid() && |inode| >= 100
    ensures var (tree, path) := SlotOf(v, lbn);
            MapIndirect(v, disk, inode, lbn) ==
            if tree == 0 then InodePtr(inode, lbn) else Follow(v, disk, InodePtr(inode, 11 + tree), path)
  {
    hide Volume.Per, Volume.Square, Volume.Valid, Child, InodePtr, Follow;
    var (tree, path) := SlotOf(v, lbn);
    if tree == 1 {
      Follow1(v, disk, InodePtr(inode, 12), path[0]);
    } else if tree == 2 {
      Follow2(v, disk, InodePtr(inode, 13), path[0], path[1]);
    } else if tree == 3 {
      Follow3(v, disk, InodePtr(inode, 14), path[0], path[1], path[2]);
    }
  }

  lemma PathInBlock(v: Volume, lbn: nat)
    requires v.Valid() && lbn < Limit(v)
    ensures var (tree, path) := SlotOf(v, lbn); tree > 0 ==> InBlock(v, path)
  {
    hide Volume.Per, Volume.Square, Volume.Valid, Times;
    var p, sq := v.Per(), v.Square();
    if DIRECT + p + sq <= lbn {
      ThreeDigits(v, lbn - DIRECT - p - sq);
    } else if DIRECT + p <= lbn {
      TwoDigits(v, lbn - DIRECT - p);
    }
  }

  /** The position of a path among all paths of its length, in order. */
  function Index(v: Volume, path: seq<nat>): nat
    requires v.Valid()
  {
    if path == [] then 0 else Times(path[0], Power(v.Per(), |path| - 1)) + Index(v, path[1..])
  }

  /** Following a path reaches the block at its position in the flattened tree, at any depth. */
  lemma {:induction false} FollowIsFlat(v: Volume, disk: seq<byte>, block: nat, path: seq<nat>)
    requires v.Valid() && InBlock(v, path)
    ensures Index(v, path) < |Flat(v, disk, block, |path|)| == Power(v.Per(), |path|)
    ensures Flat(v, disk, block, |path|)[Index(v, path)] == Follow(v, disk, block, path)
    decreases |path|
  {
    hide Volume.Per, Volume.Valid, Child;
    FlatLength(v, disk, block, |path|);
    if path == [] {
    } else {
      FollowIsFlat(v, disk, Child(v, disk, block, path[0]), path[1..]);
      FlatAt(v, disk, block, |path|, 0, path[0], Index(v, path[1..]));
    }
  }

  /** How many blocks come before those of a tree. */
  function Before(v: Volume, tree: nat): nat
    requires v.Valid()
  {
    if tree == 0 then 0
    else if tree == 1 then DIRECT
    else if tree == 2 then DIRECT + v.Per()
    else DIRECT + v.Per() + v.Square()
  }

  lemma Index1(v: Volume, i: nat)
    requires v.Valid()
    ensures Index(v, [i]) == i
  {
    TimesIsProduct(i, 1);
    assert [i][1..] == [];
  }

  lemma Index2(v: Volume, i: nat, j: nat)
    requires v.Valid()
    ensures Index(v, [i, j]) == Times(i, v.Per()) + j
  {
    hide Volume.Per, Volume.Square, Volume.Valid;
    Powers(v);
    Index1(v, j);
    assert [i, j][1..] == [j];
  }

  lemma Index3(v: Volume, h: nat, i: nat, j: nat)
    requires v.Valid()
    ensures Index(v, [h, i, j]) == Times(h, v.Square()) + (Times(i, v.Per()) + j)
  {
    hide Volume.Per, Volume.Square, Volume.Valid;
    Powers(v);
    Index2(v, i, j);
    assert [h, i, j][1..] == [i, j];
  }

  /** A slot determines its logical block. */
  lemma SlotGivesBlock(v: Volume, lbn: nat)
    requires v.Valid() && lbn < Limit(v)
    ensures var (tree, path) := SlotOf(v, lbn);
            tree <= 3 && |path| == (if tree == 0 then 1 else tree) && Before(v, tree) + Index(v, path) == lbn
  {
    hide Volume.Per, Volume.Square, Volume.Valid, Times, Index;
    var (tree, path) := SlotOf(v, lbn);
    var l := lbn - Before(v, tree);
    if tree <= 1 {
      Index1(v, l);
    } else if tree == 2 {
      TwoDigits(v, l);
      Index2(v, path[0], path[1]);
    } else {
      ThreeDigits(v, l);
      Index3(v, path[0], path[1], path[2]);
    }
  }

  /** Distinct logical blocks use distinct slots. */
  lemma SlotsDistinct(v: Volume, a: nat, b: nat)
    requires v.Valid() && a < b < Limit(v)
    ensures SlotOf(v, a) != SlotOf(v, b)
  {
    hide Volume.Per, Volume.Square, Volume.Valid, Times, SlotOf, Index, Before;
    SlotGivesBlock(v, a);
    SlotGivesBlock(v, b);
  }

  /** Every logical block the trees can name: 12 + p + p^2 + p^3 of them. */
  lemma FileBlocksLength(v: Volume, disk: seq<byte>, inode: seq<byte>)
    requires v.Valid() && |inode| >= 100
    ensures var p := v.Per();
            && |Flat(v, disk, InodePtr(inode, 12), 1)| == p && |Flat(v, disk, InodePtr(inode, 13), 2)| == v.Square()
            && |FileBlocks(v, disk, inode)| == Limit(v)
  {
    hide Volume.Per, Volume.Square, Volume.Valid;
    Powers(v);
    FlatLength(v, disk, InodePtr(inode, 12), 1);
    FlatLength(v, disk, InodePtr(inode, 13), 2);
    FlatLength(v, disk, InodePtr(inode, 14), 3);
  }

  /** `map_indirect` is indexing into the flattened trees, holes included. */
  lemma IndirectIsFlattening(v: Volume, disk: seq<byte>, inode: seq<byte>, lbn: nat)
    requires v.Valid() && |inode| >= 100 && lbn < Limit(v)
    ensures |FileBlocks(v, disk, inode)| == Limit(v)
    ensures MapIndirect(v, disk, inode, lbn) == FileBlocks(v, disk, inode)[lbn]
  {
    hide Flat, Volume.Per, Volume.Square, InodePtr, Times, Volume.Valid, MapIndirect, SlotOf, Follow, Index, Limit;
    FileBlocksLength(v, disk, inode);
    MapFollowsSlot(v, disk, inode, lbn);
    SlotGivesBlock(v, lbn);
    PathInBlock(v, lbn);
    var (tree, path) := SlotOf(v, lbn);
    if tree == 0 {
      DirectSlot(v, lbn);
    } else {
      FollowIsFlat(v, disk, InodePtr(inode, 11 + tree), path);
    }
  }

  lemma DirectSlot(v: Volume, lbn: nat)
    requires v.Valid() && SlotOf(v, lbn).0 == 0
    ensures lbn < DIRECT
  {
  }

  lemma {:induction false} FollowFrame(v: Volume, a: seq<byte>, b: seq<byte>, block: nat, path: seq<nat>)
    requires v.Valid() && InBlock(v, path)
    requires forall m :: m in PointerBlocks(v, a, block, path) ==> SameBlock(v, a, b, m)
    ensures Follow(v, a, block, path) == Follow(v, b, block, path)
    ensures PointerBlocks(v, a, block, path) == PointerBlocks(v, b, block, path)
    decreases |path|
  {
    hide SameBlock, PtrAt, Volume.Per, Volume.Valid;
    if path == [] {
    } else {
      var c := Child(v, a, block, path[0]);
      if block != 0 {
        PtrFrame(v, a, b, block, path[0]);
      } else {
        ZeroPath(v, a, path[1..]);
      }
      FollowFrame(v, a, b, c, path[1..]);
    }
  }

  lemma ZeroPath(v: Volume, disk: seq<byte>, path: seq<nat>)
    ensures PointerBlocks(v, disk, 0, path) == {}
  {
  }

  /** The mapping depends only on the pointer blocks it reads. */
  lemma IndirectFrame(v: Volume, a: seq<byte>, b: seq<byte>, inode: seq<byte>, lbn: nat)
    requires v.Valid() && |inode| >= 100 && lbn < Limit(v)
    requires forall m :: m in MetaBlocks(v, a, inode, lbn) ==> SameBlock(v, a, b, m)
    ensures MapIndirect(v, a, inode, lbn) == MapIndirect(v, b, inode, lbn)
    ensures MetaBlocks(v, a, inode, lbn) == MetaBlocks(v, b, inode, lbn)
  {
    MapFollowsSlot(v, a, inode, lbn);
    MapFollowsSlot(v, b, inode, lbn);
    PathInBlock(v, lbn);
    hide MapIndirect, SameBlock, SlotOf, Volume.Per, Volume.Valid, Follow, PointerBlocks, InodePtr, Times;
    var (tree, path) := SlotOf(v, lbn);
    if tree > 0 {
      FollowFrame(v, a, b, InodePtr(inode, 11 + tree), path);
    }
  }
}
