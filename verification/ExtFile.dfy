/**
 Whole-file read and overwrite on ext volumes (`extfs_read_file`, `extfs_write_file` of
 `extfs.c`) for a resolved inode.
 */
module ExtFile {
  import opened Words
  import opened Bytes
  import opened FileData
  import opened ExtDisk
  import opened ExtMap
  import opened ExtTree
  import Disk

  // ----- the inode

  const INODE: nat := 256

  function InodeSize(inode: seq<byte>): u64
    requires |inode| == INODE
  {
    Le32At(inode, 4) + TWO32 * Le32At(inode, 108)
  }

  predicate Regular(inode: seq<byte>)
    requires |inode| == INODE
  {
    Le16At(inode, 0) / 0x8000 % 2 == 1
  }

  predicate HasExtents(inode: seq<byte>)
    requires |inode| == INODE
  {
    Le32At(inode, 32) / 0x8_0000 % 2 == 1
  }

  /** How the file's blocks are found. */
  datatype Layout = Indirect | Extents(tree: Tree)

  ghost predicate LayoutOk(v: Volume, disk: seq<byte>, inode: seq<byte>, lay: Layout)
  {
    && v.Valid() && |inode| == INODE && (HasExtents(inode) <==> lay.Extents?)
    && (lay.Extents? ==> Encodes(v, disk, inode[40..100], lay.tree) && Ordered(lay.tree, 0, TWO32 - 1))
  }

  /** `map_block`. */
  ghost function MapBlock(v: Volume, disk: seq<byte>, inode: seq<byte>, lay: Layout, lbn: nat): nat
    requires LayoutOk(v, disk, inode, lay)
  {
    if HasExtents(inode) then MapNode(v, disk, inode[40..100], lay.tree, lbn) else MapIndirect(v, disk, inode, lbn)
  }

  method FindBlock(v: Volume, dev: Disk.Device, reader: ExtentReader, inode: seq<byte>, lbn: nat, ghost lay: Layout)
    returns (pb: nat)
    requires LayoutOk(v, dev.bytes, inode, lay) && WholeSectors(dev.bytes) && reader.Valid()
    modifies reader
    ensures reader.Valid() && pb == MapBlock(v, dev.bytes, inode, lay, lbn)
  {
    if HasExtents(inode) {
      pb := reader.MapExtents(v, dev, inode[40..100], false, lbn, lay.tree);
    } else {
      pb := FollowPointers(v, dev, inode, lbn);
    }
  }

  /** Blocks that hold part of the map of the first `n` logical blocks. */
  ghost predicate IsMeta(v: Volume, disk: seq<byte>, inode: seq<byte>, lay: Layout, n: nat, m: nat)
    requires LayoutOk(v, disk, inode, lay)
  {
    match lay
    case Extents(t) => m in NodeBlocks(t)
    case Indirect => exists lbn: nat :: lbn < n && m in MetaBlocks(v, disk, inode, lbn)
  }

  ghost predicate Usable(v: Volume, disk: seq<byte>, pb: nat) { pb != 0 && v.At(pb) + v.blockSize <= |disk| }

  /** `pbs` are the physical blocks of the first `n` logical ones, up to the first hole or unreadable block. */
  ghost predicate Mapped(v: Volume, disk: seq<byte>, inode: seq<byte>, lay: Layout, n: nat, pbs: seq<nat>)
  {
    && LayoutOk(v, disk, inode, lay) && WholeSectors(disk) && |pbs| <= n && (lay.Indirect? ==> n <= Limit(v))
    && (forall b :: 0 <= b < |pbs| ==> MapBlock(v, disk, inode, lay, b) == pbs[b] && Usable(v, disk, pbs[b]))
    && (|pbs| < n ==> !Usable(v, disk, MapBlock(v, disk, inode, lay, |pbs|)))
  }

  /** The data blocks are distinct and none holds part of the map. */
  ghost predicate Separate(v: Volume, disk: seq<byte>, inode: seq<byte>, lay: Layout, n: nat, pbs: seq<nat>)
    requires LayoutOk(v, disk, inode, lay)
  {
    && (forall i, j :: 0 <= i < j < |pbs| ==> pbs[i] != pbs[j])
    && (forall i :: 0 <= i < |pbs| ==> !IsMeta(v, disk, inode, lay, n, pbs[i]))
  }

  // ----- data writes leave the map alone

  lemma BlocksApart(v: Volume, c: nat, d: nat)
    requires c != d
    ensures v.At(c) + v.blockSize <= v.At(d) || v.At(d) + v.blockSize <= v.At(c)
  {
    if c < d {
      MulMono(c + 1, d, v.blockSize);
      assert (c + 1) * v.blockSize == c * v.blockSize + v.blockSize;
    } else {
      MulMono(d + 1, c, v.blockSize);
      assert (d + 1) * v.blockSize == d * v.blockSize + v.blockSize;
    }
  }

  lemma WriteKeepsBlock(v: Volume, disk: seq<byte>, d: nat, s: seq<byte>, m: nat)
    requires m != d && |s| <= v.blockSize && v.At(d) + v.blockSize <= |disk|
    ensures SameBlock(v, disk, Splice(disk, v.At(d), s), m)
  {
    hide Volume.At;
    BlocksApart(v, d, m);
    SpliceAt(disk, v.At(d), s);
  }

  /** Changing no map block leaves layout and mapping as they were. */
  lemma LayoutFrame(v: Volume, a: seq<byte>, b: seq<byte>, inode: seq<byte>, lay: Layout, n: nat)
    requires LayoutOk(v, a, inode, lay) && (lay.Indirect? ==> n <= Limit(v))
    requires forall m :: IsMeta(v, a, inode, lay, n, m) ==> SameBlock(v, a, b, m)
    ensures LayoutOk(v, b, inode, lay)
    ensures forall lbn: nat :: lbn < n ==> MapBlock(v, b, inode, lay, lbn) == MapBlock(v, a, inode, lay, lbn)
    ensures forall m :: IsMeta(v, b, inode, lay, n, m) <==> IsMeta(v, a, inode, lay, n, m)
  {
    hide Limit, Encodes, MapNode, MapIndirect, MetaBlocks, SameBlock, NodeBlocks, Ordered;
    match lay {
      case Extents(t) =>
        forall m | m in NodeBlocks(t) ensures SameBlock(v, a, b, m) {
          assert IsMeta(v, a, inode, lay, n, m);
        }
        EncodesFrame(v, a, b, inode[40..100], t);
        forall lbn: nat | lbn < n ensures MapBlock(v, b, inode, lay, lbn) == MapBlock(v, a, inode, lay, lbn) {
          DescentIsScan(v, a, inode[40..100], t, lbn, 0, TWO32 - 1);
          DescentIsScan(v, b, inode[40..100], t, lbn, 0, TWO32 - 1);
        }
      case Indirect =>
        forall lbn: nat | lbn < n
          ensures MapBlock(v, b, inode, lay, lbn) == MapBlock(v, a, inode, lay, lbn)
          ensures MetaBlocks(v, b, inode, lbn) == MetaBlocks(v, a, inode, lbn)
        {
          forall m | m in MetaBlocks(v, a, inode, lbn) ensures SameBlock(v, a, b, m) {
            assert IsMeta(v, a, inode, lay, n, m);
          }
          IndirectFrame(v, a, b, inode, lbn);
        }
    }
  }

  /** Writing into a data block keeps the whole picture. */
  lemma DataWrite(v: Volume, disk: seq<byte>, inode: seq<byte>, lay: Layout, n: nat, pbs: seq<nat>, i: nat,
                  s: seq<byte>)
    requires Mapped(v, disk, inode, lay, n, pbs) && Separate(v, disk, inode, lay, n, pbs)
    requires i < |pbs| && |s| <= v.blockSize
    ensures v.At(pbs[i]) + v.blockSize <= |disk|
    ensures var disk' := Splice(disk, v.At(pbs[i]), s);
            Mapped(v, disk', inode, lay, n, pbs) && Separate(v, disk', inode, lay, n, pbs)
  {
    hide LayoutOk, Volume.At, MapBlock, IsMeta, Limit;
    assert Usable(v, disk, pbs[i]);
    var disk' := Splice(disk, v.At(pbs[i]), s);
    forall m | IsMeta(v, disk, inode, lay, n, m) ensures SameBlock(v, disk, disk', m) {
      WriteKeepsBlock(v, disk, pbs[i], s, m);
    }
    LayoutFrame(v, disk, disk', inode, lay, n);
    KeepsWhole(disk, disk');
  }

  // ----- block counts

  /** Blocks of `unit` bytes needed for `len` bytes. */
  function Ceil(unit: nat, len: nat): nat
    requires unit > 0
  {
    if len == 0 then 0 else 1 + Ceil(unit, if len <= unit then 0 else len - unit)
  }

  /** The code's count, in 64-bit arithmetic cut to 32 bits. */
  function BlockCount(v: Volume, size: u64): nat
    requires v.Valid()
  {
    (size + v.blockSize - 1) % TWO64 / v.blockSize % TWO32
  }

  lemma OneMoreBlock(v: Volume, len: nat)
    requires v.Valid() && len > v.blockSize
    ensures (len + v.blockSize - 1) / v.blockSize == 1 + (len - v.blockSize + v.blockSize - 1) / v.blockSize
  {
    if v.blockSize == 1024 {
    } else if v.blockSize == 2048 {
    } else {
      assert v.blockSize == 4096;
    }
  }

  lemma {:induction false} CeilIsDivision(v: Volume, len: nat)
    requires v.Valid()
    ensures Ceil(v.blockSize, len) == (len + v.blockSize - 1) / v.blockSize
    decreases len
  {
    if len > v.blockSize {
      OneMoreBlock(v, len);
      CeilIsDivision(v, len - v.blockSize);
    } else if len > 0 {
      assert Ceil(v.blockSize, 0) == 0;
    }
  }

  /** Below 2^32 blocks the count is exact. */
  lemma CountIsCeil(v: Volume, size: u64)
    requires v.Valid() && Ceil(v.blockSize, size) < TWO32
    ensures BlockCount(v, size) == Ceil(v.blockSize, size)
  {
    CeilIsDivision(v, size);
    CountExact(v, size);
  }

  lemma CountExact(v: Volume, size: u64)
    requires v.Valid() && (size + v.blockSize - 1) / v.blockSize < TWO32
    ensures BlockCount(v, size) == (size + v.blockSize - 1) / v.blockSize
  {
    if v.blockSize == 1024 {
    } else if v.blockSize == 2048 {
    } else {
      assert v.blockSize == 4096;
    }
  }

  lemma SmallCount(v: Volume, size: u32)
    requires v.Valid()
    ensures Ceil(v.blockSize, size) < TWO32
  {
    CeilIsDivision(v, size);
    if v.blockSize == 1024 {
    } else if v.blockSize == 2048 {
    } else {
      assert v.blockSize == 4096;
    }
  }

  // ----- reading

  ghost function Offs(v: Volume, pbs: seq<nat>): (offs: seq<nat>)
    ensures |offs| == |pbs| && forall i :: 0 <= i < |pbs| ==> offs[i] == v.At(pbs[i])
  {
    seq(|pbs|, i requires 0 <= i < |pbs| => v.At(pbs[i]))
  }

  lemma OffsIn(v: Volume, disk: seq<byte>, inode: seq<byte>, lay: Layout, n: nat, pbs: seq<nat>)
    requires Mapped(v, disk, inode, lay, n, pbs)
    ensures InDisk(disk, Offs(v, pbs), v.blockSize)
  {
    hide MapBlock, LayoutOk, Volume.At;
    assert v.blockSize > 0 by { assert LayoutOk(v, disk, inode, lay); BlockSizePositive(v, disk, inode, lay); }
    forall i | 0 <= i < |pbs| ensures Offs(v, pbs)[i] + v.blockSize <= |disk| {
      assert Usable(v, disk, pbs[i]);
    }
  }

  lemma BlockSizePositive(v: Volume, disk: seq<byte>, inode: seq<byte>, lay: Layout)
    requires LayoutOk(v, disk, inode, lay)
    ensures v.Valid() && |inode| == INODE && 1024 <= v.blockSize <= 4096
  {
  }

  /** The file's bytes: its blocks in order. */
  ghost function FileBytes(v: Volume, disk: seq<byte>, inode: seq<byte>, lay: Layout, n: nat, pbs: seq<nat>): seq<byte>
    requires Mapped(v, disk, inode, lay, n, pbs)
  {
    OffsIn(v, disk, inode, lay, n, pbs);
    Gather(disk, Offs(v, pbs), v.blockSize)
  }

  /** Map logical block `b` and read it: the step both loops share. */
  method LoadBlock(v: Volume, dev: Disk.Device, reader: ExtentReader, inode: seq<byte>, b: nat,
                   ghost lay: Layout, ghost n: nat, ghost pbs: seq<nat>) returns (pb: nat, blk: Option<seq<byte>>)
    requires Mapped(v, dev.bytes, inode, lay, n, pbs) && b <= |pbs| && b < n && reader.Valid()
    modifies reader
    ensures reader.Valid()
    ensures b == |pbs| ==> blk == None
    ensures b < |pbs| ==> v.At(pbs[b]) + v.blockSize <= |dev.bytes| && pb == pbs[b]
                          && blk == Some(Unit(dev.bytes, v.At(pbs[b]), v.blockSize))
  {
    hide LayoutOk, MapBlock, Volume.At, Limit, WholeSectors;
    pb := FindBlock(v, dev, reader, inode, b, lay);
    if pb == 0 {
      return pb, None;
    }
    BlockSizePositive(v, dev.bytes, inode, lay);
    blk := ReadBlockFull(v, dev, pb);
  }

  /** `extfs_read_file` for a resolved inode: the whole file, or an error at the first block that is not there. */
  method ReadFile(v: Volume, dev: Disk.Device, reader: ExtentReader, inode: seq<byte>, bufferSize: u32,
                  ghost lay: Layout, ghost pbs: seq<nat>) returns (r: Option<seq<byte>>)
    requires v.Valid() && |inode| == INODE && reader.Valid()
    requires Mapped(v, dev.bytes, inode, lay, BlockCount(v, InodeSize(inode)), pbs)
    modifies reader
    ensures reader.Valid()
    ensures var size := InodeSize(inode); var n := BlockCount(v, size);
            r == if Regular(inode) && size <= bufferSize && |pbs| == n
                 then Some(Cut(FileBytes(v, dev.bytes, inode, lay, n, pbs), size)) else None
  {
    hide BlockCount, InodeSize, Regular, Volume.At, Mapped, Ceil, InDisk, Gather, Reading;
    if !Regular(inode) {
      return None;
    }
    var size := InodeSize(inode);
    if size > bufferSize {
      return None;
    }
    SmallCount(v, size);
    CountIsCeil(v, size);
    var blocks := BlockCount(v, size);
    ghost var offs, unit := Offs(v, pbs), v.blockSize;
    OffsIn(v, dev.bytes, inode, lay, blocks, pbs);
    MappedLength(v, dev.bytes, inode, lay, blocks, pbs);
    ReadingStart(dev.bytes, offs, unit, size);
    var dst: seq<byte> := [];
    for b := 0 to blocks
      invariant reader.Valid() && b <= |pbs| && |dst| <= size
      invariant blocks - b == Ceil(unit, size - |dst|) && Reading(dev.bytes, offs, unit, size, b, dst)
    {
      var pb, blk := LoadBlock(v, dev, reader, inode, b, lay, blocks, pbs);
      if blk.None? {
        return None;
      }
      var take := v.blockSize;
      if |dst| + take > size {
        take := size - |dst|;
      }
      CeilStep(unit, size - |dst|);
      ReadingStep(dev.bytes, offs, unit, size, b, dst);
      dst := dst + blk.value[..take];
    }
    CeilStep(unit, size - |dst|);
    ReadingDone(dev.bytes, offs, unit, size, blocks, dst);
    return Some(dst);
  }

  lemma MappedLength(v: Volume, disk: seq<byte>, inode: seq<byte>, lay: Layout, n: nat, pbs: seq<nat>)
    requires Mapped(v, disk, inode, lay, n, pbs)
    ensures |pbs| <= n
  {
  }

  lemma CeilStep(unit: nat, len: nat)
    requires unit > 0
    ensures Ceil(unit, len) == 0 <==> len == 0
    ensures len > 0 ==> Ceil(unit, len) == 1 + Ceil(unit, len - (if len < unit then len else unit))
  {
  }

  // ----- overwriting

  /** Blocks the overwrite loop visits: at least one. */
  function Visited(unit: nat, len: nat): nat
    requires unit > 0
  {
    if len == 0 then 1 else Ceil(unit, len)
  }

  /** When the loop's byte count ends on the buffer length: a whole-file overwrite, or a buffer of whole blocks. */
  predicate CountMatches(unit: nat, len: nat, size: nat)
    requires unit > 0
  {
    len == size || (len > 0 && len % unit == 0)
  }

  predicate BlockUnit(unit: nat) { unit == 1024 || unit == 2048 || unit == 4096 }

  lemma ModStep(unit: nat, x: nat)
    requires BlockUnit(unit)
    ensures (unit + x) % unit == x % unit && unit % unit == 0
    ensures 0 < x < unit ==> x % unit != 0
  {
    if unit == 1024 {
    } else if unit == 2048 {
    } else {
      assert unit == 4096;
    }
  }

  lemma {:induction false} ModMultiple(unit: nat, b: nat, r: nat)
    requires BlockUnit(unit)
    ensures (Times(b, unit) + r) % unit == r % unit
    decreases b
  {
    if b == 0 {
    } else {
      ModMultiple(unit, b - 1, r);
      ModStep(unit, Times(b - 1, unit) + r);
    }
  }

  /**
   The last block visited: the count matches exactly if the rest of the buffer fills the rest
   of the block or file.
   */
  lemma LastBlock(unit: nat, b: nat, rest: nat, size: nat)
    requires BlockUnit(unit) && Times(b, unit) + rest <= size && Times(b, unit) < size && (b > 0 ==> rest > 0)
    requires rest <= unit
    ensures var take := if size - Times(b, unit) < unit then size - Times(b, unit) else unit;
            rest == take <==> CountMatches(unit, Times(b, unit) + rest, size)
  {
    NoBlocks(unit);
    ModMultiple(unit, b, rest);
    ModStep(unit, rest);
    hide Times, BlockUnit;
    var len := Times(b, unit) + rest;
    assert rest % unit == 0 <==> rest == 0 || rest == unit;
    assert rest == 0 ==> b == 0 && len == 0;
  }

  /** The state of the overwrite loop at block `b`. */
  ghost predicate Writing(v: Volume, disk0: seq<byte>, disk: seq<byte>, inode: seq<byte>, lay: Layout, n: nat,
                          pbs: seq<nat>, data: seq<byte>, b: nat, rest: seq<byte>)
  {
    && Mapped(v, disk, inode, lay, n, pbs) && Separate(v, disk, inode, lay, n, pbs)
    && b <= |pbs| && |disk| == |disk0| && InDisk(disk0, Offs(v, pbs), v.blockSize)
    && InDisk(disk, Offs(v, pbs)[b..], v.blockSize)
    && Scatter(disk, Offs(v, pbs)[b..], v.blockSize, rest) == Scatter(disk0, Offs(v, pbs), v.blockSize, data)
  }

  /** One block written back with the front of `rest` put in. */
  lemma WritingStep(v: Volume, disk0: seq<byte>, disk: seq<byte>, inode: seq<byte>, lay: Layout, n: nat, pbs: seq<nat>,
                    data: seq<byte>, b: nat, rest: seq<byte>)
    requires Writing(v, disk0, disk, inode, lay, n, pbs, data, b, rest) && b < |pbs|
    ensures v.At(pbs[b]) + v.blockSize <= |disk|
    ensures var c := Chunk(v.blockSize, rest);
            var disk' := Splice(disk, v.At(pbs[b]), rest[..c] + Unit(disk, v.At(pbs[b]), v.blockSize)[c..]);
            Writing(v, disk0, disk', inode, lay, n, pbs, data, b + 1, rest[c..])
  {
    hide Mapped, Separate, Volume.At, LayoutOk;
    var c, offs, unit := Chunk(v.blockSize, rest), Offs(v, pbs), v.blockSize;
    DataWrite(v, disk, inode, lay, n, pbs, b, rest[..c]);
    PrefixSplice(disk, v.At(pbs[b]), unit, rest, c);
    var disk' := Splice(disk, v.At(pbs[b]), rest[..c]);
    OffsIn(v, disk', inode, lay, n, pbs);
    InDiskTail(disk', offs, unit, b + 1);
    assert offs[b..][0] == offs[b] && offs[b..][1..] == offs[b + 1..];
    if rest == [] {
      EmptySplice(disk, v.At(pbs[b]), rest);
      assert rest[..0] == rest[..c] && rest[c..] == [];
    }
  }

  /** Nothing left to write, or no block left to write to. */
  lemma WritingDone(v: Volume, disk0: seq<byte>, disk: seq<byte>, inode: seq<byte>, lay: Layout, n: nat, pbs: seq<nat>,
                    data: seq<byte>, b: nat, rest: seq<byte>)
    requires Writing(v, disk0, disk, inode, lay, n, pbs, data, b, rest) && (rest == [] || b == |pbs|)
    ensures disk == Scatter(disk0, Offs(v, pbs), v.blockSize, data)
  {
  }

  lemma StartWriting(v: Volume, disk: seq<byte>, inode: seq<byte>, lay: Layout, n: nat, pbs: seq<nat>, data: seq<byte>)
    requires Mapped(v, disk, inode, lay, n, pbs) && Separate(v, disk, inode, lay, n, pbs)
    ensures |pbs| <= n && InDisk(disk, Offs(v, pbs), v.blockSize)
            && Writing(v, disk, disk, inode, lay, n, pbs, data, 0, data)
  {
    OffsIn(v, disk, inode, lay, n, pbs);
    assert Offs(v, pbs)[0..] == Offs(v, pbs);
  }

  /** Read, patch and write back one block. */
  method SaveBlock(v: Volume, dev: Disk.Device, reader: ExtentReader, inode: seq<byte>, b: nat, rest: seq<byte>,
                   take: nat,
                   ghost lay: Layout, ghost n: nat, ghost pbs: seq<nat>, ghost disk: seq<byte>,
                   ghost data: seq<byte>)
    returns (ok: bool)
    requires v.Valid() && reader.Valid() && b < n && take <= v.blockSize && (take == v.blockSize || |rest| <= take)
    requires Writing(v, disk, dev.bytes, inode, lay, n, pbs, data, b, rest)
    modifies dev, reader
    ensures reader.Valid() && b <= |pbs| && (ok <==> b < |pbs|)
    ensures !ok ==> dev.bytes == Scatter(disk, Offs(v, pbs), v.blockSize, data)
    ensures ok ==> Writing(v, disk, dev.bytes, inode, lay, n, pbs, data, b + 1, rest[Chunk(v.blockSize, rest)..])
  {
    hide Mapped, Separate, Volume.At, WholeSectors, LayoutOk;
    MappedWhole(v, dev.bytes, inode, lay, n, pbs);
    var pb, blk := LoadBlock(v, dev, reader, inode, b, lay, n, pbs);
    if blk.None? {
      WritingDone(v, disk, dev.bytes, inode, lay, n, pbs, data, b, rest);
      return false;
    }
    var c := if |rest| < take then |rest| else take;
    WritingStep(v, disk, dev.bytes, inode, lay, n, pbs, data, b, rest);
    BlockPlace(v, pb);
    hide Writing;
    ok := WriteBytes(dev, v.base, pb * v.blockSize, rest[..c] + blk.value[c..]);
  }

  lemma BlockPlace(v: Volume, pb: nat)
    ensures v.base * ExtDisk.SECTOR + pb * v.blockSize == v.At(pb)
  {
  }

  lemma MappedWhole(v: Volume, disk: seq<byte>, inode: seq<byte>, lay: Layout, n: nat, pbs: seq<nat>)
    requires Mapped(v, disk, inode, lay, n, pbs)
    ensures WholeSectors(disk)
  {
  }

  /**
   `extfs_write_file` for a resolved inode. The bytes always go where they
   belong; the return value reports success exactly when every block visited is
   there and the buffer is the whole file or whole blocks.
   */
  method WriteFile(v: Volume, dev: Disk.Device, reader: ExtentReader, inode: seq<byte>, data: seq<byte>,
                   ghost lay: Layout, ghost pbs: seq<nat>) returns (ok: bool)
    requires v.Valid() && |inode| == INODE && reader.Valid() && LayoutOk(v, dev.bytes, inode, lay)
    requires Ceil(v.blockSize, InodeSize(inode)) < TWO32
    requires Mapped(v, dev.bytes, inode, lay, BlockCount(v, InodeSize(inode)), pbs)
    requires Separate(v, dev.bytes, inode, lay, BlockCount(v, InodeSize(inode)), pbs)
    modifies dev, reader
    ensures reader.Valid()
    ensures !Regular(inode) || |data| > InodeSize(inode) ==> !ok && dev.bytes == old(dev.bytes)
    ensures Regular(inode) && InodeSize(inode) == 0 && |data| == 0 ==> ok && dev.bytes == old(dev.bytes)
    ensures Regular(inode) && |data| <= InodeSize(inode) && InodeSize(inode) > 0 ==>
              && InDisk(old(dev.bytes), Offs(v, pbs), v.blockSize)
              && dev.bytes == Scatter(old(dev.bytes), Offs(v, pbs), v.blockSize, data)
              && (ok <==> Visited(v.blockSize, |data|) <= |pbs| && CountMatches(v.blockSize, |data|, InodeSize(inode)))
  {
    hide BlockCount, InodeSize, Regular, Volume.At, Mapped, Separate, Ceil, InDisk, Writing, LayoutOk, Times;
    hide CountMatches;
    var size := InodeSize(inode);
    if !Regular(inode) || |data| > size {
      return false;
    }
    if size == 0 {
      return |data| == 0;
    }
    CountIsCeil(v, size);
    var blocks := BlockCount(v, size);
    ghost var disk, unit := dev.bytes, v.blockSize;
    StartWriting(v, disk, inode, lay, blocks, pbs, data);
    NoBlocks(unit);
    CeilStep(unit, size);
    CeilStep(unit, 0);
    var written, rest := 0, data;  // `rest` is the part of the buffer not yet written
    var b := 0;
    while b < blocks
      invariant reader.Valid() && b <= |pbs| && b < blocks && written < size
      invariant blocks - b == Ceil(unit, size - written) && written == Times(b, unit)
      invariant written + |rest| == |data| && (b > 0 ==> |rest| > 0)
      invariant Ceil(unit, |data|) == b + Ceil(unit, |rest|)
      invariant Writing(v, disk, dev.bytes, inode, lay, blocks, pbs, data, b, rest)
      decreases blocks - b
    {
      CeilStep(unit, |rest|);
      CeilStep(unit, size - written);
      TimesStep(b, unit);
      var take := v.blockSize;
      if written + take > size {
        take := size - written;
      }
      var saved := SaveBlock(v, dev, reader, inode, b, rest, take, lay, blocks, pbs, disk, data);
      if !saved {
        return false;
      }
      written := written + take;
      if written >= |data| {
        LastBlock(unit, b, |rest|, size);
        WritingDone(v, disk, dev.bytes, inode, lay, blocks, pbs, data, b + 1, rest[Chunk(unit, rest)..]);
        break;
      }
      CeilStep(unit, size - written);
      rest := rest[take..];
      b := b + 1;
    }
    ok := written == |data|;
  }

  /** What a successful or partial overwrite means for the file and for the rest of the disk. */
  lemma OverwriteThenRead(v: Volume, disk: seq<byte>, inode: seq<byte>, lay: Layout, n: nat, pbs: seq<nat>,
                          data: seq<byte>, size: nat)
    requires Mapped(v, disk, inode, lay, n, pbs) && Separate(v, disk, inode, lay, n, pbs)
    requires |data| <= size <= |FileBytes(v, disk, inode, lay, n, pbs)|
    ensures InDisk(disk, Offs(v, pbs), v.blockSize)
    ensures var disk' := Scatter(disk, Offs(v, pbs), v.blockSize, data);
            && Mapped(v, disk', inode, lay, n, pbs) && Separate(v, disk', inode, lay, n, pbs)
            && Cut(FileBytes(v, disk', inode, lay, n, pbs), size) ==
               data + FileBytes(v, disk, inode, lay, n, pbs)[|data|..size]
            && forall k :: 0 <= k < |disk| && Outside(Offs(v, pbs), v.blockSize, k) ==> disk'[k] == disk[k]
  {
    hide Volume.At, Separate, InDisk, Outside, Apart, Gather, Scatter, LayoutOk, MapBlock, Limit;
    OffsIn(v, disk, inode, lay, n, pbs);
    ScatterKeepsMap(v, disk, inode, lay, n, pbs, data);
    SeparateApart(v, disk, inode, lay, n, pbs);
    OverwriteEffect(disk, Offs(v, pbs), v.blockSize, data, size);
  }

  lemma {:induction false} CeilCovers(unit: nat, len: nat)
    requires unit > 0
    ensures len <= Times(Ceil(unit, len), unit)
    decreases len
  {
    if len == 0 {
    } else {
      CeilCovers(unit, if len <= unit then 0 else len - unit);
    }
  }

  lemma SeparateApart(v: Volume, disk: seq<byte>, inode: seq<byte>, lay: Layout, n: nat, pbs: seq<nat>)
    requires LayoutOk(v, disk, inode, lay) && Separate(v, disk, inode, lay, n, pbs)
    ensures Apart(Offs(v, pbs), v.blockSize)
  {
    hide Volume.At, LayoutOk, IsMeta;
    forall i, j | 0 <= i < j < |pbs|
      ensures Offs(v, pbs)[i] + v.blockSize <= Offs(v, pbs)[j] || Offs(v, pbs)[j] + v.blockSize <= Offs(v, pbs)[i]
    {
      BlocksApart(v, pbs[i], pbs[j]);
    }
  }

  lemma ScatterKeepsMap(v: Volume, disk: seq<byte>, inode: seq<byte>, lay: Layout, n: nat, pbs: seq<nat>,
                        data: seq<byte>)
    requires Mapped(v, disk, inode, lay, n, pbs) && Separate(v, disk, inode, lay, n, pbs)
    requires InDisk(disk, Offs(v, pbs), v.blockSize)
    ensures var disk' := Scatter(disk, Offs(v, pbs), v.blockSize, data);
            Mapped(v, disk', inode, lay, n, pbs) && Separate(v, disk', inode, lay, n, pbs)
  {
    hide LayoutOk, Volume.At, MapBlock, IsMeta, Limit;
    var offs, unit := Offs(v, pbs), v.blockSize;
    var disk' := Scatter(disk, offs, unit, data);
    forall m | IsMeta(v, disk, inode, lay, n, m) ensures SameBlock(v, disk, disk', m) {
      ScatterKeepsBlock(v, disk, pbs, data, m);
    }
    LayoutFrame(v, disk, disk', inode, lay, n);
    KeepsWhole(disk, disk');
  }

  lemma ScatterKeepsBlock(v: Volume, disk: seq<byte>, pbs: seq<nat>, data: seq<byte>, m: nat)
    requires InDisk(disk, Offs(v, pbs), v.blockSize) && m !in pbs
    ensures SameBlock(v, disk, Scatter(disk, Offs(v, pbs), v.blockSize, data), m)
  {
    hide Volume.At;
    var offs, unit := Offs(v, pbs), v.blockSize;
    forall k | v.At(m) <= k < v.At(m) + unit && k < |disk| ensures Scatter(disk, offs, unit, data)[k] == disk[k] {
      forall i | 0 <= i < |offs| ensures k < offs[i] || offs[i] + unit <= k {
        BlocksApart(v, pbs[i], m);
      }
      ScatterFrame(disk, offs, unit, data, k);
    }
  }

  lemma NoBlocks(unit: nat)
    ensures Times(0, unit) == 0
  {
  }

  lemma TimesStep(b: nat, unit: nat)
    ensures Times(b + 1, unit) == Times(b, unit) + unit
  {
  }

  // ----- write, then read

  lemma {:induction false} CeilMono(unit: nat, a: nat, b: nat)
    requires unit > 0 && a <= b
    ensures Ceil(unit, a) <= Ceil(unit, b)
    decreases b
  {
    if a == 0 {
    } else {
      CeilMono(unit, if a <= unit then 0 else a - unit, if b <= unit then 0 else b - unit);
    }
  }

  /** A regular file all of whose blocks are there, small enough to read whole. */
  ghost predicate Complete(v: Volume, disk: seq<byte>, inode: seq<byte>, lay: Layout, pbs: seq<nat>)
  {
    && LayoutOk(v, disk, inode, lay) && Regular(inode) && InodeSize(inode) < TWO32
    && Mapped(v, disk, inode, lay, BlockCount(v, InodeSize(inode)), pbs) && |pbs| == BlockCount(v, InodeSize(inode))
    && Separate(v, disk, inode, lay, BlockCount(v, InodeSize(inode)), pbs)
  }

  /** The bytes of the file. */
  ghost function Content(v: Volume, disk: seq<byte>, inode: seq<byte>, lay: Layout, pbs: seq<nat>): (bytes: seq<byte>)
    requires Complete(v, disk, inode, lay, pbs)
    ensures |bytes| == InodeSize(inode)
  {
    CoversFile(v, disk, inode, lay, pbs);
    FileBytes(v, disk, inode, lay, |pbs|, pbs)[..InodeSize(inode)]
  }

  lemma CoversFile(v: Volume, disk: seq<byte>, inode: seq<byte>, lay: Layout, pbs: seq<nat>)
    requires Complete(v, disk, inode, lay, pbs)
    ensures |pbs| == Ceil(v.blockSize, InodeSize(inode)) < TWO32
    ensures InodeSize(inode) <= |FileBytes(v, disk, inode, lay, |pbs|, pbs)|
  {
    hide Mapped, Separate, LayoutOk, InodeSize, Regular, BlockCount, Ceil, Volume.At, InDisk;
    LayoutValid(v, disk, inode, lay);
    var size := InodeSize(inode);
    SmallCount(v, size);
    CountIsCeil(v, size);
    OffsIn(v, disk, inode, lay, |pbs|, pbs);
    GatherLength(disk, Offs(v, pbs), v.blockSize);
    CeilCovers(v.blockSize, size);
  }

  lemma LayoutValid(v: Volume, disk: seq<byte>, inode: seq<byte>, lay: Layout)
    requires LayoutOk(v, disk, inode, lay)
    ensures v.Valid() && |inode| == INODE
  {
  }

  /** An overwrite with `data` is complete again, and only the front of the file changed. */
  lemma ContentAfter(v: Volume, disk: seq<byte>, inode: seq<byte>, lay: Layout, pbs: seq<nat>, data: seq<byte>)
    requires Complete(v, disk, inode, lay, pbs) && |data| <= InodeSize(inode)
    ensures InDisk(disk, Offs(v, pbs), v.blockSize)
    ensures var disk' := Scatter(disk, Offs(v, pbs), v.blockSize, data);
            && Complete(v, disk', inode, lay, pbs)
            && Content(v, disk', inode, lay, pbs) == data + Content(v, disk, inode, lay, pbs)[|data|..]
  {
    hide Mapped, Separate, LayoutOk, InodeSize, Regular, BlockCount, Ceil, Volume.At, InDisk, FileBytes, Scatter;
    LayoutValid(v, disk, inode, lay);
    CoversFile(v, disk, inode, lay, pbs);
    OverwriteThenRead(v, disk, inode, lay, |pbs|, pbs, data, InodeSize(inode));
    var disk' := Scatter(disk, Offs(v, pbs), v.blockSize, data);
    MappedLayout(v, disk', inode, lay, |pbs|, pbs);
    CoversFile(v, disk', inode, lay, pbs);
    var was, size := FileBytes(v, disk, inode, lay, |pbs|, pbs), InodeSize(inode);
    assert was[|data|..size] == was[..size][|data|..];
  }

  lemma MappedLayout(v: Volume, disk: seq<byte>, inode: seq<byte>, lay: Layout, n: nat, pbs: seq<nat>)
    requires Mapped(v, disk, inode, lay, n, pbs)
    ensures LayoutOk(v, disk, inode, lay)
  {
  }

  /**
   `extfs_write_file` then `extfs_read_file` of a file whose blocks are all there:
   the read gives the buffer followed by the old rest of the file, whatever the
   write returned; the write reports success exactly for a whole file or whole blocks.
   */
  method WriteThenRead(v: Volume, dev: Disk.Device, reader: ExtentReader, inode: seq<byte>, data: seq<byte>,
                       bufferSize: u32, ghost lay: Layout, ghost pbs: seq<nat>) returns (ok: bool, r: Option<seq<byte>>)
    requires reader.Valid() && Complete(v, dev.bytes, inode, lay, pbs) && |data| <= InodeSize(inode) <= bufferSize
    modifies dev, reader
    ensures reader.Valid() && Complete(v, dev.bytes, inode, lay, pbs) && v.blockSize > 0
    ensures r == Some(data + old(Content(v, dev.bytes, inode, lay, pbs))[|data|..])
    ensures ok <==> CountMatches(v.blockSize, |data|, InodeSize(inode))
  {
    hide Mapped, Separate, LayoutOk, InodeSize, Regular, BlockCount, Ceil, Volume.At, InDisk, FileBytes, Scatter;
    hide CountMatches;
    LayoutValid(v, dev.bytes, inode, lay);
    ghost var disk, size := dev.bytes, InodeSize(inode);
    CoversFile(v, disk, inode, lay, pbs);
    ContentAfter(v, disk, inode, lay, pbs, data);
    VisitedFit(v.blockSize, |data|, size);
    if size == 0 {
      NothingScattered(disk, Offs(v, pbs), v.blockSize, data);
    }
    ok := WriteFile(v, dev, reader, inode, data, lay, pbs);
    assert dev.bytes == Scatter(disk, Offs(v, pbs), v.blockSize, data);
    ContentIsCut(v, dev.bytes, inode, lay, pbs);
    hide Content, Complete;
    r := ReadFile(v, dev, reader, inode, bufferSize, lay, pbs);
  }

  lemma ContentIsCut(v: Volume, disk: seq<byte>, inode: seq<byte>, lay: Layout, pbs: seq<nat>)
    requires Complete(v, disk, inode, lay, pbs)
    ensures v.Valid() && |inode| == INODE && Mapped(v, disk, inode, lay, BlockCount(v, InodeSize(inode)), pbs)
    ensures Cut(FileBytes(v, disk, inode, lay, BlockCount(v, InodeSize(inode)), pbs), InodeSize(inode)) ==
            Content(v, disk, inode, lay, pbs)
  {
    hide Mapped, Separate, LayoutOk, InodeSize, Regular, BlockCount, FileBytes;
    LayoutValid(v, disk, inode, lay);
    CoversFile(v, disk, inode, lay, pbs);
  }

  lemma VisitedFit(unit: nat, len: nat, size: nat)
    requires unit > 0 && len <= size
    ensures size > 0 ==> Visited(unit, len) <= Ceil(unit, size)
    ensures size == 0 ==> CountMatches(unit, len, size)
  {
    CeilMono(unit, len, size);
    CeilStep(unit, size);
  }

  lemma NothingScattered(disk: seq<byte>, offs: seq<nat>, unit: nat, data: seq<byte>)
    requires InDisk(disk, offs, unit) && data == []
    ensures Scatter(disk, offs, unit, data) == disk
  {
  }

  /** A buffer of exactly the file's size: the write succeeds and the read gives the buffer back. */
  method WholeFileOverwrite(v: Volume, dev: Disk.Device, reader: ExtentReader, inode: seq<byte>, data: seq<byte>,
                            ghost lay: Layout, ghost pbs: seq<nat>) returns (ok: bool, r: Option<seq<byte>>)
    requires reader.Valid() && Complete(v, dev.bytes, inode, lay, pbs) && |data| == InodeSize(inode)
    modifies dev, reader
    ensures reader.Valid() && ok && r == Some(data)
  {
    hide Complete, Content, InodeSize;
    assert |data| < TWO32 by { SizeFits(v, dev.bytes, inode, lay, pbs); }
    ghost var before := Content(v, dev.bytes, inode, lay, pbs);
    ok, r := WriteThenRead(v, dev, reader, inode, data, |data|, lay, pbs);
    assert data + before[|data|..] == data;
  }

  lemma SizeFits(v: Volume, disk: seq<byte>, inode: seq<byte>, lay: Layout, pbs: seq<nat>)
    requires Complete(v, disk, inode, lay, pbs)
    ensures InodeSize(inode) < TWO32
  {
  }

  /** A one-byte buffer for a longer file: the write reports failure, and the byte has been written. */
  method ShortBufferFails(v: Volume, dev: Disk.Device, reader: ExtentReader, inode: seq<byte>, x: byte, bufferSize: u32,
                          ghost lay: Layout, ghost pbs: seq<nat>) returns (ok: bool, r: Option<seq<byte>>)
    requires reader.Valid() && Complete(v, dev.bytes, inode, lay, pbs) && 1 < InodeSize(inode) <= bufferSize
    modifies dev, reader
    ensures !ok && r == Some([x] + old(Content(v, dev.bytes, inode, lay, pbs))[1..])
  {
    LayoutValid(v, dev.bytes, inode, lay);
    ModStep(v.blockSize, 1);
    hide Complete, Content, InodeSize;
    ok, r := WriteThenRead(v, dev, reader, inode, [x], bufferSize, lay, pbs);
  }
}
