/** exFAT as the kernel reads it (`exfat.c`): cluster heap, FAT chains, whole-file read and overwrite. */
module Exfat {
  import opened Words
  import opened Bytes
  import opened FileData
  import Disk

  const EOC: nat := 0xFFFF_FFFF
  const SECTOR: nat := 512

  /** The mounted geometry, with the partition at LBA 0. */
  datatype Volume = Volume(fatLba: nat, heapLba: nat, root: nat, count: nat, spc: nat)
  {
    function ClusterBytes(): nat { spc * SECTOR }

    /** First byte of cluster `c`. */
    function Offset(c: nat): nat { if c < 2 then 0 else (heapLba + (c - 2) * spc) * SECTOR }

    function FatByte(c: nat): nat { fatLba * SECTOR + 4 * c }

    /** A cluster the allocation tool may use: 2 up to and including `count + 1`. */
    predicate IsCluster(c: nat) { 2 <= c < count + 2 }
  }

  /** FAT before heap, both inside the disk, and everything addressable with 32-bit sector numbers. */
  ghost predicate Fits(v: Volume, disk: seq<byte>)
  {
    && 1 <= v.spc <= 8 && 2 <= v.count && v.count + 2 <= 0xFFFF_FFF0
    && v.fatLba * SECTOR + 4 * (v.count + 2) <= v.heapLba * SECTOR <= |disk|
    && (v.heapLba + v.count * v.spc) * SECTOR <= |disk|
    && v.heapLba + v.count * v.spc < TWO32
  }

  lemma OffsetBounds(v: Volume, disk: seq<byte>, c: nat)
    requires Fits(v, disk) && v.IsCluster(c)
    ensures v.heapLba * SECTOR <= v.Offset(c) && v.Offset(c) + v.ClusterBytes() <= |disk|
    ensures v.FatByte(c) + 4 <= v.heapLba * SECTOR <= |disk|
  {
    assert (c - 2) * v.spc + v.spc == (c - 1) * v.spc;
    MulMono(c - 1, v.count, v.spc);
    MulMono(0, c - 2, v.spc);
  }

  /** Distinct clusters occupy disjoint bytes. */
  lemma ClustersApart(v: Volume, c: nat, d: nat)
    requires v.IsCluster(c) && v.IsCluster(d) && c != d
    ensures v.Offset(c) + v.ClusterBytes() <= v.Offset(d) || v.Offset(d) + v.ClusterBytes() <= v.Offset(c)
  {
    if c < d {
      MulMono(c - 1, d - 2, v.spc);
      assert (c - 2) * v.spc + v.spc == (c - 1) * v.spc;
    } else {
      MulMono(d - 1, c - 2, v.spc);
      assert (d - 2) * v.spc + v.spc == (d - 1) * v.spc;
    }
  }

  // ----- the kernel's primitives

  /** `cluster_first_lba`: 0 for a cluster the kernel rejects. */
  function ClusterLba(v: Volume, c: nat): nat
  {
    if c < 2 || c > v.count then 0 else v.heapLba + (c - 2) * v.spc
  }

  /** `read_cluster`. */
  function ReadCluster(v: Volume, disk: seq<byte>, c: nat): (r: Option<seq<byte>>)
    ensures r.Some? ==> |r.value| == v.ClusterBytes()
  {
    var lba := ClusterLba(v, c);
    if lba == 0 then None else Disk.Read(disk, lba, v.spc)
  }

  /** A FAT entry never straddles two sectors. */
  lemma FatPlace(c: nat)
    ensures 4 * c == 4 * c / SECTOR * SECTOR + 4 * c % SECTOR && 4 * c % SECTOR + 4 <= SECTOR
  {
    assert 4 * c / SECTOR == c / 128;
  }

  /** `next_cluster`: the FAT entry, read through its sector. */
  function NextCluster(v: Volume, disk: seq<byte>, c: nat): nat
  {
    var fatByte := 4 * c;
    FatPlace(c);
    match Disk.Read(disk, v.fatLba + fatByte / SECTOR, 1)
    case None => EOC
    case Some(s) =>
      var val := Le32At(s, fatByte % SECTOR);
      if val >= 0xFFFF_FFF8 then EOC else val
  }

  /** The FAT entry of `c` as the allocation tool sees it. */
  function FatEntry(v: Volume, disk: seq<byte>, c: nat): u32
    requires v.FatByte(c) + 4 <= |disk|
  {
    Le32At(disk, v.FatByte(c))
  }

  lemma NextIsEntry(v: Volume, disk: seq<byte>, c: nat)
    requires Fits(v, disk) && v.IsCluster(c)
    ensures v.FatByte(c) + 4 <= |disk|
    ensures NextCluster(v, disk, c) == if FatEntry(v, disk, c) >= 0xFFFF_FFF8 then EOC else FatEntry(v, disk, c)
  {
    OffsetBounds(v, disk, c);
    FatPlace(c);
    SectorField(disk, v.fatLba + 4 * c / SECTOR, 4 * c % SECTOR);
    assert v.fatLba + 4 * c / SECTOR + 1 <= v.heapLba;
  }

  /** A field read through its sector is the field on the disk. */
  lemma SectorField(disk: seq<byte>, lba: nat, off: nat)
    requires (lba + 1) * SECTOR <= |disk| && off + 4 <= SECTOR
    ensures Disk.Read(disk, lba, 1).Some?
    ensures Le32At(Disk.Read(disk, lba, 1).value, off) == Le32At(disk, lba * SECTOR + off)
  {
    var s := disk[lba * SECTOR..(lba + 1) * SECTOR];
    SliceOfSlice(disk, lba * SECTOR, (lba + 1) * SECTOR, off, off + 4);
    SameField(s, disk, off, lba * SECTOR + off);
  }

  // ----- chains

  /** `cs` is a FAT chain: distinct clusters, each linked to the next, the last marked end-of-chain. */
  ghost predicate IsChain(v: Volume, disk: seq<byte>, cs: seq<nat>)
  {
    && cs != []
    && (forall i :: 0 <= i < |cs| ==> v.IsCluster(cs[i]) && v.FatByte(cs[i]) + 4 <= |disk|)
    && (forall i, j :: 0 <= i < j < |cs| ==> cs[i] != cs[j])
    && (forall i :: 0 <= i < |cs| ==> FatEntry(v, disk, cs[i]) == if i + 1 < |cs| then cs[i + 1] else EOC)
  }

  ghost function Offsets(v: Volume, cs: seq<nat>): (offs: seq<nat>)
    ensures |offs| == |cs| && forall i :: 0 <= i < |cs| ==> offs[i] == v.Offset(cs[i])
  {
    seq(|cs|, i requires 0 <= i < |cs| => v.Offset(cs[i]))
  }

  lemma OffsetsApart(v: Volume, disk: seq<byte>, cs: seq<nat>)
    requires Fits(v, disk) && IsChain(v, disk, cs)
    ensures InDisk(disk, Offsets(v, cs), v.ClusterBytes()) && Apart(Offsets(v, cs), v.ClusterBytes())
  {
    forall i | 0 <= i < |cs| ensures v.Offset(cs[i]) + v.ClusterBytes() <= |disk| {
      OffsetBounds(v, disk, cs[i]);
    }
    forall i, j | 0 <= i < j < |cs|
      ensures v.Offset(cs[i]) + v.ClusterBytes() <= v.Offset(cs[j])
              || v.Offset(cs[j]) + v.ClusterBytes() <= v.Offset(cs[i])
    {
      ClustersApart(v, cs[i], cs[j]);
    }
  }

  /** The bytes of a chain in file order, whole clusters. */
  ghost function ChainBytes(v: Volume, disk: seq<byte>, cs: seq<nat>): seq<byte>
    requires Fits(v, disk) && IsChain(v, disk, cs)
  {
    OffsetsApart(v, disk, cs);
    Gather(disk, Offsets(v, cs), v.ClusterBytes())
  }

  /** The kernel can address the whole chain: it rejects cluster `count + 1`. */
  ghost predicate Readable(v: Volume, cs: seq<nat>) { forall i :: 0 <= i < |cs| ==> cs[i] <= v.count }

  lemma ReadIsUnit(v: Volume, disk: seq<byte>, c: nat)
    requires Fits(v, disk) && v.IsCluster(c)
    ensures v.Offset(c) + v.ClusterBytes() <= |disk|
    ensures ReadCluster(v, disk, c) == if c <= v.count then Some(Unit(disk, v.Offset(c), v.ClusterBytes())) else None
    ensures c <= v.count ==> 0 < ClusterLba(v, c) == v.heapLba + (c - 2) * v.spc
  {
    OffsetBounds(v, disk, c);
    MulMono(0, c - 2, v.spc);
  }

  /** What a chain's links tell the kernel. */
  lemma LinkOf(v: Volume, disk: seq<byte>, cs: seq<nat>, i: nat)
    requires Fits(v, disk) && IsChain(v, disk, cs) && i < |cs|
    ensures NextCluster(v, disk, cs[i]) == if i + 1 < |cs| then cs[i + 1] else EOC
    ensures 2 <= cs[i] < EOC
  {
    NextIsEntry(v, disk, cs[i]);
    assert FatEntry(v, disk, cs[i]) == if i + 1 < |cs| then cs[i + 1] else EOC;
  }

  // ----- whole-file read and overwrite

  /**
   Bytes copied by following links from `c` until `left` are copied or the chain ends; `None`
   on a rejected cluster.
   */
  function Collect(v: Volume, disk: seq<byte>, c: nat, left: nat): Option<seq<byte>>
    requires v.spc > 0
    decreases left
  {
    if !(2 <= c < EOC) || left == 0 then Some([])
    else
      match ReadCluster(v, disk, c)
      case None => None
      case Some(buf) =>
        var take := if left < v.ClusterBytes() then left else v.ClusterBytes();
        Prepend(buf[..take], Collect(v, disk, NextCluster(v, disk, c), left - take))
  }

  lemma CollectStep(v: Volume, disk: seq<byte>, c: nat, left: nat, dst: seq<byte>)
    requires v.spc > 0 && 2 <= c < EOC && left > 0 && ReadCluster(v, disk, c).Some?
    ensures var take := if left < v.ClusterBytes() then left else v.ClusterBytes();
            Prepend(dst, Collect(v, disk, c, left)) ==
            Prepend(dst + ReadCluster(v, disk, c).value[..take], Collect(v, disk, NextCluster(v, disk, c), left - take))
  {
    hide ReadCluster, NextCluster;
    var take := if left < v.ClusterBytes() then left else v.ClusterBytes();
    PrependTwice(dst, ReadCluster(v, disk, c).value[..take], Collect(v, disk, NextCluster(v, disk, c), left - take));
  }

  /** `exfat_read_file` for a resolved entry: all of `size` bytes or an error. */
  method ReadFile(v: Volume, disk: seq<byte>, first: nat, size: nat) returns (r: Option<seq<byte>>)
    requires v.spc > 0
    ensures var c := Collect(v, disk, first, size); r == if c.Some? && |c.value| == size then c else None
  {
    hide NextCluster, ReadCluster;
    var dst: seq<byte>, cluster: nat := [], first;
    while 2 <= cluster < EOC && |dst| < size
      invariant |dst| <= size
      invariant Prepend(dst, Collect(v, disk, cluster, size - |dst|)) == Collect(v, disk, first, size)
      decreases size - |dst|
    {
      var buf := ReadCluster(v, disk, cluster);
      if buf.None? {
        return None;
      }
      CollectStep(v, disk, cluster, size - |dst|, dst);
      var left := size - |dst|;
      var take := if left < v.ClusterBytes() then left else v.ClusterBytes();
      dst := dst + buf.value[..take];
      cluster := NextCluster(v, disk, cluster);
    }
    r := if |dst| == size then Some(dst) else None;
  }

  /** The clusters of a chain from the `i`-th on. */
  ghost function TailBytes(v: Volume, disk: seq<byte>, cs: seq<nat>, i: nat): seq<byte>
    requires Fits(v, disk) && IsChain(v, disk, cs) && i <= |cs|
    decreases |cs| - i
  {
    if i == |cs| then []
    else OffsetBounds(v, disk, cs[i]); Unit(disk, v.Offset(cs[i]), v.ClusterBytes()) + TailBytes(v, disk, cs, i + 1)
  }

  lemma {:induction false} TailIsGather(v: Volume, disk: seq<byte>, cs: seq<nat>, i: nat)
    requires Fits(v, disk) && IsChain(v, disk, cs) && i <= |cs|
    ensures InDisk(disk, Offsets(v, cs)[i..], v.ClusterBytes())
    ensures TailBytes(v, disk, cs, i) == Gather(disk, Offsets(v, cs)[i..], v.ClusterBytes())
    decreases |cs| - i
  {
    OffsetsApart(v, disk, cs);
    if i == |cs| {
    } else {
      TailIsGather(v, disk, cs, i + 1);
      assert Offsets(v, cs)[i..][1..] == Offsets(v, cs)[i + 1..];
    }
  }

  /** Reading a chain the kernel can address gives its bytes, cut at the requested length. */
  lemma {:induction false} CollectChain(v: Volume, disk: seq<byte>, cs: seq<nat>, i: nat, left: nat)
    requires Fits(v, disk) && IsChain(v, disk, cs) && i <= |cs| && Readable(v, cs)
    ensures var t := TailBytes(v, disk, cs, i);
            Collect(v, disk, if i < |cs| then cs[i] else EOC, left) == Some(Cut(t, left))
    decreases |cs| - i
  {
    hide IsChain, Fits, Readable, ReadCluster, NextCluster, Volume.Offset, ClusterLba;
    if i == |cs| || left == 0 {
    } else {
      assert 2 <= cs[i] <= v.count by { ReadableAt(v, disk, cs, i); }
      ReadIsUnit(v, disk, cs[i]);
      LinkOf(v, disk, cs, i);
      var unit := Unit(disk, v.Offset(cs[i]), v.ClusterBytes());
      var take := if left < |unit| then left else |unit|;
      CollectChain(v, disk, cs, i + 1, left - take);
      CutJoin(unit, TailBytes(v, disk, cs, i + 1), left);
      assert Cut(unit, left) == unit[..take];
    }
  }

  lemma ReadableAt(v: Volume, disk: seq<byte>, cs: seq<nat>, i: nat)
    requires IsChain(v, disk, cs) && Readable(v, cs) && i < |cs|
    ensures 2 <= cs[i] <= v.count
  {
  }

  lemma ChainCluster(v: Volume, disk: seq<byte>, cs: seq<nat>, i: nat)
    requires Fits(v, disk) && IsChain(v, disk, cs) && i < |cs|
    ensures v.IsCluster(cs[i]) && v.spc > 0
  {
  }

  /** The bytes of `n` whole clusters. */
  function Span(v: Volume, n: nat): nat { Times(n, v.ClusterBytes()) }

  /** A read that needs a cluster the kernel rejects fails. */
  lemma {:induction false} CollectRejects(v: Volume, disk: seq<byte>, cs: seq<nat>, i: nat, left: nat, bad: nat)
    requires Fits(v, disk) && IsChain(v, disk, cs) && i <= bad < |cs| && cs[bad] > v.count
    requires left > Span(v, bad - i)
    ensures Collect(v, disk, cs[i], left) == None
    decreases |cs| - i
  {
    hide IsChain, Fits, ReadCluster, NextCluster, Volume.Offset, ClusterLba;
    ChainCluster(v, disk, cs, i);
    ReadIsUnit(v, disk, cs[i]);
    LinkOf(v, disk, cs, i);
    if i == bad || cs[i] > v.count {
    } else {
      CollectRejects(v, disk, cs, i + 1, left - v.ClusterBytes(), bad);
    }
  }

  // ----- overwrite

  /** The disk after `data` is written along the links from `c`, and whether all of it was. */
  function Overwrite(v: Volume, disk: seq<byte>, c: nat, data: seq<byte>): (seq<byte>, bool)
    requires v.spc > 0
    decreases |data|
  {
    if !(2 <= c < EOC) || data == [] then (disk, data == [])
    else
      match ReadCluster(v, disk, c)
      case None => (disk, false)
      case Some(buf) =>
        var take := Chunk(v.ClusterBytes(), data);
        var disk' := Splice(disk, ClusterLba(v, c) * SECTOR, data[..take] + buf[take..]);
        Overwrite(v, disk', NextCluster(v, disk', c), data[take..])
  }

  lemma OverwriteStep(v: Volume, disk: seq<byte>, c: nat, data: seq<byte>)
    requires v.spc > 0 && 2 <= c < EOC && data != [] && ReadCluster(v, disk, c).Some?
    ensures Disk.InRange(disk, ClusterLba(v, c), v.spc)
    ensures var take := Chunk(v.ClusterBytes(), data);
            var disk' := Splice(disk, ClusterLba(v, c) * SECTOR, data[..take] + ReadCluster(v, disk, c).value[take..]);
            Overwrite(v, disk, c, data) == Overwrite(v, disk', NextCluster(v, disk', c), data[take..])
  {
  }

  /** `read_cluster`. */
  method FetchCluster(v: Volume, dev: Disk.Device, c: nat) returns (r: Option<seq<byte>>)
    ensures r == ReadCluster(v, dev.bytes, c)
  {
    var lba := ClusterLba(v, c);
    if lba == 0 {
      return None;
    }
    r := dev.ReadBlocks(lba, v.spc);
  }

  /** `exfat_write_file` for a resolved entry of `size` bytes. */
  method WriteFile(v: Volume, dev: Disk.Device, first: nat, size: nat, data: seq<byte>) returns (ok: bool)
    requires v.spc > 0
    modifies dev
    ensures |data| > size ==> !ok && dev.bytes == old(dev.bytes)
    ensures |data| <= size ==> (dev.bytes, ok) == Overwrite(v, old(dev.bytes), first, data)
  {
    if |data| > size {
      return false;
    }
    hide NextCluster, ClusterLba, Splice, ReadCluster, Disk.InRange;
    var cluster: nat, rest := first, data;  // `rest` is the part of the buffer not yet written
    while 2 <= cluster < EOC && rest != []
      invariant Overwrite(v, dev.bytes, cluster, rest) == Overwrite(v, old(dev.bytes), first, data)
      decreases |rest|
    {
      var buf := FetchCluster(v, dev, cluster);
      if buf.None? {
        return false;
      }
      OverwriteStep(v, dev.bytes, cluster, rest);
      var take := if |rest| < v.ClusterBytes() then |rest| else v.ClusterBytes();
      var _ := dev.WriteBlocks(ClusterLba(v, cluster), v.spc, rest[..take] + buf.value[take..]);
      rest := rest[take..];
      cluster := NextCluster(v, dev.bytes, cluster);
    }
    ok := rest == [];
  }

  /** Writing cluster data leaves the FAT, hence every chain, as it was. */
  lemma HeapWriteKeepsChain(v: Volume, disk: seq<byte>, disk': seq<byte>, cs: seq<nat>)
    requires Fits(v, disk) && IsChain(v, disk, cs) && |disk'| == |disk|
    requires disk'[..v.heapLba * SECTOR] == disk[..v.heapLba * SECTOR]
    ensures Fits(v, disk') && IsChain(v, disk', cs)
  {
    forall i | 0 <= i < |cs| ensures FatEntry(v, disk', cs[i]) == FatEntry(v, disk, cs[i]) {
      SameEntry(v, disk, disk', cs[i]);
    }
  }

  lemma SameEntry(v: Volume, disk: seq<byte>, disk': seq<byte>, c: nat)
    requires Fits(v, disk) && v.IsCluster(c) && |disk'| == |disk|
    requires disk'[..v.heapLba * SECTOR] == disk[..v.heapLba * SECTOR]
    ensures v.FatByte(c) + 4 <= |disk| && FatEntry(v, disk', c) == FatEntry(v, disk, c)
  {
    OffsetBounds(v, disk, c);
    var h, o := v.heapLba * SECTOR, v.FatByte(c);
    SliceOfSlice(disk, 0, h, o, o + 4);
    SliceOfSlice(disk', 0, h, o, o + 4);
    SameField(disk', disk, o, o);
  }

  lemma ClusterWrite(v: Volume, disk: seq<byte>, c: nat, data: seq<byte>)
    requires Fits(v, disk) && v.IsCluster(c) && |data| <= v.ClusterBytes()
    ensures v.Offset(c) + |data| <= |disk|
    ensures Splice(disk, v.Offset(c), data)[..v.heapLba * SECTOR] == disk[..v.heapLba * SECTOR]
  {
    OffsetBounds(v, disk, c);
    SpliceMisses(disk, v.Offset(c), data, 0, v.heapLba * SECTOR);
  }

  /** One cluster of the overwrite: it is a splice of the new prefix, and the chain survives it. */
  lemma OverwriteOne(v: Volume, disk: seq<byte>, cs: seq<nat>, i: nat, data: seq<byte>) returns (disk': seq<byte>)
    requires Fits(v, disk) && IsChain(v, disk, cs) && i < |cs| && Readable(v, cs) && data != []
    ensures v.Offset(cs[i]) + v.ClusterBytes() <= |disk|
    ensures var take := Chunk(v.ClusterBytes(), data); disk' == Splice(disk, v.Offset(cs[i]), data[..take])
    ensures Fits(v, disk') && IsChain(v, disk', cs)
    ensures Overwrite(v, disk, cs[i], data) ==
            Overwrite(v, disk', if i + 1 < |cs| then cs[i + 1] else EOC, data[Chunk(v.ClusterBytes(), data)..])
  {
    var c, unit := cs[i], v.ClusterBytes();
    var take := Chunk(unit, data);
    ReadableAt(v, disk, cs, i);
    ReadIsUnit(v, disk, c);
    PrefixSplice(disk, v.Offset(c), unit, data, take);
    ClusterWrite(v, disk, c, data[..take]);
    disk' := Splice(disk, v.Offset(c), data[..take]);
    HeapWriteKeepsChain(v, disk, disk', cs);
    LinkOf(v, disk', cs, i);
    hide IsChain, Fits, Readable, ReadCluster, NextCluster, Splice;
    assert v.Offset(c) == ClusterLba(v, c) * SECTOR;
  }

  /** Along a chain the kernel can address, the overwrite is exactly the scatter of the data. */
  lemma {:induction false} OverwriteChain(v: Volume, disk: seq<byte>, cs: seq<nat>, i: nat, data: seq<byte>)
    requires Fits(v, disk) && IsChain(v, disk, cs) && i <= |cs| && Readable(v, cs)
    requires |data| <= |TailBytes(v, disk, cs, i)|
    ensures InDisk(disk, Offsets(v, cs)[i..], v.ClusterBytes())
    ensures Overwrite(v, disk, if i < |cs| then cs[i] else EOC, data) ==
            (Scatter(disk, Offsets(v, cs)[i..], v.ClusterBytes(), data), true)
    decreases |cs| - i
  {
    TailIsGather(v, disk, cs, i);
    if i == |cs| || data == [] {
    } else {
      var disk' := OverwriteOne(v, disk, cs, i, data);
      hide IsChain, Fits, Readable, ReadCluster, NextCluster, Volume.Offset, Splice, InDisk;
      SameTailLength(v, disk, disk', cs, i + 1);
      OverwriteChain(v, disk', cs, i + 1, data[Chunk(v.ClusterBytes(), data)..]);
      assert Offsets(v, cs)[i..][1..] == Offsets(v, cs)[i + 1..] && Offsets(v, cs)[i..][0] == v.Offset(cs[i]);
    }
  }

  lemma {:induction false} SameTailLength(v: Volume, disk: seq<byte>, disk': seq<byte>, cs: seq<nat>, i: nat)
    requires Fits(v, disk) && IsChain(v, disk, cs) && Fits(v, disk') && IsChain(v, disk', cs) && i <= |cs|
    ensures |TailBytes(v, disk, cs, i)| == |TailBytes(v, disk', cs, i)|
    decreases |cs| - i
  {
    if i == |cs| {
    } else {
      OffsetBounds(v, disk, cs[i]);
      OffsetBounds(v, disk', cs[i]);
      hide IsChain, Fits, Volume.Offset;
      SameTailLength(v, disk, disk', cs, i + 1);
    }
  }

  /**
   `exfat_write_file` then `exfat_read_file`: the new prefix followed by the old
   rest. Bytes of no cluster of the chain are untouched, so no other file and no
   link changes.
   */
  lemma OverwriteThenRead(v: Volume, disk: seq<byte>, cs: seq<nat>, data: seq<byte>, size: nat)
    requires Fits(v, disk) && IsChain(v, disk, cs) && Readable(v, cs)
    requires |data| <= size <= |ChainBytes(v, disk, cs)|
    ensures var (disk', ok) := Overwrite(v, disk, cs[0], data);
            && ok && |disk'| == |disk|
            && Collect(v, disk, cs[0], size) == Some(ChainBytes(v, disk, cs)[..size])
            && Collect(v, disk', cs[0], size) == Some(data + ChainBytes(v, disk, cs)[|data|..size])
            && forall k :: 0 <= k < |disk| && Outside(Offsets(v, cs), v.ClusterBytes(), k) ==> disk'[k] == disk[k]
  {
    var offs, unit := Offsets(v, cs), v.ClusterBytes();
    assert |cs| > 0 && offs[0..] == offs;
    OffsetsApart(v, disk, cs);
    TailIsGather(v, disk, cs, 0);
    OverwriteChain(v, disk, cs, 0, data);
    var disk' := Scatter(disk, offs, unit, data);
    ScatterKeepsFat(v, disk, cs, data);
    hide IsChain, Fits, Volume.Offset, Overwrite, Collect, Readable, InDisk, Apart;
    OverwriteEffect(disk, offs, unit, data, size);
    CollectChain(v, disk, cs, 0, size);
    CollectChain(v, disk', cs, 0, size);
    TailIsGather(v, disk', cs, 0);
  }

  lemma ScatterKeepsFat(v: Volume, disk: seq<byte>, cs: seq<nat>, data: seq<byte>)
    requires Fits(v, disk) && IsChain(v, disk, cs) && InDisk(disk, Offsets(v, cs), v.ClusterBytes())
    ensures var disk' := Scatter(disk, Offsets(v, cs), v.ClusterBytes(), data);
            Fits(v, disk') && IsChain(v, disk', cs)
  {
    var offs, unit, h := Offsets(v, cs), v.ClusterBytes(), v.heapLba * SECTOR;
    var disk' := Scatter(disk, offs, unit, data);
    forall i | 0 <= i < |cs| ensures h <= offs[i] {
      OffsetBounds(v, disk, cs[i]);
    }
    forall k | 0 <= k < h ensures disk'[k] == disk[k] {
      ScatterFrame(disk, offs, unit, data, k);
    }
    SameSlice(disk', disk, 0, h);
    HeapWriteKeepsChain(v, disk, disk', cs);
  }
}
