/**
 The descriptor table over an ext image: what `open` loads and `close` writes
 back, on the bytes of the disk. Which inode a name stands for is given; from
 there on the volume of `FdTable` is what `extfs_read_file` reads from the image.
 */
module ExtFiles {
  import opened Words
  import opened FileData
  import opened ExtDisk
  import opened ExtMap
  import opened ExtTree
  import opened ExtFile
  import Disk
  import FdTable

  /** A file on the image: its inode, how its blocks are found, and the blocks. */
  datatype File = File(inode: seq<byte>, lay: Layout, pbs: seq<nat>)

  /** The image holds the bytes in the file's blocks, all of which are there. */
  ghost predicate Holds(v: Volume, disk: seq<byte>, f: File, bytes: seq<byte>)
  {
    Complete(v, disk, f.inode, f.lay, f.pbs) && Content(v, disk, f.inode, f.lay, f.pbs) == bytes
  }

  /** Block `m` holds part of the map of the file. */
  ghost predicate InMap(v: Volume, disk: seq<byte>, f: File, m: nat)
  {
    LayoutOk(v, disk, f.inode, f.lay) && IsMeta(v, disk, f.inode, f.lay, BlockCount(v, InodeSize(f.inode)), m)
  }

  /** No data block of `f` belongs to `g`. */
  ghost predicate Foreign(v: Volume, disk: seq<byte>, f: File, g: File)
  {
    forall m :: m in f.pbs ==> m !in g.pbs && !InMap(v, disk, g, m)
  }

  /** The volume is what the image holds, and no two files share a data block. */
  ghost predicate OnDisk(v: Volume, disk: seq<byte>, files: map<nat, File>, vol: FdTable.Vol)
  {
    && vol.kind.Ext? && files.Keys == vol.content.Keys
    && (forall id :: id in files ==> Holds(v, disk, files[id], vol.content[id]))
    && (forall a, b :: a in files && b in files && a != b ==> Foreign(v, disk, files[a], files[b]))
  }

  // ----- the two calls

  /** What `extfs_read_file` reads from a file whose blocks are all there. */
  ghost function Loaded(v: Volume, disk: seq<byte>, f: File): Option<seq<byte>>
  {
    if Complete(v, disk, f.inode, f.lay, f.pbs) then Some(Content(v, disk, f.inode, f.lay, f.pbs)) else None
  }

  /** The disk after `extfs_write_file`. */
  ghost function Saved(v: Volume, disk: seq<byte>, f: File, data: seq<byte>): seq<byte>
  {
    if Complete(v, disk, f.inode, f.lay, f.pbs) && |data| <= InodeSize(f.inode) then
      ContentAfter(v, disk, f.inode, f.lay, f.pbs, data);
      Scatter(disk, Offs(v, f.pbs), v.blockSize, data)
    else disk
  }

  method Load(v: Volume, dev: Disk.Device, reader: ExtentReader, inode: seq<byte>, ghost f: File)
    returns (r: Option<seq<byte>>)
    requires reader.Valid() && inode == f.inode && Complete(v, dev.bytes, f.inode, f.lay, f.pbs)
    modifies reader
    ensures reader.Valid() && r == Loaded(v, dev.bytes, f)
  {
    hide Mapped, Separate, LayoutOk, InodeSize, Regular, BlockCount, FileBytes, Content;
    ContentIsCut(v, dev.bytes, f.inode, f.lay, f.pbs);
    r := ReadFile(v, dev, reader, inode, InodeSize(inode), f.lay, f.pbs);
  }

  method Save(v: Volume, dev: Disk.Device, reader: ExtentReader, inode: seq<byte>, data: seq<byte>, ghost f: File)
    returns (ok: bool)
    requires reader.Valid() && inode == f.inode && Complete(v, dev.bytes, f.inode, f.lay, f.pbs)
    modifies dev, reader
    ensures reader.Valid() && dev.bytes == Saved(v, old(dev.bytes), f, data)
    ensures v.blockSize > 0
    ensures ok <==> |data| <= InodeSize(inode) && CountMatches(v.blockSize, |data|, InodeSize(inode))
  {
    hide Mapped, Separate, LayoutOk, InodeSize, Regular, BlockCount, Ceil, Volume.At, InDisk, Scatter, CountMatches;
    LayoutValid(v, dev.bytes, inode, f.lay);
    CoversFile(v, dev.bytes, inode, f.lay, f.pbs);
    if |data| <= InodeSize(inode) {
      ContentAfter(v, dev.bytes, inode, f.lay, f.pbs, data);
      VisitedFit(v.blockSize, |data|, InodeSize(inode));
      if InodeSize(inode) == 0 {
        NothingScattered(dev.bytes, Offs(v, f.pbs), v.blockSize, data);
      }
    }
    ok := WriteFile(v, dev, reader, inode, data, f.lay, f.pbs);
  }

  // ----- one write, seen by every file

  lemma CompleteFacts(v: Volume, disk: seq<byte>, f: File)
    requires Complete(v, disk, f.inode, f.lay, f.pbs)
    ensures LayoutOk(v, disk, f.inode, f.lay) && v.Valid() && |f.inode| == INODE
    ensures var n := BlockCount(v, InodeSize(f.inode));
            && n == |f.pbs| && Mapped(v, disk, f.inode, f.lay, n, f.pbs) && Separate(v, disk, f.inode, f.lay, n, f.pbs)
            && (f.lay.Indirect? ==> n <= Limit(v))
  {
    hide BlockCount, InodeSize, Limit;
  }

  /** A write to blocks outside the map of `g` leaves that map as it was. */
  lemma MapKept(v: Volume, disk: seq<byte>, pbs: seq<nat>, data: seq<byte>, g: File)
    requires Complete(v, disk, g.inode, g.lay, g.pbs) && InDisk(disk, Offs(v, pbs), v.blockSize)
    requires forall m :: m in pbs ==> !InMap(v, disk, g, m)
    ensures var disk', n := Scatter(disk, Offs(v, pbs), v.blockSize, data), BlockCount(v, InodeSize(g.inode));
            && LayoutOk(v, disk', g.inode, g.lay)
            && (forall lbn: nat :: lbn < n ==>
                  MapBlock(v, disk', g.inode, g.lay, lbn) == MapBlock(v, disk, g.inode, g.lay, lbn))
            && forall m :: InMap(v, disk', g, m) <==> InMap(v, disk, g, m)
  {
    CompleteFacts(v, disk, g);
    hide Complete, LayoutOk, Mapped, Separate, BlockCount, InodeSize, Limit, IsMeta, MapBlock, Scatter, InDisk;
    var disk', n := Scatter(disk, Offs(v, pbs), v.blockSize, data), BlockCount(v, InodeSize(g.inode));
    forall m | IsMeta(v, disk, g.inode, g.lay, n, m) ensures SameBlock(v, disk, disk', m) {
      assert InMap(v, disk, g, m);
      ScatterKeepsBlock(v, disk, pbs, data, m);
    }
    LayoutFrame(v, disk, disk', g.inode, g.lay, n);
  }

  lemma StillComplete(v: Volume, disk: seq<byte>, disk': seq<byte>, g: File)
    requires Complete(v, disk, g.inode, g.lay, g.pbs) && |disk'| == |disk| && LayoutOk(v, disk', g.inode, g.lay)
    requires forall lbn: nat :: lbn < BlockCount(v, InodeSize(g.inode)) ==>
                                  MapBlock(v, disk', g.inode, g.lay, lbn) == MapBlock(v, disk, g.inode, g.lay, lbn)
    requires forall m :: InMap(v, disk', g, m) <==> InMap(v, disk, g, m)
    ensures Complete(v, disk', g.inode, g.lay, g.pbs)
  {
    CompleteFacts(v, disk, g);
    hide LayoutOk, BlockCount, InodeSize, Limit, IsMeta, MapBlock, Regular, Volume.At;
    forall b | 0 <= b < |g.pbs|
      ensures MapBlock(v, disk', g.inode, g.lay, b) == g.pbs[b] && Usable(v, disk', g.pbs[b])
    {
      assert MapBlock(v, disk, g.inode, g.lay, b) == g.pbs[b] && Usable(v, disk, g.pbs[b]);
    }
    forall i | 0 <= i < |g.pbs| ensures !IsMeta(v, disk', g.inode, g.lay, BlockCount(v, InodeSize(g.inode)), g.pbs[i]) {
      assert !InMap(v, disk, g, g.pbs[i]);
      assert !InMap(v, disk', g, g.pbs[i]);
    }
  }

  lemma BlockKept(v: Volume, disk: seq<byte>, pbs: seq<nat>, data: seq<byte>, pb: nat)
    requires InDisk(disk, Offs(v, pbs), v.blockSize) && pb !in pbs && v.At(pb) + v.blockSize <= |disk|
    ensures Unit(Scatter(disk, Offs(v, pbs), v.blockSize, data), v.At(pb), v.blockSize) ==
            Unit(disk, v.At(pb), v.blockSize)
  {
    hide Volume.At, Scatter, Unit;
    var offs := Offs(v, pbs);
    forall j | 0 <= j < |offs| ensures offs[j] + v.blockSize <= v.At(pb) || v.At(pb) + v.blockSize <= offs[j] {
      BlocksApart(v, pbs[j], pb);
    }
    ScatterElsewhere(disk, offs, v.blockSize, data, v.At(pb));
  }

  lemma SameFileBytes(v: Volume, disk: seq<byte>, pbs: seq<nat>, data: seq<byte>, g: File, n: nat)
    requires Mapped(v, disk, g.inode, g.lay, n, g.pbs) && InDisk(disk, Offs(v, pbs), v.blockSize)
    requires forall m :: m in pbs ==> m !in g.pbs
    requires Mapped(v, Scatter(disk, Offs(v, pbs), v.blockSize, data), g.inode, g.lay, n, g.pbs)
    ensures FileBytes(v, Scatter(disk, Offs(v, pbs), v.blockSize, data), g.inode, g.lay, n, g.pbs) ==
            FileBytes(v, disk, g.inode, g.lay, n, g.pbs)
  {
    hide Mapped, Volume.At, Scatter, Gather;
    var disk', offs := Scatter(disk, Offs(v, pbs), v.blockSize, data), Offs(v, g.pbs);
    OffsIn(v, disk, g.inode, g.lay, n, g.pbs);
    OffsIn(v, disk', g.inode, g.lay, n, g.pbs);
    forall i | 0 <= i < |offs| ensures Unit(disk', offs[i], v.blockSize) == Unit(disk, offs[i], v.blockSize) {
      BlockKept(v, disk, pbs, data, g.pbs[i]);
    }
    GatherFrame(disk', disk, offs, v.blockSize);
  }

  lemma SameContent(v: Volume, disk: seq<byte>, pbs: seq<nat>, data: seq<byte>, g: File)
    requires Complete(v, disk, g.inode, g.lay, g.pbs) && InDisk(disk, Offs(v, pbs), v.blockSize)
    requires forall m :: m in pbs ==> m !in g.pbs
    requires Complete(v, Scatter(disk, Offs(v, pbs), v.blockSize, data), g.inode, g.lay, g.pbs)
    ensures Content(v, Scatter(disk, Offs(v, pbs), v.blockSize, data), g.inode, g.lay, g.pbs) ==
            Content(v, disk, g.inode, g.lay, g.pbs)
  {
    hide Complete, Scatter, FileBytes, LayoutOk, Mapped, Separate, BlockCount, InodeSize;
    CompleteFacts(v, disk, g);
    CompleteFacts(v, Scatter(disk, Offs(v, pbs), v.blockSize, data), g);
    SameFileBytes(v, disk, pbs, data, g, |g.pbs|);
  }

  /** A write to blocks that do not belong to `g` leaves its bytes as they were. */
  lemma OtherKept(v: Volume, disk: seq<byte>, f: File, data: seq<byte>, g: File, bytes: seq<byte>)
    requires Holds(v, disk, g, bytes) && Foreign(v, disk, f, g) && InDisk(disk, Offs(v, f.pbs), v.blockSize)
    ensures Holds(v, Scatter(disk, Offs(v, f.pbs), v.blockSize, data), g, bytes)
  {
    hide Complete, LayoutOk, Content, BlockCount, InodeSize, MapBlock, Scatter, InDisk, InMap;
    MapKept(v, disk, f.pbs, data, g);
    StillComplete(v, disk, Scatter(disk, Offs(v, f.pbs), v.blockSize, data), g);
    SameContent(v, disk, f.pbs, data, g);
  }

  /** The blocks of a file are apart from its own map. */
  lemma OwnMap(v: Volume, disk: seq<byte>, f: File)
    requires Complete(v, disk, f.inode, f.lay, f.pbs)
    ensures forall m :: m in f.pbs ==> !InMap(v, disk, f, m)
  {
    CompleteFacts(v, disk, f);
    hide Complete, LayoutOk, BlockCount, InodeSize, IsMeta, Mapped;
  }

  lemma ForeignKept(v: Volume, disk: seq<byte>, pbs: seq<nat>, data: seq<byte>, a: File, b: File)
    requires Complete(v, disk, b.inode, b.lay, b.pbs) && InDisk(disk, Offs(v, pbs), v.blockSize)
    requires Foreign(v, disk, a, b) && forall m :: m in pbs ==> !InMap(v, disk, b, m)
    ensures Foreign(v, Scatter(disk, Offs(v, pbs), v.blockSize, data), a, b)
  {
    hide Complete, LayoutOk, BlockCount, InodeSize, MapBlock, Scatter, InDisk, InMap;
    MapKept(v, disk, pbs, data, b);
  }

  lemma ForeignMap(v: Volume, disk: seq<byte>, f: File, g: File)
    requires Foreign(v, disk, f, g)
    ensures forall m :: m in f.pbs ==> !InMap(v, disk, g, m)
  {
  }

  /** What a write to file `id` keeps of the picture. */
  lemma OthersKept(v: Volume, disk: seq<byte>, files: map<nat, File>, vol: FdTable.Vol, id: nat, data: seq<byte>)
    requires OnDisk(v, disk, files, vol) && id in files && InDisk(disk, Offs(v, files[id].pbs), v.blockSize)
    ensures var disk' := Scatter(disk, Offs(v, files[id].pbs), v.blockSize, data);
            && (forall b :: b in files && b != id ==> Holds(v, disk', files[b], vol.content[b]))
            && (forall a, b :: a in files && b in files && a != b ==> Foreign(v, disk', files[a], files[b]))
  {
    hide Complete, Content, Scatter, InDisk, InMap, Foreign;
    var f := files[id];
    var disk' := Scatter(disk, Offs(v, f.pbs), v.blockSize, data);
    forall b | b in files ensures forall m :: m in f.pbs ==> !InMap(v, disk, files[b], m) {
      assert Holds(v, disk, files[b], vol.content[b]);
      if b != id {
        ForeignMap(v, disk, f, files[b]);
      } else {
        OwnMap(v, disk, f);
      }
    }
    forall b | b in files && b != id ensures Holds(v, disk', files[b], vol.content[b]) {
      OtherKept(v, disk, f, data, files[b], vol.content[b]);
    }
    forall a, b | a in files && b in files && a != b ensures Foreign(v, disk', files[a], files[b]) {
      assert Holds(v, disk, files[b], vol.content[b]);
      ForeignKept(v, disk, f.pbs, data, files[a], files[b]);
    }
  }

  /** Writing a file on the image is writing it in the volume. */
  lemma SaveAgrees(v: Volume, disk: seq<byte>, files: map<nat, File>, vol: FdTable.Vol, id: nat, data: seq<byte>)
    requires OnDisk(v, disk, files, vol) && id in files
    ensures var bytes := vol.content[id];
            OnDisk(v, Saved(v, disk, files[id], data), files,
                   if |data| <= |bytes| then vol.(content := vol.content[id := data + bytes[|data|..]]) else vol)
  {
    hide Complete, Content, Scatter, InDisk, Foreign, InodeSize;
    var f := files[id];
    assert Holds(v, disk, f, vol.content[id]);
    if |data| <= |vol.content[id]| {
      ContentAfter(v, disk, f.inode, f.lay, f.pbs, data);
      OthersKept(v, disk, files, vol, id, data);
    }
  }

  // ----- names

  /** `read_file_into_mem` on ext, for the inode a name stands for. */
  ghost function KernelLoad(v: Volume, disk: seq<byte>, files: map<nat, File>, lookup: map<seq<byte>, nat>,
                            name: seq<byte>)
    : Option<seq<byte>>
  {
    if name in lookup && lookup[name] in files then Loaded(v, disk, files[lookup[name]]) else None
  }

  /** `extfs_write_file`, for the inode a name stands for. */
  ghost function KernelStore(v: Volume, disk: seq<byte>, files: map<nat, File>, lookup: map<seq<byte>, nat>,
                             name: seq<byte>, data: seq<byte>): seq<byte>
  {
    if name in lookup && lookup[name] in files then Saved(v, disk, files[lookup[name]], data) else disk
  }

  /** What `open` loads is what the kernel reads from the image. */
  lemma LoadAgrees(v: Volume, disk: seq<byte>, files: map<nat, File>, vol: FdTable.Vol, path: seq<byte>)
    requires OnDisk(v, disk, files, vol)
    ensures FdTable.Loadable(vol, path) == KernelLoad(v, disk, files, vol.lookup, FdTable.FsName(FdTable.Ext, path))
  {
    hide Foreign, FdTable.FsName, Content, LayoutOk, Mapped, Separate, Regular, BlockCount, InodeSize;
    var name := FdTable.FsName(FdTable.Ext, path);
    if name in vol.lookup && vol.lookup[name] in files {
      assert Holds(v, disk, files[vol.lookup[name]], vol.content[vol.lookup[name]]);
      SizeFits(v, disk, files[vol.lookup[name]].inode, files[vol.lookup[name]].lay, files[vol.lookup[name]].pbs);
    }
  }

  // ----- runs

  /** The image after an operation: only a close that writes back changes it. */
  ghost function DiskNext(v: Volume, disk: seq<byte>, files: map<nat, File>, s: FdTable.State,
                          op: FdTable.Op): seq<byte>
  {
    if op.CloseOp? && FdTable.WritesBack(s, op.fd)
    then KernelStore(v, disk, files, s.vol.lookup, FdTable.FsName(FdTable.Ext, s.fds[op.fd].path),
                     s.heap[s.fds[op.fd].data])
    else disk
  }

  ghost function DiskAfter(v: Volume, disk: seq<byte>, files: map<nat, File>, s: FdTable.State,
                           ops: seq<FdTable.Op>): seq<byte>
    decreases |ops|
  {
    if ops == [] then disk
    else DiskAfter(v, DiskNext(v, disk, files, s, ops[0]), files, FdTable.Next(s, ops[0]), ops[1..])
  }

  lemma StoreAgrees(v: Volume, disk: seq<byte>, files: map<nat, File>, vol: FdTable.Vol, name: seq<byte>,
                    data: seq<byte>)
    requires OnDisk(v, disk, files, vol)
    ensures OnDisk(v, KernelStore(v, disk, files, vol.lookup, name, data), files, FdTable.Flush(vol, name, data))
  {
    assert files.Keys == vol.content.Keys;
    hide OnDisk, Saved;
    if name in vol.lookup && vol.lookup[name] in files {
      SaveAgrees(v, disk, files, vol, vol.lookup[name], data);
    }
  }

  lemma StepOnDisk(v: Volume, disk: seq<byte>, files: map<nat, File>, s: FdTable.State, op: FdTable.Op)
    requires OnDisk(v, disk, files, s.vol)
    ensures OnDisk(v, DiskNext(v, disk, files, s, op), files, FdTable.Next(s, op).vol)
    ensures FdTable.Next(s, op).vol.lookup == s.vol.lookup
  {
    assert s.vol.kind.Ext?;
    hide OnDisk, FdTable.FsName, FdTable.Open, FdTable.Read, FdTable.Write, FdTable.Close, KernelStore;
    match op {
      case OpenOp(path, addr) => FdTable.OpenVol(s, path, addr);
      case ReadOp(fd, want, got) => FdTable.ReadVol(s, fd, want, got);
      case WriteOp(fd, src) => FdTable.WriteVol(s, fd, src);
      case CloseOp(fd) =>
        FdTable.CloseVol(s, fd);
        if FdTable.WritesBack(s, fd) {
          StoreAgrees(v, disk, files, s.vol, FdTable.FsName(FdTable.Ext, s.fds[fd].path), s.heap[s.fds[fd].data]);
        }
    }
  }

  /** Over every run the volume of the table is what the image holds. */
  lemma {:induction false} RunOnDisk(v: Volume, disk: seq<byte>, files: map<nat, File>, s: FdTable.State,
                                     ops: seq<FdTable.Op>)
    requires OnDisk(v, disk, files, s.vol)
    ensures OnDisk(v, DiskAfter(v, disk, files, s, ops), files, FdTable.Execute(s, ops).vol)
    ensures FdTable.Execute(s, ops).vol.lookup == s.vol.lookup
    decreases |ops|
  {
    hide OnDisk, FdTable.Next, DiskNext;
    if ops == [] {
    } else {
      StepOnDisk(v, disk, files, s, ops[0]);
      RunOnDisk(v, DiskNext(v, disk, files, s, ops[0]), files, FdTable.Next(s, ops[0]), ops[1..]);
    }
  }

  /**
   Persistence on the disk: after a written file with a non-empty path is
   closed and anything else has happened that does not write it back again,
   the kernel reads from the image what was closed. On ext the stored name
   always finds the file.
   */
  lemma ClosedBytesOnDisk(v: Volume, disk: seq<byte>, files: map<nat, File>, s: FdTable.State, fd: nat,
                          ops: seq<FdTable.Op>)
    requires OnDisk(v, disk, files, s.vol) && FdTable.Inv(s)
    requires fd < FdTable.FD_MAX && s.fds[fd].Regular() && s.fds[fd].dirty && fd in s.origin
             && FdTable.FileOf(s, fd).Some?
    requires var t := FdTable.Close(s, fd).0;
             FdTable.AllowedRun(t, ops) && FdTable.Leaves(t, ops, FdTable.FileOf(s, fd).value)
    requires s.origin[fd] != []
    ensures FdTable.SlotView(s, fd).Some?
    ensures KernelLoad(v, DiskAfter(v, disk, files, s, [FdTable.CloseOp(fd)] + ops), files, s.vol.lookup,
                       FdTable.FsName(FdTable.Ext, s.origin[fd]))
            == Some(FdTable.SlotView(s, fd).value.bytes)
  {
    assert s.vol.kind.Ext?;
    hide OnDisk, DiskAfter, KernelLoad, FdTable.FsName, FdTable.FindsFile, FdTable.Inv, FdTable.Execute, FdTable.Close;
    hide FdTable.AllowedRun, FdTable.Leaves, FdTable.FileOf, FdTable.SlotView, FdTable.Loadable;
    var all := [FdTable.CloseOp(fd)] + ops;
    FdTable.CloseFirst(s, fd, ops);
    RunOnDisk(v, disk, files, s, all);
    LoadAgrees(v, DiskAfter(v, disk, files, s, all), files, FdTable.Execute(s, all).vol, s.origin[fd]);
    FdTable.ClosedLoads(s, fd, ops);
    FdTable.StoredNameFinds(s, fd);
  }

  // ----- images that meet it

  /** An inode of a regular file of at most one block, with its block pointer. */
  predicate OneBlock(v: Volume, disk: seq<byte>, inode: seq<byte>, pb: nat)
  {
    && v.Valid() && |inode| == INODE && Regular(inode) && !HasExtents(inode) && 0 < InodeSize(inode) <= v.blockSize
    && InodePtr(inode, 0) == pb && pb != 0 && v.At(pb) + v.blockSize <= |disk| && WholeSectors(disk)
  }

  lemma OneBlockComplete(v: Volume, disk: seq<byte>, inode: seq<byte>, pb: nat)
    requires OneBlock(v, disk, inode, pb)
    ensures Complete(v, disk, inode, Indirect, [pb])
  {
    hide InodeSize, Regular, HasExtents, Volume.At;
    SmallCount(v, InodeSize(inode));
    CountIsCeil(v, InodeSize(inode));
    assert Ceil(v.blockSize, InodeSize(inode)) == 1 + Ceil(v.blockSize, 0);
    assert MapBlock(v, disk, inode, Indirect, 0) == pb && Usable(v, disk, pb);
    assert forall m :: m !in MetaBlocks(v, disk, inode, 0);
  }

  /** Every image with such an inode is the volume of one file, under any name. */
  lemma OneFileOnDisk(v: Volume, disk: seq<byte>, inode: seq<byte>, pb: nat, id: nat, name: seq<byte>)
    requires OneBlock(v, disk, inode, pb)
    ensures InodeSize(inode) <= v.blockSize && v.At(pb) + v.blockSize <= |disk|
    ensures OnDisk(v, disk, map[id := File(inode, Indirect, [pb])],
                   FdTable.Vol(FdTable.Ext, map[name := id], map[id := disk[v.At(pb)..v.At(pb) + InodeSize(inode)]]))
  {
    OneBlockComplete(v, disk, inode, pb);
    var f := File(inode, Indirect, [pb]);
    CompleteFacts(v, disk, f);
    hide Complete, InodeSize, Volume.At, BlockCount, Mapped, Separate, LayoutOk, Regular, HasExtents;
    OffsIn(v, disk, inode, Indirect, 1, [pb]);
    assert Offs(v, [pb]) == [v.At(pb)];
    OneUnit(disk, v.At(pb), v.blockSize);
    assert Content(v, disk, inode, Indirect, [pb]) == disk[v.At(pb)..v.At(pb) + InodeSize(inode)];
  }

  lemma OneUnit(disk: seq<byte>, o: nat, unit: nat)
    requires InDisk(disk, [o], unit) && o + unit <= |disk|
    ensures Gather(disk, [o], unit) == disk[o..o + unit]
  {
    assert [o][1..] == [];
    assert Gather(disk, [o][1..], unit) == [];
  }
}
