/**
 The descriptor table over an exFAT image: what `open` loads and `close` writes
 back, on the bytes of the disk. The volume of `FdTable` is what the kernel's own
 lookup and read compute from the image, and stays so over every run.
 */
module ExfatFiles {
  import opened Words
  import opened Bytes
  import opened FileData
  import opened Exfat
  import opened ExfatTool
  import opened ExfatDirectory
  import opened ExfatLookup
  import opened ExfatPath
  import FdTable

  /** Where directories and files lie: the chain of each, by first cluster. */
  datatype Layout = Layout(dirs: map<nat, seq<nat>>, files: map<nat, seq<nat>>)

  /** `exfat_find_root`, for a name that is not a directory. */
  ghost function FileEntry(v: Volume, disk: seq<byte>, lay: Layout, name: seq<byte>): Option<Entry>
  {
    var e := Walk(v, disk, lay.dirs, v.root, Components(name));
    if e.Some? && !IsDirectory(e.value) then e else None
  }

  /** `read_file_into_mem` on exFAT, up to the allocation. */
  ghost function KernelLoad(v: Volume, disk: seq<byte>, lay: Layout, name: seq<byte>): Option<seq<byte>>
    requires v.spc > 0
  {
    match FileEntry(v, disk, lay, name)
    case None => None
    case Some(e) => if e.size < TWO32 then Collect(v, disk, e.first, e.size) else None
  }

  /** `exfat_write_file`. */
  ghost function KernelStore(v: Volume, disk: seq<byte>, lay: Layout, name: seq<byte>, data: seq<byte>): seq<byte>
    requires v.spc > 0
  {
    match FileEntry(v, disk, lay, name)
    case None => disk
    case Some(e) => if |data| <= e.size then Overwrite(v, disk, e.first, data).0 else disk
  }

  /** The chain holds the bytes, and the kernel can read it. */
  ghost predicate Holds(v: Volume, disk: seq<byte>, cs: seq<nat>, bytes: seq<byte>)
  {
    && v.spc > 0 && IsChain(v, disk, cs) && Readable(v, cs) && |bytes| <= Span(v, |cs|)
    && Collect(v, disk, cs[0], |bytes|) == Some(bytes)
  }

  /** No file shares a cluster with another file or with a directory. */
  ghost predicate Apart(lay: Layout)
  {
    && (forall a, b :: a in lay.files && b in lay.files && a != b ==> Disjoint(lay.files[a], lay.files[b]))
    && (forall a, d :: a in lay.files && d in lay.dirs ==> Disjoint(lay.files[a], lay.dirs[d]))
  }

  /** A name finds the file it stands for, with its size. */
  ghost predicate NameOk(v: Volume, disk: seq<byte>, lay: Layout, vol: FdTable.Vol, name: seq<byte>)
  {
    var e := FileEntry(v, disk, lay, name);
    && (name in vol.lookup <==> e.Some?)
    && (e.Some? ==>
          && vol.lookup[name] == e.value.first && e.value.first in vol.content
          && |vol.content[e.value.first]| == e.value.size)
  }

  /** The volume is what the image holds; no longer name reaches the filesystem. */
  ghost predicate OnDisk(v: Volume, disk: seq<byte>, lay: Layout, vol: FdTable.Vol)
  {
    && vol.kind.Exfat? && Reachable(v, disk, lay.dirs) && Apart(lay)
    && lay.files.Keys == vol.content.Keys
    && (forall id :: id in lay.files ==> Holds(v, disk, lay.files[id], vol.content[id]) && lay.files[id][0] == id)
    && (forall name: seq<byte> :: |name| < FdTable.PATH_CAP ==> NameOk(v, disk, lay, vol, name))
  }

  // ----- loading

  lemma NameLength(path: seq<byte>)
    ensures |FdTable.FsName(FdTable.Exfat, path)| < FdTable.PATH_CAP
  {
  }

  /** What `open` loads is what the kernel reads from the image. */
  lemma LoadAgrees(v: Volume, disk: seq<byte>, lay: Layout, vol: FdTable.Vol, path: seq<byte>)
    requires OnDisk(v, disk, lay, vol)
    ensures v.spc > 0 && FdTable.Loadable(vol, path) == KernelLoad(v, disk, lay, FdTable.FsName(FdTable.Exfat, path))
  {
    FitsTable(v, disk);
    NameLength(path);
    hide FileEntry, Collect, FdTable.FatName, FdTable.ExtName, Reachable, Fits, IsChain;
    var name := FdTable.FsName(FdTable.Exfat, path);
    assert NameOk(v, disk, lay, vol, name);
    var e := FileEntry(v, disk, lay, name);
    if e.Some? {
      assert Holds(v, disk, lay.files[e.value.first], vol.content[e.value.first]);
    }
  }

  // ----- storing

  /** An overwrite changes no cluster outside its chain. */
  lemma OverwriteElsewhere(v: Volume, disk: seq<byte>, disk': seq<byte>, cs: seq<nat>, d: nat)
    requires Fits(v, disk) && IsChain(v, disk, cs) && v.IsCluster(d) && d !in cs && |disk'| == |disk|
    requires forall k :: 0 <= k < |disk| && Outside(Offsets(v, cs), v.ClusterBytes(), k) ==> disk'[k] == disk[k]
    ensures SameCluster(v, disk, disk', d)
  {
    FatOutside(v, disk, disk', cs);
    SameEntry(v, disk, disk', d);
    OffsetBounds(v, disk, d);
    hide Fits, FatEntry, Volume.Offset, Outside, Volume.FatByte;
    var o, unit := v.Offset(d), v.ClusterBytes();
    forall k | o <= k < o + unit ensures disk'[k] == disk[k] {
      OutsideCluster(v, disk, cs, d, k);
    }
    SameSlice(disk', disk, o, o + unit);
  }

  lemma OutsideCluster(v: Volume, disk: seq<byte>, cs: seq<nat>, d: nat, k: nat)
    requires IsChain(v, disk, cs) && v.IsCluster(d) && d !in cs && v.Offset(d) <= k < v.Offset(d) + v.ClusterBytes()
    ensures Outside(Offsets(v, cs), v.ClusterBytes(), k)
  {
    forall i | 0 <= i < |cs| ensures k < v.Offset(cs[i]) || v.Offset(cs[i]) + v.ClusterBytes() <= k {
      ClustersApart(v, cs[i], d);
    }
  }

  lemma FatOutside(v: Volume, disk: seq<byte>, disk': seq<byte>, cs: seq<nat>)
    requires Fits(v, disk) && IsChain(v, disk, cs) && |disk'| == |disk|
    requires forall k :: 0 <= k < |disk| && Outside(Offsets(v, cs), v.ClusterBytes(), k) ==> disk'[k] == disk[k]
    ensures disk'[..v.heapLba * SECTOR] == disk[..v.heapLba * SECTOR]
  {
    forall i | 0 <= i < |cs| ensures v.heapLba * SECTOR <= v.Offset(cs[i]) {
      OffsetBounds(v, disk, cs[i]);
    }
    SameSlice(disk', disk, 0, v.heapLba * SECTOR);
  }

  /** A chain none of whose clusters is written still reads the same. */
  lemma OtherHolds(v: Volume, disk: seq<byte>, disk': seq<byte>, cs: seq<nat>, other: seq<nat>, bytes: seq<byte>)
    requires Fits(v, disk) && IsChain(v, disk, cs) && |disk'| == |disk| && Holds(v, disk, other, bytes)
             && Disjoint(cs, other)
    requires forall k :: 0 <= k < |disk| && Outside(Offsets(v, cs), v.ClusterBytes(), k) ==> disk'[k] == disk[k]
    ensures Fits(v, disk') && Holds(v, disk', other, bytes)
  {
    forall i | 0 <= i < |other| ensures SameCluster(v, disk, disk', other[i]) {
      OverwriteElsewhere(v, disk, disk', cs, other[i]);
    }
    SameClustersSameChain(v, disk, disk', other);
    hide Fits, IsChain, Collect, SameCluster, Volume.Offset, Outside;
    SameRead(v, disk, other, |bytes|);
    SameRead(v, disk', other, |bytes|);
  }

  /** Reading a chain the kernel can address: its bytes, cut. */
  lemma SameRead(v: Volume, disk: seq<byte>, cs: seq<nat>, n: nat)
    requires Fits(v, disk) && IsChain(v, disk, cs) && Readable(v, cs) && v.spc > 0
    ensures Collect(v, disk, cs[0], n) == Some(Cut(ChainBytes(v, disk, cs), n))
  {
    hide Collect, TailBytes, Fits;
    TailIsGather(v, disk, cs, 0);
    assert Offsets(v, cs)[0..] == Offsets(v, cs);
    CollectChain(v, disk, cs, 0, n);
  }

  lemma ChainLength(v: Volume, disk: seq<byte>, cs: seq<nat>)
    requires Fits(v, disk) && IsChain(v, disk, cs)
    ensures |ChainBytes(v, disk, cs)| == Span(v, |cs|)
  {
    OffsetsApart(v, disk, cs);
    GatherLength(disk, Offsets(v, cs), v.ClusterBytes());
  }

  /** The overwritten file itself. */
  lemma OwnHolds(v: Volume, disk: seq<byte>, cs: seq<nat>, bytes: seq<byte>, data: seq<byte>)
    requires Fits(v, disk) && Holds(v, disk, cs, bytes) && |data| <= |bytes|
    ensures var disk' := Overwrite(v, disk, cs[0], data).0;
            && |disk'| == |disk| && Fits(v, disk') && Holds(v, disk', cs, data + bytes[|data|..])
            && forall k :: 0 <= k < |disk| && Outside(Offsets(v, cs), v.ClusterBytes(), k) ==> disk'[k] == disk[k]
  {
    assert cs != [];
    hide Fits, IsChain, Collect, Overwrite, Outside, Readable, Span, ChainBytes, Volume.ClusterBytes;
    ChainLength(v, disk, cs);
    OverwriteThenRead(v, disk, cs, data, |bytes|);
    OwnChain(v, disk, Overwrite(v, disk, cs[0], data).0, cs);
    SameSuffix(ChainBytes(v, disk, cs), bytes, |data|);
  }

  lemma OwnChain(v: Volume, disk: seq<byte>, disk': seq<byte>, cs: seq<nat>)
    requires Fits(v, disk) && IsChain(v, disk, cs) && |disk'| == |disk|
    requires forall k :: 0 <= k < |disk| && Outside(Offsets(v, cs), v.ClusterBytes(), k) ==> disk'[k] == disk[k]
    ensures Fits(v, disk') && IsChain(v, disk', cs)
  {
    hide IsChain, Outside, Volume.ClusterBytes;
    FatOutside(v, disk, disk', cs);
    HeapWriteKeepsChain(v, disk, disk', cs);
  }

  lemma SameSuffix(was: seq<byte>, bytes: seq<byte>, n: nat)
    requires n <= |bytes| <= |was| && was[..|bytes|] == bytes
    ensures was[n..|bytes|] == bytes[n..]
  {
  }

  lemma {:induction false} SameList(v: Volume, disk: seq<byte>, disk': seq<byte>, cs: seq<nat>, i: nat)
    requires Fits(v, disk) && Fits(v, disk') && i <= |cs|
             && forall k :: 0 <= k < |cs| ==> v.IsCluster(cs[k]) && SameCluster(v, disk, disk', cs[k])
    ensures ListChain(v, disk', cs, i) == ListChain(v, disk, cs, i)
    decreases |cs| - i
  {
    hide List, Fits, ReadCluster, Volume.Offset, FatEntry;
    if i == |cs| {
    } else {
      ReadIsUnit(v, disk, cs[i]);
      ReadIsUnit(v, disk', cs[i]);
      SameList(v, disk, disk', cs, i + 1);
    }
  }

  /** A directory none of whose clusters is written lists the same. */
  lemma OtherDirectory(v: Volume, disk: seq<byte>, disk': seq<byte>, cs: seq<nat>, dir: seq<nat>)
    requires Fits(v, disk) && IsChain(v, disk, cs) && IsChain(v, disk, dir) && |disk'| == |disk| && Disjoint(cs, dir)
    requires forall k :: 0 <= k < |disk| && Outside(Offsets(v, cs), v.ClusterBytes(), k) ==> disk'[k] == disk[k]
    ensures Fits(v, disk') && IsChain(v, disk', dir) && ListChain(v, disk', dir, 0) == ListChain(v, disk, dir, 0)
  {
    forall i | 0 <= i < |dir| ensures v.IsCluster(dir[i]) && SameCluster(v, disk, disk', dir[i]) {
      OverwriteElsewhere(v, disk, disk', cs, dir[i]);
    }
    SameClustersSameChain(v, disk, disk', dir);
    SameList(v, disk, disk', dir, 0);
  }

  /** Both images list every directory the same. */
  ghost predicate SameDirs(v: Volume, disk: seq<byte>, disk': seq<byte>, dirs: map<nat, seq<nat>>)
  {
    forall c :: c in dirs ==> ListChain(v, disk', dirs[c], 0) == ListChain(v, disk, dirs[c], 0)
  }

  lemma {:induction false} SameWalk(v: Volume, disk: seq<byte>, disk': seq<byte>, dirs: map<nat, seq<nat>>, c: nat,
                                    names: seq<seq<byte>>)
    requires SameDirs(v, disk, disk', dirs)
    ensures Walk(v, disk', dirs, c, names) == Walk(v, disk, dirs, c, names)
    decreases |names|
  {
    hide FindName, ListChain, IsDirectory;
    if names == [] {
    } else {
      var e := Lookup(v, disk, dirs, c, names[0]);
      assert Lookup(v, disk', dirs, c, names[0]) == e;
      if e.Some? {
        SameWalk(v, disk, disk', dirs, e.value.first, names[1..]);
      }
    }
  }

  lemma DirsKept(v: Volume, disk: seq<byte>, disk': seq<byte>, cs: seq<nat>, lay: Layout)
    requires Reachable(v, disk, lay.dirs) && IsChain(v, disk, cs) && |disk'| == |disk|
    requires forall d :: d in lay.dirs ==> Disjoint(cs, lay.dirs[d])
    requires forall k :: 0 <= k < |disk| && Outside(Offsets(v, cs), v.ClusterBytes(), k) ==> disk'[k] == disk[k]
    ensures Reachable(v, disk', lay.dirs) && SameDirs(v, disk, disk', lay.dirs)
  {
    hide IsChain, ListChain, Outside, IsDirectory, Disjoint;
    forall c | c in lay.dirs
      ensures IsChain(v, disk', lay.dirs[c])
              && ListChain(v, disk', lay.dirs[c], 0) == ListChain(v, disk, lay.dirs[c], 0)
    {
      OtherDirectory(v, disk, disk', cs, lay.dirs[c]);
    }
  }

  lemma NameAt(v: Volume, disk: seq<byte>, lay: Layout, vol: FdTable.Vol, name: seq<byte>)
    requires OnDisk(v, disk, lay, vol) && |name| < FdTable.PATH_CAP
    ensures NameOk(v, disk, lay, vol, name)
  {
  }

  lemma DiskSpc(v: Volume, disk: seq<byte>, lay: Layout, vol: FdTable.Vol)
    requires OnDisk(v, disk, lay, vol)
    ensures v.spc > 0 && vol.kind.Exfat?
  {
    FitsTable(v, disk);
  }

  /** What `close` writes back lands on the image as it does in the volume. */
  lemma StoreAgrees(v: Volume, disk: seq<byte>, lay: Layout, vol: FdTable.Vol, name: seq<byte>, data: seq<byte>)
    requires OnDisk(v, disk, lay, vol) && |name| < FdTable.PATH_CAP
    ensures v.spc > 0 && OnDisk(v, KernelStore(v, disk, lay, name, data), lay, FdTable.Flush(vol, name, data))
  {
    DiskSpc(v, disk, lay, vol);
    NameAt(v, disk, lay, vol, name);
    hide OnDisk, FileEntry, Overwrite;
    var e := FileEntry(v, disk, lay, name);
    if e.None? {
      NoSuchFile(vol, name, data);
    } else {
      FlushInto(vol, name, e.value.first, data);
      hide FdTable.Flush;
      if |data| <= e.value.size {
        StoreInto(v, disk, lay, vol, e.value.first, data);
      }
    }
  }

  lemma NoSuchFile(vol: FdTable.Vol, name: seq<byte>, data: seq<byte>)
    requires name !in vol.lookup
    ensures FdTable.Flush(vol, name, data) == vol
  {
  }

  lemma FlushInto(vol: FdTable.Vol, name: seq<byte>, id: nat, data: seq<byte>)
    requires name in vol.lookup && vol.lookup[name] == id && id in vol.content
    ensures FdTable.Flush(vol, name, data) ==
            if |data| <= |vol.content[id]| then vol.(content := vol.content[id := data + vol.content[id][|data|..]])
            else vol
  {
  }

  lemma StoreInto(v: Volume, disk: seq<byte>, lay: Layout, vol: FdTable.Vol, id: nat, data: seq<byte>)
    requires OnDisk(v, disk, lay, vol) && id in vol.content && |data| <= |vol.content[id]| && v.spc > 0
    ensures OnDisk(v, Overwrite(v, disk, id, data).0, lay,
                   vol.(content := vol.content[id := data + vol.content[id][|data|..]]))
  {
    hide Collect, Overwrite, IsChain, Fits, Outside, Holds, NameOk, Reachable, Apart, Disjoint;
    var disk', bytes := Overwrite(v, disk, id, data).0, data + vol.content[id][|data|..];
    var vol', cs := vol.(content := vol.content[id := bytes]), lay.files[id];
    ChainOf(v, disk, lay, id);
    ApartFrom(lay, id);
    OwnHolds(v, disk, cs, vol.content[id], data);
    DirsKept(v, disk, disk', cs, lay);
    forall b | b in lay.files ensures Holds(v, disk', lay.files[b], vol'.content[b]) {
      if b != id {
        OtherHolds(v, disk, disk', cs, lay.files[b], vol.content[b]);
      }
    }
    forall name: seq<byte> | |name| < FdTable.PATH_CAP ensures NameOk(v, disk', lay, vol', name) {
      NameKept(v, disk, disk', lay, vol, vol', name);
    }
  }

  lemma ChainOf(v: Volume, disk: seq<byte>, lay: Layout, id: nat)
    requires Reachable(v, disk, lay.dirs) && id in lay.files
    ensures Fits(v, disk)
    ensures forall bytes :: Holds(v, disk, lay.files[id], bytes) ==> IsChain(v, disk, lay.files[id])
  {
  }

  lemma ApartFrom(lay: Layout, id: nat)
    requires Apart(lay) && id in lay.files
    ensures forall b :: b in lay.files && b != id ==> Disjoint(lay.files[id], lay.files[b])
    ensures forall d :: d in lay.dirs ==> Disjoint(lay.files[id], lay.dirs[d])
  {
  }

  lemma NameKept(v: Volume, disk: seq<byte>, disk': seq<byte>, lay: Layout, vol: FdTable.Vol, vol': FdTable.Vol,
                 name: seq<byte>)
    requires SameDirs(v, disk, disk', lay.dirs) && NameOk(v, disk, lay, vol, name)
    requires vol'.lookup == vol.lookup && vol'.content.Keys == vol.content.Keys
    requires forall id :: id in vol.content ==> |vol'.content[id]| == |vol.content[id]|
    ensures NameOk(v, disk', lay, vol', name)
  {
    hide Walk, Components, IsDirectory, SameDirs;
    SameWalk(v, disk, disk', lay.dirs, v.root, Components(name));
  }

  // ----- runs

  /** The image after an operation: only a close that writes back changes it. */
  ghost function DiskNext(v: Volume, disk: seq<byte>, lay: Layout, s: FdTable.State, op: FdTable.Op): seq<byte>
    requires v.spc > 0
  {
    if op.CloseOp? && FdTable.WritesBack(s, op.fd)
    then KernelStore(v, disk, lay, FdTable.FsName(FdTable.Exfat, s.fds[op.fd].path), s.heap[s.fds[op.fd].data])
    else disk
  }

  ghost function DiskAfter(v: Volume, disk: seq<byte>, lay: Layout, s: FdTable.State, ops: seq<FdTable.Op>): seq<byte>
    requires v.spc > 0
    decreases |ops|
  {
    if ops == [] then disk
    else DiskAfter(v, DiskNext(v, disk, lay, s, ops[0]), lay, FdTable.Next(s, ops[0]), ops[1..])
  }

  lemma StepOnDisk(v: Volume, disk: seq<byte>, lay: Layout, s: FdTable.State, op: FdTable.Op)
    requires OnDisk(v, disk, lay, s.vol)
    ensures v.spc > 0 && OnDisk(v, DiskNext(v, disk, lay, s, op), lay, FdTable.Next(s, op).vol)
  {
    DiskSpc(v, disk, lay, s.vol);
    hide OnDisk, FdTable.FsName, FdTable.Open, FdTable.Read, FdTable.Write, FdTable.Close, FdTable.Flush, KernelStore;
    match op {
      case OpenOp(path, addr) => FdTable.OpenVol(s, path, addr);
      case ReadOp(fd, want, got) => FdTable.ReadVol(s, fd, want, got);
      case WriteOp(fd, src) => FdTable.WriteVol(s, fd, src);
      case CloseOp(fd) =>
        FdTable.CloseVol(s, fd);
        if FdTable.WritesBack(s, fd) {
          NameLength(s.fds[fd].path);
          StoreAgrees(v, disk, lay, s.vol, FdTable.FsName(FdTable.Exfat, s.fds[fd].path), s.heap[s.fds[fd].data]);
        }
    }
  }

  /** Over every run the volume of the table is what the image holds. */
  lemma {:induction false} RunOnDisk(v: Volume, disk: seq<byte>, lay: Layout, s: FdTable.State, ops: seq<FdTable.Op>)
    requires OnDisk(v, disk, lay, s.vol)
    ensures v.spc > 0 && OnDisk(v, DiskAfter(v, disk, lay, s, ops), lay, FdTable.Execute(s, ops).vol)
    decreases |ops|
  {
    DiskSpc(v, disk, lay, s.vol);
    hide OnDisk, FdTable.Next, DiskNext;
    if ops == [] {
    } else {
      StepOnDisk(v, disk, lay, s, ops[0]);
      RunOnDisk(v, DiskNext(v, disk, lay, s, ops[0]), lay, FdTable.Next(s, ops[0]), ops[1..]);
    }
  }

  /**
   Persistence on the disk: after a written file is closed and anything else has
   happened that does not write it back again, the kernel reads from the image
   what was closed, exactly when the stored name finds the file or the bytes
   were there already.
   */
  lemma ClosedBytesOnDisk(v: Volume, disk: seq<byte>, lay: Layout, s: FdTable.State, fd: nat, ops: seq<FdTable.Op>)
    requires OnDisk(v, disk, lay, s.vol) && FdTable.Inv(s)
    requires fd < FdTable.FD_MAX && s.fds[fd].Regular() && s.fds[fd].dirty && fd in s.origin
             && FdTable.FileOf(s, fd).Some?
    requires var t := FdTable.Close(s, fd).0;
             FdTable.AllowedRun(t, ops) && FdTable.Leaves(t, ops, FdTable.FileOf(s, fd).value)
    ensures FdTable.SlotView(s, fd).Some? && FdTable.FileOf(s, fd).value in s.vol.content && v.spc > 0
    ensures var bytes := FdTable.SlotView(s, fd).value.bytes;
            KernelLoad(v, DiskAfter(v, disk, lay, s, [FdTable.CloseOp(fd)] + ops), lay,
                       FdTable.FsName(FdTable.Exfat, s.origin[fd])) == Some(bytes)
            <==> FdTable.FindsFile(s, fd) || s.vol.content[FdTable.FileOf(s, fd).value] == bytes
  {
    hide OnDisk, DiskAfter, KernelLoad, FdTable.FsName, FdTable.FindsFile, FdTable.Inv, FdTable.Execute, FdTable.Close;
    hide FdTable.AllowedRun, FdTable.Leaves, FdTable.FileOf, FdTable.SlotView, FdTable.Loadable;
    var all := [FdTable.CloseOp(fd)] + ops;
    FdTable.CloseFirst(s, fd, ops);
    RunOnDisk(v, disk, lay, s, all);
    LoadAgrees(v, DiskAfter(v, disk, lay, s, all), lay, FdTable.Execute(s, all).vol, s.origin[fd]);
    FdTable.ClosedLoads(s, fd, ops);
  }
}
