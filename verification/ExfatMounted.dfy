/**
 From the image builder to the system calls: an image with directories, names
 and files the builder put there is a volume on which the descriptor table works.
 */
module ExfatMounted {
  import opened Words
  import opened Exfat
  import opened ExfatTool
  import opened ExfatDirectory
  import opened ExfatLookup
  import opened ExfatPath
  import opened ExfatCatalog
  import opened ExfatTree
  import ExfatFiles
  import FdTable

  /** All byte strings of at most `n` characters. */
  ghost function Strings(n: nat): set<seq<byte>>
  {
    if n == 0 then {[]} else {[]} + set b: byte, s | 0 <= b < 256 && s in Strings(n - 1) :: [b] + s
  }

  lemma {:induction false} InStrings(s: seq<byte>, n: nat)
    requires |s| <= n
    ensures s in Strings(n)
    decreases n
  {
    if s == [] {
    } else {
      InStrings(s[1..], n - 1);
      assert s == [s[0]] + s[1..];
    }
  }

  /** The file an entry stands for: stored where the kernel can read it. */
  predicate StandsFor(v: Volume, e: Entry, f: File)
  {
    v.count + 1 !in f.chain && f.chain != [] && e.first == f.chain[0] && e.size == |f.data|
  }

  /** Every name leads to a directory of the tree, to nothing, or to a file of the tree. */
  ghost predicate Mountable(v: Volume, t: Tree)
  {
    && Ok(v, t) && Closed(v, t)
    && forall d, e :: d in t.dirs && e in Seen(v, t.image, d) && !IsDirectory(e) ==>
                        exists f :: f in t.files && StandsFor(v, e, f)
  }

  // ----- what a path can lead to

  lemma {:induction false} ResolvedIn(m: map<nat, seq<Entry>>, c: nat, names: seq<seq<byte>>) returns (d: nat)
    requires Resolve(m, c, names).Some?
    ensures d in m && Resolve(m, c, names).value in m[d]
    decreases |names|
  {
    hide FindName, IsDirectory;
    FoundIn(ExfatLookup.Take(m[c], LOOKUP_MAX), names[0]);
    var e := FindName(ExfatLookup.Take(m[c], LOOKUP_MAX), names[0]);
    if |names| == 1 {
      d := c;
    } else {
      d := ResolvedIn(m, e.value.first, names[1..]);
    }
  }

  /** A name that leads to a file leads to one of the tree's. */
  lemma NamedFile(v: Volume, t: Tree, lay: ExfatFiles.Layout, name: seq<byte>) returns (f: File)
    requires Mountable(v, t) && lay.dirs == Chains(t) && ExfatFiles.FileEntry(v, t.image.bytes, lay, name).Some?
    ensures f in t.files && StandsFor(v, ExfatFiles.FileEntry(v, t.image.bytes, lay, name).value, f)
  {
    hide Walk, Resolve, Components, IsDirectory, Closed, Seen, StandsFor, DirOk, Held, Disjoint, Fits;
    var e := ExfatFiles.FileEntry(v, t.image.bytes, lay, name).value;
    WalkIsResolve(v, t, v.root, Components(name));
    var d := ResolvedIn(Listings(v, t), v.root, Components(name));
    assert e in Seen(v, t.image, d) && !IsDirectory(e);
    f :| f in t.files && StandsFor(v, e, f);
  }

  // ----- the volume

  /** First clusters of the files the kernel can read. */
  ghost function Firsts(v: Volume, t: Tree): set<nat>
  {
    set f | f in t.files && v.count + 1 !in f.chain && f.chain != [] :: f.chain[0]
  }

  /** The file with that first cluster. */
  ghost function FileAt(v: Volume, t: Tree, id: nat): (f: File)
    requires id in Firsts(v, t)
    ensures f in t.files && v.count + 1 !in f.chain && f.chain != [] && f.chain[0] == id
  {
    var f :| f in t.files && v.count + 1 !in f.chain && f.chain != [] && f.chain[0] == id;
    f
  }

  /** No other file has it. */
  lemma OneFileAt(v: Volume, t: Tree, f: File)
    requires Ok(v, t) && f in t.files && v.count + 1 !in f.chain
    ensures f.chain != [] && f.chain[0] in Firsts(v, t) && FileAt(v, t, f.chain[0]) == f
  {
    assert Held(v, t.image, v.root, f);
    var g := FileAt(v, t, f.chain[0]);
    assert f != g ==> Disjoint(f.chain, g.chain);
  }

  ghost function LayoutOf(v: Volume, t: Tree): ExfatFiles.Layout
  {
    ExfatFiles.Layout(Chains(t), map id | id in Firsts(v, t) :: FileAt(v, t, id).chain)
  }

  /** What the system calls see of the image. */
  ghost function VolumeOf(v: Volume, t: Tree, n: nat): FdTable.Vol
  {
    var lay := LayoutOf(v, t);
    FdTable.Vol(FdTable.Exfat,
                map name | name in Strings(n) && ExfatFiles.FileEntry(v, t.image.bytes, lay, name).Some? ::
                  ExfatFiles.FileEntry(v, t.image.bytes, lay, name).value.first,
                map id | id in Firsts(v, t) :: FileAt(v, t, id).data)
  }

  lemma FileHolds(v: Volume, t: Tree, f: File)
    requires Ok(v, t) && f in t.files && v.count + 1 !in f.chain
    ensures ExfatFiles.Holds(v, t.image.bytes, f.chain, f.data)
  {
    assert Held(v, t.image, v.root, f);
    FileReads(v, t, f);
    FitsTable(v, t.image.bytes);
    NeededIsCeiling(v, |f.data|);
    RejectedCluster(v, t.image.bytes, f);
    hide Fits, IsChain, Collect, Readable, Needed, Span;
  }

  lemma LayoutApart(v: Volume, t: Tree)
    requires Ok(v, t)
    ensures ExfatFiles.Apart(LayoutOf(v, t))
  {
    var lay := LayoutOf(v, t);
    hide Firsts, FileAt, DirOk, Fits, OnImage;
    forall a, b | a in lay.files && b in lay.files && a != b ensures Disjoint(lay.files[a], lay.files[b]) {
      assert FileAt(v, t, a) != FileAt(v, t, b);
    }
    forall a, d | a in lay.files && d in lay.dirs ensures Disjoint(lay.files[a], lay.dirs[d]) {
      assert Held(v, t.image, d, FileAt(v, t, a));
    }
  }

  lemma NamesAgree(v: Volume, t: Tree, n: nat, name: seq<byte>)
    requires Mountable(v, t) && |name| <= n
    ensures ExfatFiles.NameOk(v, t.image.bytes, LayoutOf(v, t), VolumeOf(v, t, n), name)
  {
    hide Mountable, ExfatFiles.FileEntry, Ok, VolumeOf, LayoutOf;
    MountableOk(v, t);
    var lay := LayoutOf(v, t);
    assert lay.dirs == Chains(t) by { LayoutDirs(v, t); }
    LookupOf(v, t, n, name);
    if ExfatFiles.FileEntry(v, t.image.bytes, lay, name).Some? {
      var f := NamedFile(v, t, lay, name);
      ContentOf(v, t, n, f);
    }
  }

  lemma MountableOk(v: Volume, t: Tree)
    requires Mountable(v, t)
    ensures Ok(v, t)
  {
  }

  lemma LayoutDirs(v: Volume, t: Tree)
    ensures LayoutOf(v, t).dirs == Chains(t)
  {
  }

  lemma LookupOf(v: Volume, t: Tree, n: nat, name: seq<byte>)
    requires |name| <= n
    ensures var e, lookup := ExfatFiles.FileEntry(v, t.image.bytes, LayoutOf(v, t), name), VolumeOf(v, t, n).lookup;
            (name in lookup <==> e.Some?) && (e.Some? ==> lookup[name] == e.value.first)
  {
    hide ExfatFiles.FileEntry, Strings, LayoutOf, Firsts, FileAt;
    InStrings(name, n);
  }

  lemma ContentOf(v: Volume, t: Tree, n: nat, f: File)
    requires Ok(v, t) && f in t.files && v.count + 1 !in f.chain
    ensures f.chain != [] && f.chain[0] in VolumeOf(v, t, n).content && VolumeOf(v, t, n).content[f.chain[0]] == f.data
  {
    hide Ok, ExfatFiles.FileEntry, Strings, LayoutOf, Firsts, FileAt;
    OneFileAt(v, t, f);
  }

  /**
   The builder's tree as a mounted volume: it is what the kernel finds and reads
   on the image, so everything proved of the descriptor table over an exFAT image
   holds of it.
   */
  lemma MountedOnDisk(v: Volume, t: Tree, n: nat)
    requires Mountable(v, t) && n == FdTable.PATH_CAP - 1
    ensures ExfatFiles.OnDisk(v, t.image.bytes, LayoutOf(v, t), VolumeOf(v, t, n))
    ensures forall f :: f in t.files && v.count + 1 !in f.chain ==>
                          f.chain != [] && f.chain[0] in VolumeOf(v, t, n).content
                          && VolumeOf(v, t, n).content[f.chain[0]] == f.data
  {
    var lay, vol := LayoutOf(v, t), VolumeOf(v, t, n);
    hide Ok, Closed, Firsts, FileAt, Reachable, Strings, Chains;
    hide ExfatFiles.Apart, ExfatFiles.Holds, ExfatFiles.NameOk, ExfatFiles.FileEntry;
    TreeReachable(v, t);
    LayoutApart(v, t);
    forall id | id in Firsts(v, t) ensures ExfatFiles.Holds(v, t.image.bytes, lay.files[id], vol.content[id]) {
      FileHolds(v, t, FileAt(v, t, id));
    }
    forall name: seq<byte> | |name| < FdTable.PATH_CAP ensures ExfatFiles.NameOk(v, t.image.bytes, lay, vol, name) {
      NamesAgree(v, t, n, name);
    }
    forall f | f in t.files && v.count + 1 !in f.chain
      ensures f.chain != [] && f.chain[0] in vol.content && vol.content[f.chain[0]] == f.data
    {
      ContentOf(v, t, n, f);
    }
  }

  /**
   From builder to open: on a mountable image made by the calls for one file in
   one directory, opening any path whose name has those two components, in any
   letter case, loads the stored bytes.
   */
  lemma InitOpens(v: Volume, t: Tree, ops: seq<Op>, c: u32, dirName: seq<u16>, fileName: seq<u16>, data: seq<byte>,
                  first: u32, path: seq<byte>, q1: seq<byte>, q2: seq<byte>, n: nat)
    requires ExfatTree.Run(v, t, ops) && InitOps(ops, v.root, c, dirName, fileName, data, first)
    requires Ok(v, t) && c !in t.dirs && v.root <= v.count && [first] <= PutAt(v, t, ops, 1).chain
    requires Plain(dirName) && Plain(fileName) && SameName(dirName, q1) && SameName(fileName, q2)
    requires Components(FdTable.FsName(FdTable.Exfat, path)) == [q1, q2] && |q1| < MAX_NAME && |q2| < MAX_NAME
    requires var es := Entries(v, t.image, v.root);
             |es| < LOOKUP_MAX && forall k :: 0 <= k < |es| ==> !SameName(es[k].name, q1)
    requires Mountable(v, Built(v, t, ops)) && |data| < TWO32 && n == FdTable.PATH_CAP - 1
    ensures FdTable.Loadable(VolumeOf(v, Built(v, t, ops), n), path) == Some(data)
  {
    var u := Built(v, t, ops);
    var lay, vol := LayoutOf(v, u), VolumeOf(v, u, n);
    hide ExfatTree.Run, Built, Ok, SameName, Walk, PutAt, Mountable, Plain, Components, FdTable.FsName, VolumeOf;
    hide LayoutOf;
    InitIsFound(v, t, ops, c, dirName, fileName, data, first, q1, q2);
    MountedOnDisk(v, u, n);
    ExfatFiles.LoadAgrees(v, u.image.bytes, lay, vol, path);
    ExfatFiles.NameLength(path);
    LoadsOrNot(v, u.image.bytes, lay, vol, FdTable.FsName(FdTable.Exfat, path),
               Entry(fileName, 0x20, first, |data|), data);
  }

  /** On a mounted volume the read of a file that a name finds does not fail. */
  lemma LoadsOrNot(v: Volume, disk: seq<byte>, lay: ExfatFiles.Layout, vol: FdTable.Vol, name: seq<byte>, e: Entry,
                   data: seq<byte>)
    requires ExfatFiles.OnDisk(v, disk, lay, vol) && |name| < FdTable.PATH_CAP && v.spc > 0
    requires Walk(v, disk, lay.dirs, v.root, Components(name)) == Some(e) && e.attributes == 0x20
             && e.size == |data| < TWO32
    requires Collect(v, disk, e.first, |data|) in {None, Some(data)}
    ensures ExfatFiles.KernelLoad(v, disk, lay, name) == Some(data)
  {
    hide Walk, Components, Collect, Reachable, IsChain;
    assert ExfatFiles.NameOk(v, disk, lay, vol, name);
    assert ExfatFiles.FileEntry(v, disk, lay, name) == Some(e);
    assert ExfatFiles.Holds(v, disk, lay.files[e.first], vol.content[e.first]);
  }

  // ----- an image with a file on it

  /** An empty volume: a root directory without entries, and nothing else. */
  ghost predicate Empty(v: Volume, t: Tree)
  {
    Ok(v, t) && t.dirs == {v.root} && t.files == {} && v.root <= v.count && Entries(v, t.image, v.root) == []
  }

  lemma InitDirs(v: Volume, t: Tree, ops: seq<Op>, c: u32, dirName: seq<u16>, fileName: seq<u16>, data: seq<byte>,
                 first: u32)
    requires ExfatTree.Run(v, t, ops) && InitOps(ops, v.root, c, dirName, fileName, data, first) && c !in t.dirs
    ensures Built(v, t, ops).dirs == t.dirs + {c as nat}
  {
    hide ExfatTree.Run, Built, PutAt, Ok;
    TreeRun(v, t, ops);
    RunKeepsDirs(v, t, ops, 2);
    var k := MadeBy(v, t, ops, c);
    forall d | d in Built(v, t, ops).dirs && d !in t.dirs ensures d == c {
      var j := MadeBy(v, t, ops, d);
      assert [d][0] == [c as nat][0];
    }
  }

  /**
   The calls for one file in one directory make a mountable image of an empty one, unless the
   file takes the last cluster.
   */
  lemma InitMounts(v: Volume, t: Tree, ops: seq<Op>, c: u32, dirName: seq<u16>, fileName: seq<u16>, data: seq<byte>,
                   first: u32)
    requires ExfatTree.Run(v, t, ops) && InitOps(ops, v.root, c, dirName, fileName, data, first) && Empty(v, t)
             && c != v.root
    requires v.FatByte(v.count + 2) <= |t.image.bytes| && v.spc > 0 && !TakesLastAt(v, t.image, ops, 1)
    requires [first] <= PutAt(v, t, ops, 1).chain
    ensures Mountable(v, Built(v, t, ops))
  {
    hide ExfatTree.Run, Built, PutAt, Ok, TakesLastAt, Listed, IsDirectory, Empty, Seen, Mountable, DirOk;
    var u, f := Built(v, t, ops), PutAt(v, t, ops, 1);
    InitSeen(v, t, ops, c, dirName, fileName, data, first);
    InitDirs(v, t, ops, c, dirName, fileName, data, first);
    PutAtIsKept(v, t, ops, 1);
    PutAtLastIff(v, t, ops, 1);
    InitAttributes(dirName, fileName, c, first, |data|);
    assert f.chain[0] == first;
    TwoDirs(v, u, c, f, Listed(dirName, 0x10, c, 0), Listed(fileName, 0x20, first, |data|));
  }

  /** What the kernel sees in the two directories. */
  lemma InitSeen(v: Volume, t: Tree, ops: seq<Op>, c: u32, dirName: seq<u16>, fileName: seq<u16>, data: seq<byte>,
                 first: u32)
    requires ExfatTree.Run(v, t, ops) && InitOps(ops, v.root, c, dirName, fileName, data, first) && Empty(v, t)
             && c != v.root
    ensures var u := Built(v, t, ops);
            && Ok(v, u) && c in u.dirs && v.root in u.dirs && t.dirs == {v.root}
            && DirOk(v, u.image, v.root) && Seen(v, u.image, v.root) == [Listed(dirName, 0x10, c, 0)]
            && DirOk(v, u.image, c) && Seen(v, u.image, c) == [Listed(fileName, 0x20, first, |data|)]
  {
    var u := Built(v, t, ops);
    hide ExfatTree.Run, Built, Linked, Listed, Entries, Seen, DirOk, Held, Fits, Disjoint;
    TreeRun(v, t, ops);
    RunKeepsDirs(v, t, ops, 2);
    RunKeepsDirs(v, t, ops, 3);
    InitDirReadable(v, t, ops, c);
    InitLinks(ops, v.root, c, dirName, fileName, data, first);
    SeenIsBefore(v, u, v.root);
    SeenIsBefore(v, u, c);
    assert Before(v, t, v.root) == [] && Before(v, t, c) == [];
  }

  lemma TwoDirs(v: Volume, u: Tree, c: nat, f: File, e1: Entry, e2: Entry)
    requires Ok(v, u) && u.dirs == {v.root, c} && f in u.files && StandsFor(v, e2, f)
    requires DirOk(v, u.image, v.root) && Seen(v, u.image, v.root) == [e1] && IsDirectory(e1) && e1.first == c
    requires DirOk(v, u.image, c) && Seen(v, u.image, c) == [e2] && !IsDirectory(e2)
    ensures Mountable(v, u)
  {
    hide IsDirectory, Seen, DirOk, Held, Fits, Disjoint, StandsFor;
  }

  lemma SeenIsBefore(v: Volume, t: Tree, d: nat)
    requires Ok(v, t) && d in t.dirs && d <= v.count
    ensures DirOk(v, t.image, d) && Seen(v, t.image, d) == Before(v, t, d)
  {
  }

  lemma InitAttributes(dirName: seq<u16>, fileName: seq<u16>, c: u32, first: u32, size: u64)
    ensures IsDirectory(Listed(dirName, 0x10, c, 0)) && Listed(dirName, 0x10, c, 0).first == c
    ensures var e := Listed(fileName, 0x20, first, size); !IsDirectory(e) && e.first == first && e.size == size
  {
  }
}
