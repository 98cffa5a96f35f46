/**
 Directory trees on exFAT: whatever directories, files and names the image
 builder puts on a volume, in whatever order, the kernel's path walk over the
 image is the walk over the tree that was built.
 */
module ExfatTree {
  import opened Words
  import opened FileData
  import opened Exfat
  import opened ExfatTool
  import opened ExfatSpace
  import opened ExfatDirectory
  import opened ExfatLookup
  import opened ExfatCatalog
  import opened ExfatPath

  /** The image, the clusters that hold directories, and the files stored. */
  datatype Tree = Tree(image: Image, dirs: set<nat>, files: set<File>)

  /** `write_dir`, `write_file`, and entering a name for any cluster in a directory. */
  datatype Op =
    | MakeDir
    | StoreFile(data: seq<byte>)
    | Link(dir: nat, name: seq<u16>, attrs: u16, first: u32, size: u64)

  /** Every directory is well-formed, and every file is stored apart from them and from each other. */
  ghost predicate Ok(v: Volume, t: Tree)
  {
    && Fits(v, t.image.bytes) && v.root in t.dirs
    && (forall d :: d in t.dirs ==> DirOk(v, t.image, d))
    && (forall d, f :: d in t.dirs && f in t.files ==> Held(v, t.image, d, f))
    && (forall f, g :: f in t.files && g in t.files && f != g ==> Disjoint(f.chain, g.chain))
  }

  /** The builder does not run out of clusters or directory slots. */
  ghost predicate Possible(v: Volume, t: Tree, op: Op)
    requires Ok(v, t)
  {
    match op
    case MakeDir => Put(v, t.image, []).Some?
    case StoreFile(data) => Put(v, t.image, data).Some?
    case Link(d, name, attrs, first, size) =>
      d in t.dirs && |name| < 256 && Enter(v, t.image, d, name, attrs, first, size).Some?
  }

  ghost function Next(v: Volume, t: Tree, op: Op): Tree
    requires Ok(v, t) && Possible(v, t, op)
  {
    match op
    case MakeDir =>
      OneCluster(v, t.image);
      var (s, f) := Put(v, t.image, []).value;
      Tree(s, t.dirs + {f.chain[0]}, t.files)
    case StoreFile(data) =>
      var (s, f) := Put(v, t.image, data).value;
      t.(image := s, files := t.files + {f})
    case Link(d, name, attrs, first, size) => t.(image := Enter(v, t.image, d, name, attrs, first, size).value)
  }

  /** A new directory gets one cluster. */
  lemma OneCluster(v: Volume, s: Image)
    requires Fits(v, s.bytes) && Put(v, s, []).Some?
    ensures |Put(v, s, []).value.1.chain| == 1
  {
    PutStep(v, s, []);
    hide Put, Fits, InUse, OnImage;
    var (t, f) := Put(v, s, []).value;
    EmptyFile(v, t.bytes, f);
  }

  lemma EmptyFile(v: Volume, bytes: seq<byte>, f: File)
    requires OnImage(v, bytes, f) && f.data == []
    ensures |f.chain| == 1 && f.chain == [f.chain[0]] && v.IsCluster(f.chain[0])
  {
  }

  // ----- a directory is a file whose bytes are its entries

  ghost function DirFile(v: Volume, s: Image, d: nat): File
    requires DirOk(v, s, d)
  {
    File([d], Directory(v, s.bytes, d))
  }

  lemma OneClusterBytes(v: Volume, bytes: seq<byte>, d: nat)
    requires Fits(v, bytes) && IsChain(v, bytes, [d])
    ensures v.Offset(d) + v.ClusterBytes() <= |bytes|
            && ChainBytes(v, bytes, [d]) == Unit(bytes, v.Offset(d), v.ClusterBytes())
  {
    assert [d][0] == d && v.IsCluster(d);
    OffsetBounds(v, bytes, d);
    OffsetsApart(v, bytes, [d]);
    var offs, unit := Offsets(v, [d]), v.ClusterBytes();
    assert offs == [v.Offset(d)] && offs[1..] == [];
    hide Fits, IsChain, Volume.Offset;
    assert Gather(bytes, offs, unit) == Unit(bytes, offs[0], unit) + Gather(bytes, offs[1..], unit);
    assert Gather(bytes, offs[1..], unit) == [];
  }

  lemma DirIsHeld(v: Volume, s: Image, root: nat, d: nat)
    requires DirOk(v, s, d) && d != root
    ensures Held(v, s, root, DirFile(v, s, d))
  {
    hide Fits, IsChain, Volume.Offset, WellFormed;
    OneClusterBytes(v, s.bytes, d);
    FitsTable(v, s.bytes);
  }

  /** A directory still held has the same entries. */
  lemma HeldDirSame(v: Volume, s: Image, t: Image, root: nat, d: nat)
    requires DirOk(v, s, d) && Held(v, t, root, DirFile(v, s, d))
    ensures DirOk(v, t, d) && Entries(v, t, d) == Entries(v, s, d)
  {
    hide Fits, IsChain, Volume.Offset, WellFormed, List;
    var f := DirFile(v, s, d);
    assert f.chain[0] == d;
    OneClusterBytes(v, t.bytes, d);
    SameWhole(f.data, Directory(v, t.bytes, d));
  }

  lemma SameWhole(a: seq<byte>, b: seq<byte>)
    requires a <= b && |a| == |b|
    ensures a == b
  {
  }

  // ----- one step

  /** Directories of `t` keep their entries in `s`. */
  ghost predicate SameEntries(v: Volume, t: Tree, s: Image, d: nat)
  {
    DirOk(v, t.image, d) && DirOk(v, s, d) && Entries(v, s, d) == Entries(v, t.image, d)
  }

  lemma LinkStep(v: Volume, t: Tree, op: Op)
    requires Ok(v, t) && op.Link? && Possible(v, t, op)
    ensures var u := Next(v, t, op);
            && Ok(v, u)
            && (forall d :: d in t.dirs && d != op.dir ==> SameEntries(v, t, u.image, d))
            && Entries(v, u.image, op.dir) ==
               Entries(v, t.image, op.dir) + [Listed(op.name, op.attrs, op.first, op.size)]
  {
    hide DirOk, Entries, Enter, Listed, Held, Fits;
    var u := Next(v, t, op);
    EnterStep(v, t.image, op.dir, op.name, op.attrs, op.first, op.size);
    forall d | d in t.dirs && d != op.dir ensures SameEntries(v, t, u.image, d) {
      DirIsHeld(v, t.image, op.dir, d);
      HeldDirSame(v, t.image, u.image, op.dir, d);
    }
    DirFits(v, u.image, op.dir);
    forall d, f | d in t.dirs && f in t.files ensures Held(v, u.image, d, f) {
      assert Held(v, t.image, op.dir, f);
      SameHolder(v, t.image, u.image, op.dir, d, f);
    }
  }

  lemma DirFits(v: Volume, s: Image, d: nat)
    requires DirOk(v, s, d)
    ensures Fits(v, s.bytes)
  {
  }

  /** Being held says nothing of a directory but that the file avoids it. */
  lemma SameHolder(v: Volume, s: Image, t: Image, root: nat, d: nat, f: File)
    requires Held(v, t, root, f) && Held(v, s, d, f)
    ensures Held(v, t, d, f)
  {
  }

  lemma StoreStep(v: Volume, t: Tree, op: Op)
    requires Ok(v, t) && op.StoreFile? && Possible(v, t, op)
    ensures var u := Next(v, t, op);
            Ok(v, u) && u.dirs == t.dirs && forall d :: d in t.dirs ==> SameEntries(v, t, u.image, d)
  {
    var u, f := Next(v, t, op), Put(v, t.image, op.data).value.1;
    assert u == t.(image := Put(v, t.image, op.data).value.0, files := t.files + {f});
    hide DirOk, Entries, Put, Held, Next, Disjoint, Fits;
    forall d | d in t.dirs
      ensures SameEntries(v, t, u.image, d) && forall g :: g in u.files ==> Held(v, u.image, d, g)
    {
      PutKeeps(v, t.image, d, op.data);
    }
    assert SameEntries(v, t, u.image, v.root);
    DirFits(v, u.image, v.root);
    forall g | g in t.files ensures Disjoint(f.chain, g.chain) && Disjoint(g.chain, f.chain) {
      NewFileApart(v, t, op.data, g);
    }
  }

  /** A new file takes no cluster of an old one. */
  lemma NewFileApart(v: Volume, t: Tree, data: seq<byte>, g: File)
    requires Ok(v, t) && Put(v, t.image, data).Some? && g in t.files
    ensures var f := Put(v, t.image, data).value.1; Disjoint(f.chain, g.chain) && Disjoint(g.chain, f.chain)
  {
    assert Held(v, t.image, v.root, g);
    PutStep(v, t.image, data);
    hide Put, Held, InUse, OnImage, Fits, Ok, SameCluster;
    HeldInUse(v, t.image, v.root, g);
  }

  lemma EmptyCluster(v: Volume, buf: seq<byte>)
    requires |buf| >= ENTRY && forall k :: 0 <= k < |buf| ==> buf[k] == 0
    ensures WellFormed(buf, 0) && List(buf, 0).0 == []
  {
  }

  /** The cluster of a new directory is all zeros, so it lists as empty. */
  lemma NewDirEmpty(v: Volume, s: Image)
    requires Fits(v, s.bytes) && Put(v, s, []).Some?
    ensures var (t, f) := Put(v, s, []).value;
            |f.chain| == 1 && DirOk(v, t, f.chain[0]) && Entries(v, t, f.chain[0]) == []
  {
    OneCluster(v, s);
    PutStep(v, s, []);
    FitsTable(v, s.bytes);
    Found(v, s, 1);
    var (t, f) := Put(v, s, []).value;
    var c := f.chain[0];
    assert f.chain == [c];
    hide Fits, IsChain, WellFormed, List, Volume.Offset, FindFree;
    StoreContents(v, s.bytes, f.chain, []);
    OneClusterBytes(v, t.bytes, c);
    ZeroCluster(v);
    EmptyCluster(v, Directory(v, t.bytes, c));
  }

  lemma ZeroCluster(v: Volume)
    ensures PaddedAll(v, [], 1) == Zeros(v.ClusterBytes())
    ensures v.spc > 0 ==> v.ClusterBytes() >= ENTRY
  {
    assert Padded(v, []) == Zeros(v.ClusterBytes());
    assert PaddedAll(v, [], 0) == [];
  }

  lemma MakeDirStep(v: Volume, t: Tree)
    requires Ok(v, t) && Possible(v, t, MakeDir)
    ensures var u := Next(v, t, MakeDir);
            && Ok(v, u) && t.dirs <= u.dirs
            && (forall d :: d in t.dirs ==> SameEntries(v, t, u.image, d))
            && (forall d :: d in u.dirs && d !in t.dirs ==> DirOk(v, u.image, d) && Entries(v, u.image, d) == [])
  {
    OneCluster(v, t.image);
    NewDirEmpty(v, t.image);
    var u, f := Next(v, t, MakeDir), Put(v, t.image, []).value.1;
    var c := f.chain[0];
    PutStep(v, t.image, []);
    hide DirOk, Entries, Put, Held, InUse, SameCluster;
    forall d | d in t.dirs
      ensures SameEntries(v, t, u.image, d) && forall g :: g in u.files ==> Held(v, u.image, d, g)
    {
      PutKeeps(v, t.image, d, []);
    }
    DirFits(v, u.image, c);
    forall g | g in u.files ensures Held(v, u.image, c, g) {
      assert Held(v, t.image, v.root, g) && Held(v, u.image, v.root, g);
      HeldInUse(v, t.image, v.root, g);
      Avoids(v, u.image, v.root, c, g);
    }
  }

  lemma Avoids(v: Volume, s: Image, root: nat, c: nat, g: File)
    requires Held(v, s, root, g) && forall i :: 0 <= i < |g.chain| ==> g.chain[i] != c
    ensures Held(v, s, c, g)
  {
  }

  // ----- runs

  ghost predicate Run(v: Volume, t: Tree, ops: seq<Op>)
    decreases |ops|
  {
    Ok(v, t) && (ops == [] || (Possible(v, t, ops[0]) && Run(v, Next(v, t, ops[0]), ops[1..])))
  }

  ghost function Built(v: Volume, t: Tree, ops: seq<Op>): Tree
    requires Run(v, t, ops)
    decreases |ops|
  {
    if ops == [] then t else Built(v, Next(v, t, ops[0]), ops[1..])
  }

  /** One operation, then the rest. */
  lemma RunHead(v: Volume, t: Tree, ops: seq<Op>)
    requires Run(v, t, ops) && ops != []
    ensures Ok(v, t) && Possible(v, t, ops[0]) && Run(v, Next(v, t, ops[0]), ops[1..])
    ensures Built(v, t, ops) == Built(v, Next(v, t, ops[0]), ops[1..])
  {
    hide Ok, Possible, Next;
  }

  /** The entries linked into directory `d`, in order. */
  function Linked(ops: seq<Op>, d: nat): seq<Entry>
  {
    if ops == [] then []
    else
      var rest := Linked(ops[1..], d);
      match ops[0]
      case Link(dir, name, attrs, first, size) => if dir == d then [Listed(name, attrs, first, size)] + rest else rest
      case _ => rest
  }

  /** What was in directory `d` at the start. */
  ghost function Before(v: Volume, t: Tree, d: nat): seq<Entry>
    requires Ok(v, t)
  {
    if d in t.dirs then Entries(v, t.image, d) else []
  }

  /** One step, for every directory that exists afterwards. */
  lemma OneStep(v: Volume, t: Tree, op: Op)
    requires Ok(v, t) && Possible(v, t, op)
    ensures var u := Next(v, t, op);
            && Ok(v, u) && t.dirs <= u.dirs && t.files <= u.files
            && forall d :: d in u.dirs ==> Before(v, u, d) == Before(v, t, d) + Linked([op], d)
  {
    hide DirOk, Entries, Held, Put, Enter, Listed;
    var u := Next(v, t, op);
    assert [op][1..] == [];
    match op {
      case MakeDir => MakeDirStep(v, t);
      case StoreFile(_) => StoreStep(v, t, op);
      case Link(_, _, _, _, _) => LinkStep(v, t, op);
    }
    forall d | d in u.dirs ensures Before(v, u, d) == Before(v, t, d) + Linked([op], d) {
      if d in t.dirs && !(op.Link? && op.dir == d) {
        assert SameEntries(v, t, u.image, d);
      }
    }
  }

  /** Over every run: a directory lists what it held, then the names linked into it, in order. */
  lemma {:induction false} TreeRun(v: Volume, t: Tree, ops: seq<Op>)
    requires Run(v, t, ops)
    ensures var u := Built(v, t, ops);
            && Ok(v, u) && t.dirs <= u.dirs && t.files <= u.files
            && forall d :: d in u.dirs ==> Before(v, u, d) == Before(v, t, d) + Linked(ops, d)
    decreases |ops|
  {
    hide Ok, Before, Possible, Next;
    if ops == [] {
    } else {
      OneStep(v, t, ops[0]);
      var m := Next(v, t, ops[0]);
      TreeRun(v, m, ops[1..]);
      var u := Built(v, m, ops[1..]);
      forall d | d in u.dirs ensures Before(v, u, d) == Before(v, t, d) + Linked(ops, d) {
        if d in m.dirs {
          JoinLinks(ops, d);
        } else {
          NotYet(v, t, m, ops, d);
        }
      }
    }
  }

  lemma JoinLinks(ops: seq<Op>, d: nat)
    requires ops != []
    ensures Linked(ops, d) == Linked([ops[0]], d) + Linked(ops[1..], d)
  {
    assert [ops[0]][1..] == [];
  }

  /** A directory made later is empty before, and nothing can be linked into it yet. */
  lemma NotYet(v: Volume, t: Tree, m: Tree, ops: seq<Op>, d: nat)
    requires Ok(v, t) && Ok(v, m) && ops != [] && Possible(v, t, ops[0]) && t.dirs <= m.dirs && d !in m.dirs
    ensures Before(v, t, d) == [] && Before(v, m, d) == [] && Linked(ops, d) == Linked(ops[1..], d)
  {
  }

  // ----- the kernel's walk

  /** The walk over directories given by their entries. */
  function Resolve(m: map<nat, seq<Entry>>, c: nat, names: seq<seq<byte>>): Option<Entry>
    decreases |names|
  {
    if names == [] || |names[0]| + 1 > MAX_NAME || c !in m then None
    else
      var e := FindName(ExfatLookup.Take(m[c], LOOKUP_MAX), names[0]);
      if e.None? || |names| == 1 then e
      else if !IsDirectory(e.value) then None
      else Resolve(m, e.value.first, names[1..])
  }

  ghost function Chains(t: Tree): map<nat, seq<nat>> { map d | d in t.dirs :: [d] }

  ghost function Listings(v: Volume, t: Tree): map<nat, seq<Entry>>
    requires Ok(v, t)
  {
    map d | d in t.dirs :: Seen(v, t.image, d)
  }

  lemma {:induction false} WalkIsResolve(v: Volume, t: Tree, c: nat, names: seq<seq<byte>>)
    requires Ok(v, t)
    ensures Walk(v, t.image.bytes, Chains(t), c, names) == Resolve(Listings(v, t), c, names)
    decreases |names|
  {
    hide Seen, DirOk, FindName, ListChain, Held, IsDirectory;
    if names == [] {
    } else {
      if c in t.dirs {
        ListOneCluster(v, t.image, c);
      }
      var e := Lookup(v, t.image.bytes, Chains(t), c, names[0]);
      hide Ok;
      if e.Some? {
        WalkIsResolve(v, t, e.value.first, names[1..]);
      }
    }
  }

  /** Every directory entry leads to a directory of the tree, or to no cluster at all. */
  ghost predicate Closed(v: Volume, t: Tree)
    requires Ok(v, t)
  {
    forall d, e :: d in t.dirs && e in Seen(v, t.image, d) && IsDirectory(e) ==>
                     e.first in t.dirs || !(2 <= e.first < EOC)
  }

  lemma TreeReachable(v: Volume, t: Tree)
    requires Ok(v, t) && Closed(v, t)
    ensures Reachable(v, t.image.bytes, Chains(t))
  {
    hide Entries, ListChain, Held, IsDirectory, Fits, List;
    var dirs := Chains(t);
    forall c | c in dirs
      ensures IsChain(v, t.image.bytes, dirs[c]) && dirs[c][0] == c
      ensures ListChain(v, t.image.bytes, dirs[c], 0) == Seen(v, t.image, c)
    {
      ListOneCluster(v, t.image, c);
    }
  }

  /**
   The tree a run builds: what each directory the kernel can read held at the start, then the
   names linked into it.
   */
  ghost function BuiltTree(v: Volume, t: Tree, ops: seq<Op>): map<nat, seq<Entry>>
    requires Run(v, t, ops)
  {
    map d | d in Built(v, t, ops).dirs :: if d <= v.count then Before(v, t, d) + Linked(ops, d) else []
  }

  lemma BuiltWalk(v: Volume, t: Tree, ops: seq<Op>, names: seq<seq<byte>>)
    requires Run(v, t, ops)
    ensures var u := Built(v, t, ops);
            Walk(v, u.image.bytes, Chains(u), v.root, names) == Resolve(BuiltTree(v, t, ops), v.root, names)
  {
    hide Run, Built, Ok, Entries, Walk, Resolve, Linked;
    TreeRun(v, t, ops);
    var u := Built(v, t, ops);
    WalkIsResolve(v, u, v.root, names);
    assert BuiltTree(v, t, ops) == Listings(v, u);
  }

  /** `exfat_find_root` on an image built by any run, for any path: the entry the walk over the built tree gives. */
  method FindBuilt(v: Volume, disk: seq<byte>, path: seq<byte>, ghost t: Tree, ghost ops: seq<Op>)
    returns (r: Option<Entry>)
    requires Run(v, t, ops) && Ok(v, Built(v, t, ops)) && Closed(v, Built(v, t, ops))
             && disk == Built(v, t, ops).image.bytes
    ensures r == Resolve(BuiltTree(v, t, ops), v.root, Components(path))
  {
    hide Run, Built, Ok, Closed, Reachable, Walk, Resolve, Components, BuiltTree;
    TreeReachable(v, Built(v, t, ops));
    BuiltWalk(v, t, ops, Components(path));
    r := FindRoot(v, disk, path, Chains(Built(v, t, ops)));
  }

  // ----- which files and directories get the cluster the kernel rejects

  /** The bytes an operation stores; a directory starts without any. */
  function DataOf(op: Op): seq<byte> { if op.StoreFile? then op.data else [] }

  /** Clusters an operation takes. */
  function Taken(v: Volume, op: Op): (n: nat)
    requires v.spc > 0
    ensures n == 0 <==> op.Link?
  {
    if op.Link? then 0 else Needed(v, |DataOf(op)|)
  }

  function TakenAll(v: Volume, ops: seq<Op>): nat
    requires v.spc > 0
  {
    if ops == [] then 0 else Taken(v, ops[0]) + TakenAll(v, ops[1..])
  }

  /** The free clusters before and after an operation, and the last one among them. */
  lemma OpSpace(v: Volume, t: Tree, op: Op)
    requires Ok(v, t) && Possible(v, t, op)
    ensures var s, u := t.image, Next(v, t, op).image;
            && v.FatByte(v.count + 2) <= |s.bytes| == |u.bytes| && v.spc > 0
            && FreeCount(v, u.bytes, u.reserved, 2) + Taken(v, op) == FreeCount(v, s.bytes, s.reserved, 2)
            && (IsFree(v, u.bytes, u.reserved, v.count + 1)
                <==> IsFree(v, s.bytes, s.reserved, v.count + 1)
                     && (op.Link? || FreeCount(v, s.bytes, s.reserved, 2) != Taken(v, op)))
  {
    FitsTable(v, t.image.bytes);
    hide Fits, IsFree, FreeCount, Put, Enter, DirOk, Held, Needed;
    if op.Link? {
      EnterAllocatesNothing(v, t.image, op.dir, op.name, op.attrs, op.first, op.size);
      SameFreeCount(v, t.image, Next(v, t, op).image, 2, []);
    } else {
      PutSpace(v, t.image, DataOf(op));
    }
  }

  /** A run needs the clusters it takes. */
  lemma {:induction false} RunNeeds(v: Volume, t: Tree, ops: seq<Op>)
    requires Run(v, t, ops)
    ensures v.FatByte(v.count + 2) <= |t.image.bytes| && v.spc > 0
    ensures TakenAll(v, ops) <= FreeCount(v, t.image.bytes, t.image.reserved, 2)
    decreases |ops|
  {
    FitsTable(v, t.image.bytes);
    hide Ok, Possible, Next, FreeCount, Taken;
    if ops == [] {
    } else {
      OpSpace(v, t, ops[0]);
      RunNeeds(v, Next(v, t, ops[0]), ops[1..]);
    }
  }

  /** What operation `i` of a run puts on the image: where, and what. */
  ghost function PutAt(v: Volume, t: Tree, ops: seq<Op>, i: nat): File
    requires Run(v, t, ops) && i < |ops| && !ops[i].Link?
    decreases |ops|
  {
    if i == 0 then Put(v, t.image, DataOf(ops[0])).value.1 else PutAt(v, Next(v, t, ops[0]), ops[1..], i - 1)
  }

  lemma PutAtHead(v: Volume, t: Tree, ops: seq<Op>, i: nat)
    requires Run(v, t, ops) && i < |ops| && !ops[i].Link?
    ensures Ok(v, t) && Possible(v, t, ops[0]) && Run(v, Next(v, t, ops[0]), ops[1..])
    ensures i == 0 ==>
              && Put(v, t.image, DataOf(ops[0])).Some?
              && PutAt(v, t, ops, i) == Put(v, t.image, DataOf(ops[0])).value.1
    ensures i > 0 ==> PutAt(v, t, ops, i) == PutAt(v, Next(v, t, ops[0]), ops[1..], i - 1)
  {
    hide Ok, Next, Put;
  }

  /**
   Operation `i` of a run takes the last cluster: it is free before, and the operations up to
   this one need all that is free.
   */
  ghost predicate TakesLastAt(v: Volume, s: Image, ops: seq<Op>, i: nat)
    requires v.FatByte(v.count + 2) <= |s.bytes| && v.spc > 0 && i < |ops|
  {
    && IsFree(v, s.bytes, s.reserved, v.count + 1)
    && FreeCount(v, s.bytes, s.reserved, 2) == TakenAll(v, ops[..i + 1])
  }

  lemma TakenUpTo(v: Volume, ops: seq<Op>, i: nat)
    requires v.spc > 0 && i < |ops|
    ensures TakenAll(v, ops[..i + 1]) == Taken(v, ops[0]) + TakenAll(v, ops[1..][..i])
  {
    assert ops[..i + 1][1..] == ops[1..][..i];
  }

  lemma {:induction false} TakenAtLeast(v: Volume, ops: seq<Op>, k: nat)
    requires v.spc > 0 && k < |ops|
    ensures Taken(v, ops[k]) <= TakenAll(v, ops)
  {
    if k == 0 {
    } else {
      TakenAtLeast(v, ops[1..], k - 1);
    }
  }

  /** The last cluster is in the chain exactly under that condition on the image before the run. */
  lemma {:induction false} PutAtLastIff(v: Volume, t: Tree, ops: seq<Op>, i: nat)
    requires Run(v, t, ops) && i < |ops| && !ops[i].Link?
    ensures v.FatByte(v.count + 2) <= |t.image.bytes| && v.spc > 0
    ensures v.count + 1 in PutAt(v, t, ops, i).chain <==> TakesLastAt(v, t.image, ops, i)
    decreases |ops|
  {
    hide Run, PutAt, Ok, Possible, Next, FreeCount, IsFree, TakenAll, Put;
    PutAtHead(v, t, ops, i);
    OpSpace(v, t, ops[0]);
    TakenUpTo(v, ops, i);
    if i == 0 {
      assert TakenAll(v, ops[1..][..0]) == 0 by { NoneTaken(v); }
      FirstSpace(v, t, ops[0]);
    } else {
      PutAtLastIff(v, Next(v, t, ops[0]), ops[1..], i - 1);
      TakenAtLeast(v, ops[1..][..i], i - 1);
    }
  }

  lemma NoneTaken(v: Volume)
    requires v.spc > 0
    ensures TakenAll(v, []) == 0
  {
  }

  lemma FirstSpace(v: Volume, t: Tree, op: Op)
    requires Ok(v, t) && Possible(v, t, op) && !op.Link?
    ensures v.FatByte(v.count + 2) <= |t.image.bytes| && v.spc > 0 && Put(v, t.image, DataOf(op)).Some?
    ensures v.count + 1 in Put(v, t.image, DataOf(op)).value.1.chain
            <==> IsFree(v, t.image.bytes, t.image.reserved, v.count + 1)
                 && FreeCount(v, t.image.bytes, t.image.reserved, 2) == Taken(v, op)
  {
    hide Fits, IsFree, FreeCount, Put, DirOk, Held, Needed;
    PutSpace(v, t.image, DataOf(op));
  }

  /** A file put on the image stays among the files of the tree. */
  lemma {:induction false} PutAtIsKept(v: Volume, t: Tree, ops: seq<Op>, i: nat)
    requires Run(v, t, ops) && i < |ops| && ops[i].StoreFile?
    ensures PutAt(v, t, ops, i) in Built(v, t, ops).files && PutAt(v, t, ops, i).data == ops[i].data
    decreases |ops|
  {
    hide Run, Built, PutAt;
    RunHead(v, t, ops);
    PutAtHead(v, t, ops, i);
    if i == 0 {
      PutIsKept(v, t, ops[0]);
      hide Put, Ok, Next;
      OneStep(v, t, ops[0]);
      TreeRun(v, Next(v, t, ops[0]), ops[1..]);
    } else {
      hide Ok, Possible, Next, Put;
      PutAtIsKept(v, Next(v, t, ops[0]), ops[1..], i - 1);
    }
  }

  lemma PutIsKept(v: Volume, t: Tree, op: Op)
    requires Ok(v, t) && op.StoreFile? && Possible(v, t, op)
    ensures var f := Put(v, t.image, op.data).value.1; f in Next(v, t, op).files && f.data == op.data
  {
    PutStep(v, t.image, op.data);
    hide Put, Ok, Fits, OnImage, InUse;
  }

  /** A file of the tree reads back exactly when it is empty or avoids the cluster the kernel rejects. */
  lemma FileReads(v: Volume, t: Tree, f: File)
    requires Ok(v, t) && f in t.files
    ensures f.chain != [] && v.spc > 0
    ensures Collect(v, t.image.bytes, f.chain[0], |f.data|) ==
            if f.data == [] || v.count + 1 !in f.chain then Some(f.data) else None
  {
    assert Held(v, t.image, v.root, f);
    FitsTable(v, t.image.bytes);
    hide Collect, Fits;
    KernelReadsFile(v, t.image.bytes, f);
    RejectedCluster(v, t.image.bytes, f);
  }

  /**
   Every file stored by a run, among whatever directories and names, reads back
   from the final image, unless it is the nonempty one that takes the last free
   cluster, cluster `count + 1`.
   */
  lemma StoredFilesRead(v: Volume, t: Tree, ops: seq<Op>, i: nat)
    requires Run(v, t, ops) && i < |ops| && ops[i].StoreFile?
    ensures v.FatByte(v.count + 2) <= |t.image.bytes| && v.spc > 0
    ensures var f := PutAt(v, t, ops, i);
            && f.chain != [] && f.data == ops[i].data
            && Collect(v, Built(v, t, ops).image.bytes, f.chain[0], |f.data|) ==
               if f.data != [] && TakesLastAt(v, t.image, ops, i) then None else Some(f.data)
  {
    hide Run, Built, Ok, Collect, PutAt, TakesLastAt;
    TreeRun(v, t, ops);
    PutAtIsKept(v, t, ops, i);
    PutAtLastIff(v, t, ops, i);
    FileReads(v, Built(v, t, ops), PutAt(v, t, ops, i));
  }

  /** A directory that is new after a run was made by one of its operations. */
  lemma {:induction false} MadeBy(v: Volume, t: Tree, ops: seq<Op>, d: nat) returns (k: nat)
    requires Run(v, t, ops) && d in Built(v, t, ops).dirs && d !in t.dirs
    ensures k < |ops| && ops[k].MakeDir? && PutAt(v, t, ops, k).chain == [d]
    decreases |ops|
  {
    hide Run, Built, PutAt;
    if ops == [] {
      BuiltNothing(v, t);
    }
    RunHead(v, t, ops);
    var m := Next(v, t, ops[0]);
    if d in m.dirs {
      k := 0;
      MadeFirst(v, t, ops[0], d);
      hide Put, Ok, Next;
      PutAtHead(v, t, ops, 0);
    } else {
      hide Put, Ok, Possible, Next;
      k := MadeBy(v, m, ops[1..], d);
      PutAtHead(v, t, ops, k + 1);
      k := k + 1;
    }
  }

  lemma BuiltNothing(v: Volume, t: Tree)
    requires Run(v, t, [])
    ensures Built(v, t, []) == t
  {
  }

  lemma MadeFirst(v: Volume, t: Tree, op: Op, d: nat)
    requires Ok(v, t) && Possible(v, t, op) && d in Next(v, t, op).dirs && d !in t.dirs
    ensures op.MakeDir? && Put(v, t.image, []).Some? && Put(v, t.image, []).value.1.chain == [d]
  {
    OneCluster(v, t.image);
    hide Put, Ok, Enter;
    var chain := Put(v, t.image, []).value.1.chain;
    assert chain == [chain[0]];
  }

  // ----- a file in a subdirectory

  /** The builder's calls for one directory with one file in it, entered in the root. */
  predicate InitOps(ops: seq<Op>, root: nat, c: u32, dirName: seq<u16>, fileName: seq<u16>, data: seq<byte>, first: u32)
  {
    && |data| < TWO64 && |ops| == 4 && ops[0] == MakeDir && ops[1] == StoreFile(data)
    && ops[2] == Link(c, fileName, 0x20, first, |data|) && ops[3] == Link(root, dirName, 0x10, c, 0)
  }

  lemma OneLink(op: Op, d: nat)
    ensures Linked([op], d) == if op.Link? && op.dir == d then [Listed(op.name, op.attrs, op.first, op.size)] else []
  {
    assert [op][1..] == [];
  }

  lemma FourLinks(a: Op, b: Op, c: Op, e: Op, d: nat)
    ensures Linked([a, b, c, e], d) == Linked([a], d) + (Linked([b], d) + (Linked([c], d) + Linked([e], d)))
  {
    hide Linked;
    assert [a, b, c, e][1..] == [b, c, e] && [b, c, e][1..] == [c, e] && [c, e][1..] == [e];
    JoinLinks([a, b, c, e], d);
    JoinLinks([b, c, e], d);
    JoinLinks([c, e], d);
  }

  lemma InitLinks(ops: seq<Op>, root: nat, c: u32, dirName: seq<u16>, fileName: seq<u16>, data: seq<byte>, first: u32)
    requires InitOps(ops, root, c, dirName, fileName, data, first) && c != root
    ensures Linked(ops, root) == [Listed(dirName, 0x10, c, 0)]
    ensures Linked(ops, c) == [Listed(fileName, 0x20, first, |data|)]
  {
    hide Linked, Listed;
    assert ops == [ops[0], ops[1], ops[2], ops[3]];
    forall d | d == root || d == c
      ensures Linked(ops, d) == if d == root then [Listed(dirName, 0x10, c, 0)]
              else [Listed(fileName, 0x20, first, |data|)]
    {
      FourLinks(ops[0], ops[1], ops[2], ops[3], d);
      OneLink(ops[0], d);
      OneLink(ops[1], d);
      OneLink(ops[2], d);
      OneLink(ops[3], d);
    }
  }

  /** Two steps down: first to the directory, then to the file. */
  lemma ResolveTwo(m: map<nat, seq<Entry>>, root: nat, q1: seq<byte>, q2: seq<byte>, i: nat, j: nat)
    requires root in m && i < |m[root]| <= LOOKUP_MAX && |q1| < MAX_NAME && |q2| < MAX_NAME
    requires SameName(m[root][i].name, q1) && (forall k :: 0 <= k < i ==> !SameName(m[root][k].name, q1))
    requires IsDirectory(m[root][i]) && m[root][i].first in m
    requires var es := m[m[root][i].first];
             j < |es| <= LOOKUP_MAX && SameName(es[j].name, q2)
               && (forall k :: 0 <= k < j ==> !SameName(es[k].name, q2))
    ensures Resolve(m, root, [q1, q2]) == Some(m[m[root][i].first][j])
  {
    hide SameName, IsDirectory;
    FindFirst(m[root], i, q1);
    FindFirst(m[m[root][i].first], j, q2);
    assert [q1, q2][1..] == [q2];
    hide FindName;
    assert Resolve(m, m[root][i].first, [q2]) == Some(m[m[root][i].first][j]);
  }

  lemma {:induction false} RunKeepsDirs(v: Volume, t: Tree, ops: seq<Op>, i: nat)
    requires Run(v, t, ops) && i < |ops| && ops[i].Link?
    ensures ops[i].dir in Built(v, t, ops).dirs
    decreases |ops|
  {
    hide Ok, Possible, Next;
    var m := Next(v, t, ops[0]);
    if i == 0 {
      assert ops[0].dir in t.dirs by { LinkedDir(v, t, ops[0]); }
      OneStep(v, t, ops[0]);
      TreeRun(v, m, ops[1..]);
    } else {
      RunKeepsDirs(v, m, ops[1..], i - 1);
    }
  }

  lemma LinkedDir(v: Volume, t: Tree, op: Op)
    requires Ok(v, t) && Possible(v, t, op) && op.Link?
    ensures op.dir in t.dirs
  {
  }

  /** The directory does not get the cluster the kernel rejects: the file after it needs another one. */
  lemma InitDirReadable(v: Volume, t: Tree, ops: seq<Op>, c: nat)
    requires Run(v, t, ops) && |ops| == 4 && ops[0].MakeDir? && ops[1].StoreFile? && ops[2].Link? && ops[3].Link?
    requires ops[2].dir == c && c !in t.dirs
    ensures c <= v.count
  {
    hide Run, Built, PutAt, TakenAll, Ok;
    RunKeepsDirs(v, t, ops, 2);
    var k := MadeBy(v, t, ops, c);
    PutAtLastIff(v, t, ops, k);
    RunNeeds(v, t, ops);
    TakenUpTo(v, ops, 0);
    TakenUpTo(v, ops, 3);
    TakenAtLeast(v, ops[1..], 0);
    assert ops[..4] == ops && ops[1..][..3] == ops[1..] && ops[1..][..0] == [];
    NoneTaken(v);
    PutAtCluster(v, t, ops, k);
    assert PutAt(v, t, ops, k).chain[0] == c && ops[1..][0] == ops[1];
  }

  lemma {:induction false} PutAtCluster(v: Volume, t: Tree, ops: seq<Op>, i: nat)
    requires Run(v, t, ops) && i < |ops| && !ops[i].Link?
    ensures forall k :: 0 <= k < |PutAt(v, t, ops, i).chain| ==> v.IsCluster(PutAt(v, t, ops, i).chain[k])
    decreases |ops|
  {
    hide Run, PutAt;
    PutAtHead(v, t, ops, i);
    if i == 0 {
      PutStep(v, t.image, DataOf(ops[0]));
      hide Put, Ok, Fits, InUse;
    } else {
      hide Ok, Possible, Next, Put;
      PutAtCluster(v, Next(v, t, ops[0]), ops[1..], i - 1);
    }
  }

  /**
   /SBIN/INIT: after a directory is made, a file stored, and both entered, the
   kernel finds the file under its path in any letter case, and what it finds
   reads back as the file, unless the file takes the last free cluster.
   */
  lemma InitIsFound(v: Volume, t: Tree, ops: seq<Op>, c: u32, dirName: seq<u16>, fileName: seq<u16>, data: seq<byte>,
                    first: u32, q1: seq<byte>, q2: seq<byte>)
    requires Run(v, t, ops) && InitOps(ops, v.root, c, dirName, fileName, data, first)
    requires Ok(v, t) && c !in t.dirs && v.root <= v.count && [first] <= PutAt(v, t, ops, 1).chain
    requires Plain(dirName) && Plain(fileName) && |q1| < MAX_NAME && |q2| < MAX_NAME
    requires SameName(dirName, q1) && SameName(fileName, q2)
    requires var es := Entries(v, t.image, v.root);
             |es| < LOOKUP_MAX && forall k :: 0 <= k < |es| ==> !SameName(es[k].name, q1)
    ensures v.FatByte(v.count + 2) <= |t.image.bytes| && v.spc > 0
    ensures var u := Built(v, t, ops);
            && Walk(v, u.image.bytes, Chains(u), v.root, [q1, q2]) == Some(Entry(fileName, 0x20, first, |data|))
            && Collect(v, u.image.bytes, first, |data|) ==
               if data != [] && TakesLastAt(v, t.image, ops, 1) then None else Some(data)
  {
    hide Run, Built, SameName, Walk, Collect, PutAt, TakesLastAt, Plain;
    StoredFilesRead(v, t, ops, 1);
    assert PutAt(v, t, ops, 1).chain[0] == first;
    InitIsListed(v, t, ops, c, dirName, fileName, data, first, q1, q2);
  }

  lemma InitIsListed(v: Volume, t: Tree, ops: seq<Op>, c: u32, dirName: seq<u16>, fileName: seq<u16>, data: seq<byte>,
                     first: u32, q1: seq<byte>, q2: seq<byte>)
    requires Run(v, t, ops) && InitOps(ops, v.root, c, dirName, fileName, data, first)
    requires Ok(v, t) && c !in t.dirs && v.root <= v.count
    requires Plain(dirName) && Plain(fileName) && |q1| < MAX_NAME && |q2| < MAX_NAME
    requires SameName(dirName, q1) && SameName(fileName, q2)
    requires var es := Entries(v, t.image, v.root);
             |es| < LOOKUP_MAX && forall k :: 0 <= k < |es| ==> !SameName(es[k].name, q1)
    ensures var u := Built(v, t, ops);
            Walk(v, u.image.bytes, Chains(u), v.root, [q1, q2]) == Some(Entry(fileName, 0x20, first, |data|))
  {
    hide Run, Built, Linked, Listed, IsDirectory, SameName, Walk, Resolve, Entries, DirOk, Held, Fits;
    var es := Entries(v, t.image, v.root);
    InitLinks(ops, v.root, c, dirName, fileName, data, first);
    InitDirReadable(v, t, ops, c);
    var e1, e2 := Entry(dirName, 0x10, c, 0), Entry(fileName, 0x20, first, |data|);
    assert IsDirectory(e1) by { DirAttribute(e1); }
    PlainListed(dirName, 0x10, c, 0);
    PlainListed(fileName, 0x20, first, |data|);
    RunKeepsDirs(v, t, ops, 2);
    RunKeepsDirs(v, t, ops, 3);
    BuiltWalk(v, t, ops, [q1, q2]);
    var m := BuiltTree(v, t, ops);
    assert m[v.root] == es + [e1] && m[c] == [e2];
    hide BuiltTree, InitOps, Plain, Ok;
    ResolveTwo(m, v.root, q1, q2, |es|, 0);
  }

  lemma PlainListed(name: seq<u16>, attrs: u16, first: u32, size: u64)
    requires Plain(name) && attrs < 0x100
    ensures Listed(name, attrs, first, size) == Entry(name, attrs, first, size)
  {
    NameComesBackIff(name);
  }

  lemma DirAttribute(e: Entry)
    requires e.attributes == 0x10
    ensures IsDirectory(e)
  {
  }
}
