/**
 The whole exFAT round trip: every sequence of files the image builder stores
 and enters in a one-cluster directory can afterwards be looked up by name and
 read by the kernel.
 */
module ExfatCatalog {
  import opened Words
  import opened Bytes
  import opened Exfat
  import opened ExfatTool
  import opened ExfatSpace
  import opened ExfatDirectory
  import opened ExfatLookup

  /** A file to publish. */
  datatype Item = Item(name: seq<u16>, attrs: u16, data: seq<byte>)

  /** Cluster `root` holds a whole directory, and is set aside. */
  ghost predicate DirOk(v: Volume, s: Image, root: nat)
  {
    && Fits(v, s.bytes) && IsChain(v, s.bytes, [root]) && root in s.reserved
    && v.Offset(root) + v.ClusterBytes() <= |s.bytes|
    && WellFormed(Directory(v, s.bytes, root), 0)
  }

  ghost function Entries(v: Volume, s: Image, root: nat): seq<Entry>
    requires DirOk(v, s, root)
  {
    List(Directory(v, s.bytes, root), 0).0
  }

  /** The file is on the image, in clusters set aside for it. */
  ghost predicate Held(v: Volume, s: Image, root: nat, f: File)
  {
    OnImage(v, s.bytes, f) && root !in f.chain && forall i :: 0 <= i < |f.chain| ==> f.chain[i] in s.reserved
  }

  /** The entry the kernel lists for a published file. */
  function EntryOf(x: Item, f: File): Entry
    requires |x.data| < TWO64 && f.chain != [] && f.chain[0] < TWO32
  {
    Listed(x.name, x.attrs, f.chain[0], |x.data|)
  }

  lemma FirstCluster(v: Volume, bytes: seq<byte>, f: File)
    requires OnImage(v, bytes, f)
    ensures f.chain != [] && f.chain[0] < TWO32
  {
    assert v.IsCluster(f.chain[0]);
  }

  /** The image with an entry set appended to the directory. */
  ghost function Enter(v: Volume, s: Image, root: nat, name: seq<u16>, attrs: u16, first: u32, size: u64): Option<Image>
    requires DirOk(v, s, root) && |name| < 256
  {
    var dir := Directory(v, s.bytes, root);
    match FreeSlot(dir, 0, 3 * ENTRY)
    case None => None
    case Some(slot) =>
      SlotAhead(dir, 0);
      Some(s.(bytes := Splice(s.bytes, v.Offset(root), Appended(dir, slot, EntrySet(name, attrs, first, size)))))
  }

  lemma Aligned(v: Volume)
    ensures v.ClusterBytes() % ENTRY == 0
  {
    assert v.ClusterBytes() == v.spc * 16 * ENTRY;
  }

  /** The directory bytes before and after an entry is appended. */
  lemma EnterDirectory(v: Volume, s: Image, root: nat, name: seq<u16>, attrs: u16, first: u32, size: u64)
    returns (dir: seq<byte>)
    requires DirOk(v, s, root) && |name| < 256 && Enter(v, s, root, name, attrs, first, size).Some?
    ensures |dir| == v.ClusterBytes() && WellFormed(dir, 0)
    ensures List(dir, 0).0 == Entries(v, s, root) + [Listed(name, attrs, first, size)]
    ensures Enter(v, s, root, name, attrs, first, size).value == s.(bytes := Splice(s.bytes, v.Offset(root), dir))
  {
    hide Fits, IsChain, WellFormed, FreeSlot, Appended, EntrySet, List, Splice, Volume.Offset, Listed;
    var was := Directory(v, s.bytes, root);
    Aligned(v);
    SlotAhead(was, 0);
    var slot := FreeSlot(was, 0, 3 * ENTRY).value;
    AppendLists(was, slot, name, attrs, first, size);
    dir := Appended(was, slot, EntrySet(name, attrs, first, size));
  }

  /** Entering a name: the directory gains exactly its entry, and no file changes. */
  lemma EnterStep(v: Volume, s: Image, root: nat, name: seq<u16>, attrs: u16, first: u32, size: u64)
    requires DirOk(v, s, root) && |name| < 256 && Enter(v, s, root, name, attrs, first, size).Some?
    ensures var t := Enter(v, s, root, name, attrs, first, size).value;
            && DirOk(v, t, root) && Entries(v, t, root) == Entries(v, s, root) + [Listed(name, attrs, first, size)]
            && t.reserved == s.reserved
            && forall g :: Held(v, s, root, g) ==> Held(v, t, root, g)
  {
    hide Fits, IsChain, WellFormed, List, Splice, Volume.Offset, Enter, Listed;
    var dir := EnterDirectory(v, s, root, name, attrs, first, size);
    var t := Enter(v, s, root, name, attrs, first, size).value;
    RootInUse(v, s, root);
    OneClusterChain(v, s.bytes, root, dir);
    forall g | Held(v, s, root, g) ensures Held(v, t, root, g) {
      HeldStays(v, s, t, root, dir, g);
    }
  }

  lemma HeldStays(v: Volume, s: Image, t: Image, root: nat, dir: seq<byte>, g: File)
    requires Held(v, s, root, g) && v.IsCluster(root) && |dir| == v.ClusterBytes()
    requires v.Offset(root) + |dir| <= |s.bytes|
    requires t.bytes == Splice(s.bytes, v.Offset(root), dir) && t.reserved == s.reserved
    ensures Held(v, t, root, g)
  {
    forall i | 0 <= i < |g.chain| ensures SameCluster(v, s.bytes, t.bytes, g.chain[i]) {
      OneClusterWrite(v, s.bytes, root, dir, g.chain[i]);
    }
    SameClustersSameChain(v, s.bytes, t.bytes, g.chain);
  }

  /** One `write_file` followed by one `append_entries`. */
  ghost function Publish(v: Volume, s: Image, root: nat, x: Item): Option<(Image, File)>
    requires DirOk(v, s, root) && |x.name| < 256 && |x.data| < TWO64
  {
    match Put(v, s, x.data)
    case None => None
    case Some(p) =>
      PutKeeps(v, s, root, x.data);
      FirstCluster(v, p.0.bytes, p.1);
      match Enter(v, p.0, root, x.name, x.attrs, p.1.chain[0], |x.data|)
      case None => None
      case Some(t) => Some((t, p.1))
  }

  /** Storing a file: the directory and the files already there are as before. */
  lemma PutKeeps(v: Volume, s: Image, root: nat, data: seq<byte>)
    requires DirOk(v, s, root) && Put(v, s, data).Some?
    ensures var (t, f) := Put(v, s, data).value;
            && DirOk(v, t, root) && Entries(v, t, root) == Entries(v, s, root)
            && f.data == data && Held(v, t, root, f)
            && forall g :: Held(v, s, root, g) ==> Held(v, t, root, g)
  {
    PutStep(v, s, data);
    var (t, f) := Put(v, s, data).value;
    hide Put;
    RootInUse(v, s, root);
    SameClustersSameChain(v, s.bytes, t.bytes, [root]);
    hide Fits, IsChain, WellFormed, List, Volume.Offset;
    forall g | Held(v, s, root, g) ensures Held(v, t, root, g) {
      HeldInUse(v, s, root, g);
      SameClustersSameChain(v, s.bytes, t.bytes, g.chain);
    }
  }

  lemma RootInUse(v: Volume, s: Image, root: nat)
    requires DirOk(v, s, root)
    ensures InUse(v, s, root)
  {
    assert [root][0] == root;
  }

  lemma HeldInUse(v: Volume, s: Image, root: nat, g: File)
    requires Held(v, s, root, g)
    ensures forall i :: 0 <= i < |g.chain| ==> InUse(v, s, g.chain[i])
  {
  }

  lemma PublishStep(v: Volume, s: Image, root: nat, x: Item)
    requires DirOk(v, s, root) && |x.name| < 256 && |x.data| < TWO64 && Publish(v, s, root, x).Some?
    ensures var (t, f) := Publish(v, s, root, x).value;
            && DirOk(v, t, root) && f.data == x.data && Held(v, t, root, f)
            && f.chain != [] && f.chain[0] < TWO32
            && Entries(v, t, root) == Entries(v, s, root) + [EntryOf(x, f)]
            && forall g :: Held(v, s, root, g) ==> Held(v, t, root, g)
  {
    assert Fits(v, s.bytes);
    hide DirOk, Put, Enter, Entries, OnImage;
    PutKeeps(v, s, root, x.data);
    var (m, f) := Put(v, s, x.data).value;
    FirstCluster(v, m.bytes, f);
    EnterStep(v, m, root, x.name, x.attrs, f.chain[0], |x.data|);
  }

  /** What the builder can store at all: short enough fields. */
  ghost predicate Fitting(xs: seq<Item>)
  {
    forall i :: 0 <= i < |xs| ==> |xs[i].name| < 256 && |xs[i].data| < TWO64
  }

  ghost function PublishAll(v: Volume, s: Image, root: nat, xs: seq<Item>): Option<(Image, seq<File>)>
    requires DirOk(v, s, root) && Fitting(xs)
    decreases |xs|
  {
    if xs == [] then Some((s, []))
    else
      match Publish(v, s, root, xs[0])
      case None => None
      case Some(p) =>
        PublishStep(v, s, root, xs[0]);
        match PublishAll(v, p.0, root, xs[1..])
        case None => None
        case Some(rest) => Some((rest.0, [p.1] + rest.1))
  }

  /** File `i` of a run is stored and entered. */
  ghost predicate Published(v: Volume, t: Image, root: nat, x: Item, f: File, e: Entry)
  {
    && Held(v, t, root, f) && f.data == x.data && |x.data| < TWO64
    && f.chain != [] && f.chain[0] < TWO32 && e == EntryOf(x, f)
  }

  /** Over every run: the directory lists the old entries, then one entry per file, in order. */
  lemma {:induction false} PublishRun(v: Volume, s: Image, root: nat, xs: seq<Item>)
    requires DirOk(v, s, root) && Fitting(xs) && PublishAll(v, s, root, xs).Some?
    ensures var (t, fs) := PublishAll(v, s, root, xs).value;
            && DirOk(v, t, root) && |fs| == |xs|
            && |Entries(v, t, root)| == |Entries(v, s, root)| + |xs|
            && Entries(v, s, root) <= Entries(v, t, root)
            && (forall i :: 0 <= i < |xs| ==>
                  Published(v, t, root, xs[i], fs[i], Entries(v, t, root)[|Entries(v, s, root)| + i]))
            && (forall g :: Held(v, s, root, g) ==> Held(v, t, root, g))
    decreases |xs|
  {
    hide DirOk, Publish, Entries, EntryOf, Held;
    if xs == [] {
    } else {
      PublishStep(v, s, root, xs[0]);
      var (m, f) := Publish(v, s, root, xs[0]).value;
      PublishRun(v, m, root, xs[1..]);
      var (t, fs) := PublishAll(v, m, root, xs[1..]).value;
      var es := Entries(v, s, root);
      forall i | 0 <= i < |xs|
        ensures Published(v, t, root, xs[i], ([f] + fs)[i], Entries(v, t, root)[|es| + i])
      {
        if i > 0 {
          assert Published(v, t, root, xs[1..][i - 1], fs[i - 1], Entries(v, t, root)[|es| + 1 + (i - 1)]);
        } else {
          assert Entries(v, m, root)[|es|] == EntryOf(xs[0], f);
        }
      }
    }
  }

  // ----- which published file takes the last cluster

  function Datas(xs: seq<Item>): seq<seq<byte>> { seq(|xs|, i requires 0 <= i < |xs| => xs[i].data) }

  /** Entering a name allocates nothing. */
  lemma EnterAllocatesNothing(v: Volume, s: Image, root: nat, name: seq<u16>, attrs: u16, first: u32, size: u64)
    requires DirOk(v, s, root) && |name| < 256 && Enter(v, s, root, name, attrs, first, size).Some?
    ensures FreeWithout(v, s, Enter(v, s, root, name, attrs, first, size).value, 2, [])
  {
    FitsTable(v, s.bytes);
    hide Fits, IsChain, WellFormed, List, Splice, Volume.Offset, Enter, Listed;
    var dir := EnterDirectory(v, s, root, name, attrs, first, size);
    var t := Enter(v, s, root, name, attrs, first, size).value;
    RootInUse(v, s, root);
    forall d | 2 <= d < v.count + 2
      ensures IsFree(v, t.bytes, t.reserved, d) <==> IsFree(v, s.bytes, s.reserved, d) && d !in []
    {
      if d != root {
        OneClusterWrite(v, s.bytes, root, dir, d);
      }
    }
  }

  lemma PublishSpace(v: Volume, s: Image, root: nat, x: Item)
    requires DirOk(v, s, root) && |x.name| < 256 && |x.data| < TWO64 && Publish(v, s, root, x).Some?
    ensures var (t, f) := Publish(v, s, root, x).value;
            && v.FatByte(v.count + 2) <= |s.bytes| == |t.bytes| && v.spc > 0
            && FreeCount(v, t.bytes, t.reserved, 2) + Needed(v, |x.data|) == FreeCount(v, s.bytes, s.reserved, 2)
            && (v.count + 1 in f.chain
                <==> IsFree(v, s.bytes, s.reserved, v.count + 1)
                     && FreeCount(v, s.bytes, s.reserved, 2) == Needed(v, |x.data|))
            && (IsFree(v, t.bytes, t.reserved, v.count + 1)
                <==> IsFree(v, s.bytes, s.reserved, v.count + 1) && v.count + 1 !in f.chain)
  {
    assert Fits(v, s.bytes);
    hide DirOk, Put, Enter, Entries, EntryOf, OnImage, Fits, IsFree, FreeCount, Needed;
    PutSpace(v, s, x.data);
    PutKeeps(v, s, root, x.data);
    var (m, f) := Put(v, s, x.data).value;
    FirstCluster(v, m.bytes, f);
    EnterAllocatesNothing(v, m, root, x.name, x.attrs, f.chain[0], |x.data|);
    SameFreeCount(v, m, Enter(v, m, root, x.name, x.attrs, f.chain[0], |x.data|).value, 2, []);
  }

  lemma FirstPublish(v: Volume, s: Image, root: nat, xs: seq<Item>)
    requires DirOk(v, s, root) && Fitting(xs) && PublishAll(v, s, root, xs).Some? && xs != []
    ensures Publish(v, s, root, xs[0]).Some? && Fitting(xs[1..]) && DirOk(v, Publish(v, s, root, xs[0]).value.0, root)
    ensures var (m, f) := Publish(v, s, root, xs[0]).value;
            && PublishAll(v, m, root, xs[1..]).Some?
            && PublishAll(v, s, root, xs).value.1 == [f] + PublishAll(v, m, root, xs[1..]).value.1
  {
    hide DirOk, Publish, Entries, EntryOf, Held;
    PublishStep(v, s, root, xs[0]);
  }

  lemma {:induction false} PublishedTakesLastIff(v: Volume, s: Image, root: nat, xs: seq<Item>, i: nat)
    requires DirOk(v, s, root) && Fitting(xs) && PublishAll(v, s, root, xs).Some? && i < |xs|
    ensures v.FatByte(v.count + 2) <= |s.bytes| && v.spc > 0
    ensures var fs := PublishAll(v, s, root, xs).value.1;
            i < |fs| && (v.count + 1 in fs[i].chain <==> TakesLast(v, s, Datas(xs), i))
    decreases |xs|
  {
    hide DirOk, Publish, PublishAll, Fits, IsFree, FreeCount, Needed, Clusters, FindFree;
    FirstPublish(v, s, root, xs);
    PublishSpace(v, s, root, xs[0]);
    ClustersUpTo(v, Datas(xs), i);
    assert Datas(xs)[1..] == Datas(xs[1..]);
    if i == 0 {
    } else {
      PublishedTakesLastIff(v, Publish(v, s, root, xs[0]).value.0, root, xs[1..], i - 1);
    }
  }

  /** What the kernel sees of a directory: nothing in the cluster it rejects. */
  ghost function Seen(v: Volume, s: Image, root: nat): seq<Entry>
    requires DirOk(v, s, root)
  {
    if root <= v.count then Entries(v, s, root) else []
  }

  /** A one-cluster directory lists as that cluster. */
  lemma ListOneCluster(v: Volume, s: Image, root: nat)
    requires DirOk(v, s, root)
    ensures ListChain(v, s.bytes, [root], 0) == Seen(v, s, root)
  {
    hide List;
    assert [root][0] == root;
    ReadIsUnit(v, s.bytes, root);
    var l := List(Directory(v, s.bytes, root), 0).0;
    assert l + [] == l;
    assert ListChain(v, s.bytes, [root], 1) == [];
  }

  /** A name the directory keeps whole: at most 15 ASCII characters, no NUL. */
  predicate Plain(name: seq<u16>)
  {
    |name| <= 15 && forall k :: 0 <= k < |name| ==> 0 < name[k] < 128
  }

  lemma {:induction false} FindFirst(entries: seq<Entry>, i: nat, name: seq<byte>)
    requires i < |entries| && SameName(entries[i].name, name)
    requires forall j :: 0 <= j < i ==> !SameName(entries[j].name, name)
    ensures FindName(entries, name) == Some(entries[i])
  {
    hide SameName;
    if i == 0 {
    } else {
      assert forall j :: 0 <= j < i - 1 ==> entries[1..][j] == entries[j + 1];
      FindFirst(entries[1..], i - 1, name);
    }
  }

  /** No two of the names clash, with each other or with a name already in the directory. */
  ghost predicate NamesApart(es: seq<Entry>, xs: seq<Item>)
  {
    && (forall i :: 0 <= i < |xs| ==> Plain(xs[i].name))
    && (forall i, j :: 0 <= i < |es| && 0 <= j < |xs| ==> !SameName(es[i].name, xs[j].name))
    && (forall i, j :: 0 <= i < j < |xs| ==> !SameName(xs[i].name, xs[j].name))
  }

  lemma ListedName(v: Volume, t: Image, root: nat, x: Item, f: File, e: Entry)
    requires Published(v, t, root, x, f, e) && Plain(x.name)
    ensures e == Entry(x.name, x.attrs % 0x100, f.chain[0], |x.data|)
  {
    NameComesBackIff(x.name);
  }

  lemma EarlierNames(v: Volume, t: Image, root: nat, es: seq<Entry>, xs: seq<Item>, fs: seq<File>, all: seq<Entry>,
                     i: nat, query: seq<byte>)
    requires NamesApart(es, xs) && i < |xs| == |fs| && |all| == |es| + |xs| && es <= all
    requires forall k :: 0 <= k < |xs| ==> Published(v, t, root, xs[k], fs[k], all[|es| + k])
    requires SameName(xs[i].name, query)
    ensures forall j :: 0 <= j < |es| + i ==> !SameName(all[j].name, query)
  {
    hide Published, CString, UpperAll;
    forall j | 0 <= j < |es| + i ensures !SameName(all[j].name, query) {
      if j < |es| {
        assert all[j] == es[j];
      } else {
        assert all[|es| + (j - |es|)] == all[j];
        ListedName(v, t, root, xs[j - |es|], fs[j - |es|], all[j]);
      }
    }
  }

  /**
   End to end: after any run, looking up the name of any published file in any
   letter case finds its entry, and reading that entry gives its bytes unless
   it is the nonempty file that takes the last free cluster, `count + 1`.
   */
  lemma PublishedFilesRead(v: Volume, s: Image, root: nat, xs: seq<Item>, i: nat, query: seq<byte>)
    requires DirOk(v, s, root) && root <= v.count && Fitting(xs) && PublishAll(v, s, root, xs).Some? && i < |xs|
    requires NamesApart(Entries(v, s, root), xs) && |Entries(v, s, root)| + |xs| <= LOOKUP_MAX
    requires SameName(xs[i].name, query)
    ensures v.FatByte(v.count + 2) <= |s.bytes| && v.spc > 0
    ensures var (t, fs) := PublishAll(v, s, root, xs).value;
            && i < |fs| && OnImage(v, t.bytes, fs[i]) && fs[i].chain != []
            && FindName(Take(ListChain(v, t.bytes, [root], 0), LOOKUP_MAX), query) ==
               Some(Entry(xs[i].name, xs[i].attrs % 0x100, fs[i].chain[0], |xs[i].data|))
            && Collect(v, t.bytes, fs[i].chain[0], |xs[i].data|) ==
               if xs[i].data != [] && TakesLast(v, s, Datas(xs), i) then None else Some(xs[i].data)
  {
    hide TakesLast, DirOk, PublishAll, Entries, EntryOf, Collect, OnImage, NamesApart, SameName, ListChain, FindName;
    PublishRun(v, s, root, xs);
    PublishedTakesLastIff(v, s, root, xs, i);
    var (t, fs) := PublishAll(v, s, root, xs).value;
    var es, all := Entries(v, s, root), Entries(v, t, root);
    ListOneCluster(v, t, root);
    PlainAt(es, xs, i);
    assert Published(v, t, root, xs[i], fs[i], all[|es| + i]);
    ListedName(v, t, root, xs[i], fs[i], all[|es| + i]);
    EarlierNames(v, t, root, es, xs, fs, all, i, query);
    FindFirst(all, |es| + i, query);
    KernelReadsFile(v, t.bytes, fs[i]);
    RejectedCluster(v, t.bytes, fs[i]);
  }

  lemma PlainAt(es: seq<Entry>, xs: seq<Item>, i: nat)
    requires NamesApart(es, xs) && i < |xs|
    ensures Plain(xs[i].name)
  {
  }
}
