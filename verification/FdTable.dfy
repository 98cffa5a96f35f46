/**
 The file-descriptor table of `syscall.c`: open loads a whole file into a heap
 buffer, reads and writes work on the buffer, close writes it back.
 */
module FdTable {
  import opened Words
  import opened Bytes

  const FD_MAX: nat := 16
  const PATH_CAP: nat := 160

  datatype FsKind = FatFs | Exfat | Ext

  /** A slot of the table; `data` is the buffer's address, 0 for none. */
  datatype Fd = Fd(used: bool, data: nat, size: nat, off: nat, path: seq<byte>, pseudo: bool, dirty: bool)
  {
    predicate Regular() { used && !pseudo }
  }

  /**
   The root volume: which file a name resolves to, and each file's bytes. A
   file here is one that reads and overwrites as a whole.
   */
  datatype Vol = Vol(kind: FsKind, lookup: map<seq<byte>, nat>, content: map<nat, seq<byte>>)

  /** The table, the live buffers it has allocated, the volume, and the full path each slot was opened with. */
  datatype State = State(fds: seq<Fd>, heap: map<nat, seq<byte>>, vol: Vol, origin: map<nat, seq<byte>>)

  // ----- names

  const SLASH: byte := 0x2F

  function Cap(s: seq<byte>, n: nat): seq<byte> { if |s| <= n then s else s[..n] }

  predicate Rooted(path: seq<byte>) { path != [] && path[0] == SLASH }

  /** `fs_path_to_fat_name` into a 160-byte buffer. */
  function FatName(path: seq<byte>): seq<byte>
  {
    UpperAll(Cap(if Rooted(path) then path[1..] else path, PATH_CAP - 1))
  }

  /** The absolute name built for ext, in a 160-byte buffer. */
  function ExtName(path: seq<byte>): seq<byte>
  {
    if Rooted(path) then Cap(path, PATH_CAP - 1) else [SLASH] + Cap(path, PATH_CAP - 2)
  }

  function FsName(kind: FsKind, path: seq<byte>): seq<byte> { if kind.Ext? then ExtName(path) else FatName(path) }

  predicate HasPrefix(path: seq<byte>, prefix: seq<byte>)
  {
    prefix <= path && (|path| == |prefix| || path[|prefix|] == SLASH)
  }

  /** `vfs_is_pseudo_path`: /proc, /sys, /dev, /etc and everything below them. */
  predicate IsPseudo(path: seq<byte>)
  {
    || HasPrefix(path, [0x2F, 0x70, 0x72, 0x6F, 0x63])
    || HasPrefix(path, [0x2F, 0x73, 0x79, 0x73])
    || HasPrefix(path, [0x2F, 0x64, 0x65, 0x76])
    || HasPrefix(path, [0x2F, 0x65, 0x74, 0x63])
  }

  /** The path kept in the slot. */
  function Stored(path: seq<byte>): seq<byte> { Cap(path, PATH_CAP - 1) }

  /**
   The name a close writes to is the name the open read from, except for a
   rooted exFAT or FAT path of 160 characters or more, where it is shorter.
   */
  lemma NamesAgreeIff(kind: FsKind, path: seq<byte>)
    ensures FsName(kind, Stored(path)) == FsName(kind, path) <==> !(!kind.Ext? && Rooted(path) && |path| >= PATH_CAP)
  {
    if !kind.Ext? && Rooted(path) && |path| >= PATH_CAP {
      assert |FatName(Stored(path))| == PATH_CAP - 2 && |FatName(path)| == PATH_CAP - 1;
    } else if kind.Ext? || !Rooted(path) {
      assert Cap(Stored(path), PATH_CAP - 1) == Cap(path, PATH_CAP - 1);
      assert Cap(Stored(path), PATH_CAP - 2) == Cap(path, PATH_CAP - 2);
    } else {
      assert Stored(path) == path;
    }
  }

  // ----- the operations

  /** `alloc_fd`: the lowest free slot. */
  function FreeFd(fds: seq<Fd>, i: nat): (r: Option<nat>)
    requires i <= |fds|
    ensures r.Some? ==> i <= r.value < |fds| && !fds[r.value].used && forall j :: i <= j < r.value ==> fds[j].used
    ensures r.None? ==> forall j :: i <= j < |fds| ==> fds[j].used
    decreases |fds| - i
  {
    if i == |fds| then None else if !fds[i].used then Some(i) else FreeFd(fds, i + 1)
  }

  /** The file `read_file_into_mem` finds for a path: absent, or too big for a 32-bit size, is an error. */
  function Loadable(vol: Vol, path: seq<byte>): Option<seq<byte>>
  {
    var name := FsName(vol.kind, path);
    if name in vol.lookup && vol.lookup[name] in vol.content && |vol.content[vol.lookup[name]]| < TWO32
    then Some(vol.content[vol.lookup[name]]) else None
  }

  /**
   SYS_OPEN: the descriptor. `addr` is what `kalloc` returned, 0 on failure. `None` here and
   below is the -1 return.
   */
  function Open(s: State, path: seq<byte>, addr: nat): (State, Option<nat>)
  {
    match FreeFd(s.fds, 0)
    case None => (s, None)
    case Some(i) =>
      if IsPseudo(path) then (s.(fds := s.fds[i := Fd(true, 0, 0, 0, Stored(path), true, false)]), Some(i))
      else
        var file := Loadable(s.vol, path);
        if file.None? || addr == 0 then (s.(fds := s.fds[i := Fd(false, 0, 0, 0, Stored(path), false, false)]), None)
        else
          (State(s.fds[i := Fd(true, addr, |file.value|, 0, Stored(path), false, false)],
                 s.heap[addr := file.value], s.vol, s.origin[i := path]), Some(i))
  }

  function Take(f: Fd, want: nat): nat
  {
    if f.off >= f.size then 0 else if want < f.size - f.off then want else f.size - f.off
  }

  /** SYS_READ on a regular slot: the bytes delivered. On a pseudo file `got` is the VFS's answer. */
  function Read(s: State, fd: nat, want: nat, got: seq<byte>): (State, Option<seq<byte>>)
  {
    if fd >= |s.fds| || !s.fds[fd].used then (s, None)
    else
      var f := s.fds[fd];
      if f.pseudo then (s.(fds := s.fds[fd := f.(off := f.off + |got|)]), Some(got))
      else
        var take := Take(f, want);
        if f.data in s.heap && f.off + take <= |s.heap[f.data]| then
          (s.(fds := s.fds[fd := f.(off := f.off + take)]), Some(s.heap[f.data][f.off..f.off + take]))
        else (s, None)
  }

  /** SYS_WRITE: bytes accepted. Descriptors 1 and 2 are the console while their slots are free. */
  function Write(s: State, fd: nat, src: seq<byte>): (State, Option<nat>)
  {
    if fd < |s.fds| && s.fds[fd].used then
      var f := s.fds[fd];
      if f.pseudo || f.data == 0 then (s, None)
      else if f.off >= f.size then (s, Some(0))
      else
        var take := Take(f, |src|);
        if f.data in s.heap && f.off + take <= |s.heap[f.data]| then
          (s.(fds := s.fds[fd := f.(off := f.off + take, dirty := true)],
              heap := s.heap[f.data := Splice(s.heap[f.data], f.off, src[..take])]), Some(take))
        else (s, None)
    else (s, if fd == 1 || fd == 2 then Some(0) else None)
  }

  /** Overwrite the front of a file; a buffer longer than the file is refused. */
  function Flush(vol: Vol, name: seq<byte>, data: seq<byte>): Vol
  {
    if name in vol.lookup && vol.lookup[name] in vol.content && |data| <= |vol.content[vol.lookup[name]]| then
      var id := vol.lookup[name];
      vol.(content := vol.content[id := data + vol.content[id][|data|..]])
    else vol
  }

  /** The volume after a slot is closed: only ext and exFAT write back. */
  function WriteBack(vol: Vol, f: Fd, heap: map<nat, seq<byte>>): Vol
  {
    if f.dirty && f.path != [] && !vol.kind.FatFs? && f.data in heap
    then Flush(vol, FsName(vol.kind, f.path), heap[f.data])
    else vol
  }

  /** SYS_CLOSE. */
  function Close(s: State, fd: nat): (State, Option<nat>)
  {
    if fd >= |s.fds| || !s.fds[fd].used then (s, None)
    else
      var f := s.fds[fd];
      var fds := s.fds[fd := f.(used := false)];
      if f.pseudo || f.data == 0 then (s.(fds := fds), Some(0))
      else (State(fds, s.heap - {f.data}, WriteBack(s.vol, f, s.heap), s.origin), Some(0))
  }

  // ----- the invariant

  /** Every regular slot owns a buffer of the file's size and has its offset inside it. */
  ghost predicate SlotOk(s: State, i: nat)
    requires i < |s.fds|
  {
    var f := s.fds[i];
    if f.pseudo then f.data == 0
    else
      && f.data != 0 && f.data in s.heap && |s.heap[f.data]| == f.size < TWO32 && f.off <= f.size
      && i in s.origin && f.path == Stored(s.origin[i]) && !IsPseudo(s.origin[i])
      && FsName(s.vol.kind, s.origin[i]) in s.vol.lookup
      && s.vol.lookup[FsName(s.vol.kind, s.origin[i])] in s.vol.content
      && |s.vol.content[s.vol.lookup[FsName(s.vol.kind, s.origin[i])]]| == f.size
  }

  /** Each live buffer belongs to exactly one slot, so every buffer is freed once and none is lost. */
  ghost predicate Inv(s: State)
  {
    && |s.fds| == FD_MAX
    && (forall i :: 0 <= i < |s.fds| && s.fds[i].used ==> SlotOk(s, i))
    && (forall i, j :: 0 <= i < j < |s.fds| && s.fds[i].Regular() && s.fds[j].Regular() ==>
          s.fds[i].data != s.fds[j].data)
    && (forall a :: a in s.heap ==> exists i :: 0 <= i < |s.fds| && s.fds[i].Regular() && s.fds[i].data == a)
  }

  // ----- runs, and what they look like from outside

  datatype Op =
    | OpenOp(path: seq<byte>, addr: nat)
    | ReadOp(fd: nat, want: nat, got: seq<byte>)
    | WriteOp(fd: nat, src: seq<byte>)
    | CloseOp(fd: nat)

  /** What `kalloc` promises: null, or a buffer that is not already live. */
  predicate Allowed(s: State, op: Op) { op.OpenOp? ==> op.addr !in s.heap }

  function Next(s: State, op: Op): State
  {
    match op
    case OpenOp(path, addr) => Open(s, path, addr).0
    case ReadOp(fd, want, got) => Read(s, fd, want, got).0
    case WriteOp(fd, src) => Write(s, fd, src).0
    case CloseOp(fd) => Close(s, fd).0
  }

  /** An open file as its user sees it. */
  datatype Stream = Stream(bytes: seq<byte>, off: nat)

  function SlotView(s: State, i: nat): Option<Stream>
    requires i < |s.fds|
  {
    var f := s.fds[i];
    if f.Regular() && f.data in s.heap then Some(Stream(s.heap[f.data], f.off)) else None
  }

  /** Descriptor by descriptor, the open regular files. */
  ghost function View(s: State): (m: seq<Option<Stream>>)
    ensures |m| == |s.fds| && forall i :: 0 <= i < |s.fds| ==> m[i] == SlotView(s, i)
  {
    seq(|s.fds|, i requires 0 <= i < |s.fds| => SlotView(s, i))
  }

  function Advance(st: Stream, want: nat): nat
  {
    if st.off >= |st.bytes| then 0 else if want < |st.bytes| - st.off then want else |st.bytes| - st.off
  }

  /** No operation adds a name, moves one to another file, or changes a file's size. */
  ghost predicate SameSizes(a: Vol, b: Vol)
  {
    && a.kind == b.kind && a.lookup == b.lookup && a.content.Keys == b.content.Keys
    && forall id :: id in a.content ==> |a.content[id]| == |b.content[id]|
  }

  /** Slot `j` and its buffer are the same in both states. */
  ghost predicate SameSlot(s: State, t: State, j: nat)
    requires j < |s.fds| && j < |t.fds|
  {
    && t.fds[j] == s.fds[j]
    && (s.fds[j].Regular() ==>
          && s.fds[j].data in s.heap && s.fds[j].data in t.heap && t.heap[s.fds[j].data] == s.heap[s.fds[j].data]
          && j in s.origin && j in t.origin && s.origin[j] == t.origin[j])
  }

  /** An operation on slot `i` alone keeps the invariant if its own slot stays right and it loses no buffer. */
  lemma OneSlot(s: State, t: State, i: nat)
    requires Inv(s) && i < FD_MAX == |t.fds| && SameSizes(s.vol, t.vol)
    requires forall j :: 0 <= j < FD_MAX && j != i ==> SameSlot(s, t, j)
    requires t.fds[i].used ==> SlotOk(t, i)
    requires t.fds[i].Regular() ==> forall j :: 0 <= j < FD_MAX && j != i && s.fds[j].Regular() ==>
               s.fds[j].data != t.fds[i].data
    requires forall a :: a in t.heap ==>
               (a in s.heap && !(s.fds[i].Regular() && s.fds[i].data == a))
                || (t.fds[i].Regular() && t.fds[i].data == a)
    ensures Inv(t)
  {
    hide FsName, Stored, IsPseudo;
    forall j | 0 <= j < |t.fds| && t.fds[j].used ensures SlotOk(t, j) {
      if j != i {
        assert SameSlot(s, t, j) && SlotOk(s, j);
      }
    }
    forall j, k | 0 <= j < k < |t.fds| && t.fds[j].Regular() && t.fds[k].Regular()
      ensures t.fds[j].data != t.fds[k].data
    {
      assert j != i ==> SameSlot(s, t, j);
      assert k != i ==> SameSlot(s, t, k);
    }
    forall a | a in t.heap ensures exists k :: 0 <= k < |t.fds| && t.fds[k].Regular() && t.fds[k].data == a {
      if !(t.fds[i].Regular() && t.fds[i].data == a) {
        var k :| 0 <= k < |s.fds| && s.fds[k].Regular() && s.fds[k].data == a;
        assert SameSlot(s, t, k);
      }
    }
  }

  /** An operation on slot `i` alone shows at descriptor `i` alone. */
  lemma ViewOneSlot(s: State, t: State, i: nat)
    requires |s.fds| == |t.fds| == FD_MAX && i < FD_MAX
    requires forall j :: 0 <= j < FD_MAX && j != i ==> SameSlot(s, t, j)
    ensures View(t) == View(s)[i := SlotView(t, i)]
  {
    var a, b := View(t), View(s)[i := SlotView(t, i)];
    forall j | 0 <= j < FD_MAX ensures a[j] == b[j] {
      if j != i {
        assert SameSlot(s, t, j);
      }
    }
  }

  lemma SlotsSelf(s: State, j: nat)
    requires Inv(s) && j < FD_MAX
    ensures SameSlot(s, s, j)
  {
    if s.fds[j].used {
      assert SlotOk(s, j);
    }
  }

  /** The slots other than `fd` when the table changes at `fd` only and no other buffer is touched. */
  lemma OtherSlots(s: State, t: State, fd: nat)
    requires Inv(s) && fd < FD_MAX && |t.fds| == FD_MAX
    requires forall j :: 0 <= j < FD_MAX && j != fd ==> t.fds[j] == s.fds[j]
    requires forall j :: j in s.origin && j != fd ==> j in t.origin && t.origin[j] == s.origin[j]
    requires forall a :: a in s.heap && !(s.fds[fd].Regular() && s.fds[fd].data == a) ==>
               a in t.heap && t.heap[a] == s.heap[a]
    ensures forall j :: 0 <= j < FD_MAX && j != fd ==> SameSlot(s, t, j)
  {
    forall j | 0 <= j < FD_MAX && j != fd ensures SameSlot(s, t, j) {
      SlotsSelf(s, j);
      assert s.fds[j].Regular() && s.fds[fd].Regular() ==> s.fds[j].data != s.fds[fd].data;
    }
  }

  lemma FreshBuffer(s: State, addr: nat)
    requires Inv(s) && addr !in s.heap
    ensures forall j :: 0 <= j < FD_MAX && s.fds[j].Regular() ==> s.fds[j].data != addr
  {
    forall j | 0 <= j < FD_MAX && s.fds[j].Regular() ensures s.fds[j].data != addr {
      SlotsSelf(s, j);
    }
  }

  /** A free slot takes a pseudo file, or stays free. */
  lemma PlaceOther(s: State, i: nat, f: Fd)
    requires Inv(s) && i < FD_MAX && !s.fds[i].used && (!f.used || (f.pseudo && f.data == 0))
    ensures var t := s.(fds := s.fds[i := f]);
            Inv(t) && |t.fds| == |s.fds| == FD_MAX && View(t) == View(s)[i := SlotView(t, i)]
  {
    FdCount(s);
    hide Inv;
    var t := s.(fds := s.fds[i := f]);
    OtherSlots(s, t, i);
    OneSlot(s, t, i);
    ViewOneSlot(s, t, i);
  }

  /** A free slot takes a file in a fresh buffer. */
  lemma PlaceFile(s: State, i: nat, path: seq<byte>, addr: nat, bytes: seq<byte>)
    requires Inv(s) && i < FD_MAX && !s.fds[i].used && addr !in s.heap && addr != 0
    requires Loadable(s.vol, path) == Some(bytes) && !IsPseudo(path)
    ensures var t := State(s.fds[i := Fd(true, addr, |bytes|, 0, Stored(path), false, false)],
                           s.heap[addr := bytes], s.vol, s.origin[i := path]);
            Inv(t) && |t.fds| == |s.fds| == FD_MAX && View(t) == View(s)[i := SlotView(t, i)]
  {
    FdCount(s);
    hide Inv, FsName, Stored, IsPseudo;
    var t := State(s.fds[i := Fd(true, addr, |bytes|, 0, Stored(path), false, false)],
                   s.heap[addr := bytes], s.vol, s.origin[i := path]);
    OtherSlots(s, t, i);
    FreshBuffer(s, addr);
    OneSlot(s, t, i);
    ViewOneSlot(s, t, i);
  }

  lemma OpenStep(s: State, path: seq<byte>, addr: nat)
    requires Inv(s) && addr !in s.heap
    ensures Inv(Open(s, path, addr).0) && |s.fds| == FD_MAX
    ensures var t, slot := Open(s, path, addr).0, FreeFd(s.fds, 0);
            if slot.Some? then |t.fds| == FD_MAX && View(t) == View(s)[slot.value := SlotView(t, slot.value)]
            else t == s
  {
    FdCount(s);
    hide Stored, IsPseudo, Inv, FreeFd, Loadable, SlotView;
    var slot, file := FreeFd(s.fds, 0), Loadable(s.vol, path);
    if slot.Some? {
      if IsPseudo(path) {
        PlaceOther(s, slot.value, Fd(true, 0, 0, 0, Stored(path), true, false));
      } else if file.None? || addr == 0 {
        PlaceOther(s, slot.value, Fd(false, 0, 0, 0, Stored(path), false, false));
      } else {
        PlaceFile(s, slot.value, path, addr, file.value);
      }
    }
  }

  lemma FdCount(s: State)
    requires Inv(s)
    ensures |s.fds| == FD_MAX
  {
  }

  lemma ReadStep(s: State, fd: nat, want: nat, got: seq<byte>)
    requires Inv(s)
    ensures Inv(Read(s, fd, want, got).0)
    ensures var t := Read(s, fd, want, got).0;
            |s.fds| == |t.fds| == FD_MAX && if fd < FD_MAX then View(t) == View(s)[fd := SlotView(t, fd)] else t == s
  {
    var t := Read(s, fd, want, got).0;
    hide FsName, Stored, IsPseudo;
    if fd < FD_MAX && s.fds[fd].used {
      assert SlotOk(s, fd);
      OtherSlots(s, t, fd);
      NoLoss(s, fd);
      hide Inv;
      OneSlot(s, t, fd);
      ViewOneSlot(s, t, fd);
    } else if fd < FD_MAX {
      assert View(s)[fd] == SlotView(s, fd);
    }
  }

  lemma NoLoss(s: State, fd: nat)
    requires Inv(s) && fd < FD_MAX
    ensures s.fds[fd].Regular() ==> forall j :: 0 <= j < FD_MAX && j != fd && s.fds[j].Regular() ==>
              s.fds[j].data != s.fds[fd].data
  {
  }

  lemma WriteStep(s: State, fd: nat, src: seq<byte>)
    requires Inv(s)
    ensures Inv(Write(s, fd, src).0)
    ensures var t := Write(s, fd, src).0;
            |s.fds| == |t.fds| == FD_MAX && if fd < FD_MAX then View(t) == View(s)[fd := SlotView(t, fd)] else t == s
  {
    var t := Write(s, fd, src).0;
    hide FsName, Stored, Splice, IsPseudo;
    if fd < FD_MAX && s.fds[fd].used {
      assert SlotOk(s, fd);
      OtherSlots(s, t, fd);
      NoLoss(s, fd);
      hide Inv;
      OneSlot(s, t, fd);
      ViewOneSlot(s, t, fd);
    } else if fd < FD_MAX {
      assert View(s)[fd] == SlotView(s, fd);
    }
  }

  lemma FlushSizes(vol: Vol, name: seq<byte>, data: seq<byte>)
    ensures SameSizes(vol, Flush(vol, name, data))
  {
  }

  lemma CloseStep(s: State, fd: nat)
    requires Inv(s)
    ensures Inv(Close(s, fd).0) && SameSizes(s.vol, Close(s, fd).0.vol)
    ensures var t := Close(s, fd).0;
            |s.fds| == |t.fds| == FD_MAX && if fd < FD_MAX then View(t) == View(s)[fd := SlotView(t, fd)] else t == s
  {
    var t := Close(s, fd).0;
    if fd < FD_MAX && s.fds[fd].used {
      assert SlotOk(s, fd);
      if s.fds[fd].data in s.heap {
        FlushSizes(s.vol, FsName(s.vol.kind, s.fds[fd].path), s.heap[s.fds[fd].data]);
      }
      hide FsName, Stored, Flush, IsPseudo;
      OtherSlots(s, t, fd);
      hide Inv;
      OneSlot(s, t, fd);
      ViewOneSlot(s, t, fd);
    } else if fd < FD_MAX {
      assert View(s)[fd] == SlotView(s, fd);
    }
  }

  /** Every operation keeps the invariant, the names and the file sizes. */
  lemma StepKeepsInv(s: State, op: Op)
    requires Inv(s) && Allowed(s, op)
    ensures Inv(Next(s, op)) && SameSizes(s.vol, Next(s, op).vol)
  {
    hide Inv, Open, Read, Write, Close;
    match op {
      case OpenOp(path, addr) => OpenStep(s, path, addr); OpenVol(s, path, addr);
      case ReadOp(fd, want, got) => ReadStep(s, fd, want, got); ReadVol(s, fd, want, got);
      case WriteOp(fd, src) => WriteStep(s, fd, src); WriteVol(s, fd, src);
      case CloseOp(fd) => CloseStep(s, fd);
    }
  }

  lemma OpenVol(s: State, path: seq<byte>, addr: nat)
    ensures Open(s, path, addr).0.vol == s.vol
  {
  }

  lemma ReadVol(s: State, fd: nat, want: nat, got: seq<byte>)
    ensures Read(s, fd, want, got).0.vol == s.vol
  {
  }

  lemma WriteVol(s: State, fd: nat, src: seq<byte>)
    ensures Write(s, fd, src).0.vol == s.vol
  {
  }

  // ----- refinement: independent byte streams

  /** What the view says of one slot. */
  lemma ViewAt(s: State, i: nat)
    requires Inv(s) && i < FD_MAX
    ensures |s.fds| == FD_MAX && (SlotView(s, i).Some? <==> s.fds[i].Regular())
    ensures s.fds[i].Regular() ==>
              && s.fds[i].data != 0 && s.fds[i].data in s.heap
              && s.fds[i].off <= s.fds[i].size == |s.heap[s.fds[i].data]|
  {
    if s.fds[i].Regular() {
      assert SlotOk(s, i);
    }
  }

  /** An open adds one stream, the file's bytes from the start, at the lowest free descriptor. */
  lemma OpenRefines(s: State, path: seq<byte>, addr: nat)
    requires Inv(s) && addr !in s.heap
    ensures var (t, r) := Open(s, path, addr);
            && Inv(t) && |View(s)| == FD_MAX
            && if r.Some? && !IsPseudo(path)
               then r.value < FD_MAX && View(s)[r.value].None? && Loadable(s.vol, path).Some?
                    && View(t) == View(s)[r.value := Some(Stream(Loadable(s.vol, path).value, 0))]
               else View(t) == View(s)
  {
    OpenStep(s, path, addr);
    hide FsName, Stored, IsPseudo, Loadable, Inv;
    var slot := FreeFd(s.fds, 0);
    if slot.Some? {
      assert View(s)[slot.value] == None;
      assert View(s)[slot.value := None] == View(s);
    }
  }

  /** A read delivers the stream's next bytes and moves past them. */
  lemma ReadRefines(s: State, fd: nat, want: nat, got: seq<byte>)
    requires Inv(s)
    ensures var (t, r) := Read(s, fd, want, got);
            && Inv(t) && |View(s)| == FD_MAX
            && if fd < FD_MAX && View(s)[fd].Some?
               then var st := View(s)[fd].value; var n := Advance(st, want);
                    && st.off + n <= |st.bytes| && r == Some(st.bytes[st.off..st.off + n])
                    && View(t) == View(s)[fd := Some(st.(off := st.off + n))]
               else View(t) == View(s)
  {
    hide Inv;
    ReadStep(s, fd, want, got);
    if fd < FD_MAX {
      ViewAt(s, fd);
      assert View(s)[fd := View(s)[fd]] == View(s);
    }
  }

  /** A write replaces the stream's next bytes and moves past them; it never grows the file. */
  lemma WriteRefines(s: State, fd: nat, src: seq<byte>)
    requires Inv(s)
    ensures var (t, r) := Write(s, fd, src);
            && Inv(t) && |View(s)| == FD_MAX
            && if fd < FD_MAX && View(s)[fd].Some?
               then var st := View(s)[fd].value; var n := Advance(st, |src|);
                    && st.off + n <= |st.bytes| && r == Some(n)
                    && View(t) == View(s)[fd := Some(Stream(Splice(st.bytes, st.off, src[..n]), st.off + n))]
               else View(t) == View(s)
  {
    hide Inv, Splice;
    WriteStep(s, fd, src);
    if fd < FD_MAX {
      ViewAt(s, fd);
      assert View(s)[fd := View(s)[fd]] == View(s);
      if s.fds[fd].Regular() && s.fds[fd].off == s.fds[fd].size {
        NothingWritten(View(s)[fd].value, src);
      }
    }
  }

  lemma NothingWritten(st: Stream, src: seq<byte>)
    requires st.off == |st.bytes|
    ensures Splice(st.bytes, st.off, src[..0]) == st.bytes
  {
  }

  /** A close removes the stream. */
  lemma CloseRefines(s: State, fd: nat)
    requires Inv(s)
    ensures Inv(Close(s, fd).0) && |View(s)| == FD_MAX
    ensures View(Close(s, fd).0) == if fd < FD_MAX then View(s)[fd := None] else View(s)
  {
    CloseStep(s, fd);
    if fd < FD_MAX {
      ViewAt(s, fd);
      assert View(s)[fd := View(s)[fd]] == View(s);
    }
    hide Inv, WriteBack;
  }

  // ----- whole runs

  function Execute(s: State, ops: seq<Op>): State
    decreases |ops|
  {
    if ops == [] then s else Execute(Next(s, ops[0]), ops[1..])
  }

  predicate AllowedRun(s: State, ops: seq<Op>)
    decreases |ops|
  {
    ops == [] || (Allowed(s, ops[0]) && AllowedRun(Next(s, ops[0]), ops[1..]))
  }

  lemma {:induction false} RunKeepsInv(s: State, ops: seq<Op>)
    requires Inv(s) && AllowedRun(s, ops)
    ensures Inv(Execute(s, ops)) && SameSizes(s.vol, Execute(s, ops).vol)
    decreases |ops|
  {
    hide Inv, Next;
    if ops == [] {
    } else {
      StepKeepsInv(s, ops[0]);
      RunKeepsInv(Next(s, ops[0]), ops[1..]);
    }
  }

  /** One operation as a byte stream of its own sees it. */
  function Effect(st: Stream, op: Op, fd: nat): Stream
  {
    match op
    case ReadOp(f, want, _) => if f == fd then st.(off := st.off + Advance(st, want)) else st
    case WriteOp(f, src) =>
      var n := Advance(st, |src|);
      if f == fd && st.off + n <= |st.bytes| then Stream(Splice(st.bytes, st.off, src[..n]), st.off + n) else st
    case _ => st
  }

  function Replay(st: Stream, ops: seq<Op>, fd: nat): Stream
    decreases |ops|
  {
    if ops == [] then st else Replay(Effect(st, ops[0], fd), ops[1..], fd)
  }

  lemma OneEffect(s: State, op: Op, fd: nat)
    requires Inv(s) && Allowed(s, op) && fd < FD_MAX == |s.fds| && View(s)[fd].Some? && op != CloseOp(fd)
    ensures Inv(Next(s, op)) && |Next(s, op).fds| == FD_MAX
    ensures View(Next(s, op))[fd] == Some(Effect(View(s)[fd].value, op, fd))
  {
    hide Inv, Open, Read, Write, Close, Splice, IsPseudo, Loadable;
    match op {
      case OpenOp(path, addr) => OpenRefines(s, path, addr);
      case ReadOp(f, want, got) => ReadRefines(s, f, want, got);
      case WriteOp(f, src) => WriteRefines(s, f, src);
      case CloseOp(f) => CloseRefines(s, f);
    }
    FdCount(Next(s, op));
  }

  /** Over any interleaving, an open descriptor is what its own reads and writes make of it. */
  lemma {:induction false} IndependentStreams(s: State, ops: seq<Op>, fd: nat)
    requires Inv(s) && AllowedRun(s, ops) && fd < FD_MAX == |s.fds| && View(s)[fd].Some?
    requires forall i :: 0 <= i < |ops| ==> ops[i] != CloseOp(fd)
    ensures |Execute(s, ops).fds| == FD_MAX && View(Execute(s, ops))[fd] == Some(Replay(View(s)[fd].value, ops, fd))
    decreases |ops|
  {
    hide Inv, Next, Effect;
    if ops == [] {
    } else {
      OneEffect(s, ops[0], fd);
      IndependentStreams(Next(s, ops[0]), ops[1..], fd);
    }
  }

  /** Close frees a live buffer and only that one; with every regular file closed no buffer is left. */
  lemma FreedOnce(s: State, fd: nat)
    requires Inv(s) && fd < FD_MAX && s.fds[fd].Regular()
    ensures s.fds[fd].data in s.heap && Close(s, fd).0.heap == s.heap - {s.fds[fd].data}
    ensures forall j :: 0 <= j < FD_MAX && j != fd && s.fds[j].Regular() ==> s.fds[j].data in Close(s, fd).0.heap
  {
    ViewAt(s, fd);
    forall j | 0 <= j < FD_MAX && j != fd && s.fds[j].Regular() ensures s.fds[j].data in Close(s, fd).0.heap {
      ViewAt(s, j);
    }
  }

  lemma NoLeak(s: State)
    requires Inv(s) && forall i :: 0 <= i < |s.fds| ==> !s.fds[i].Regular()
    ensures s.heap == map[]
  {
    assert s.heap.Keys == {};
  }

  /** The table at boot: every slot free. */
  function Boot(vol: Vol): State
  {
    State(seq(FD_MAX, _ => Fd(false, 0, 0, 0, [], false, false)), map[], vol, map[])
  }

  /** Every reachable state of the table. */
  lemma ReachableInv(vol: Vol, ops: seq<Op>)
    requires AllowedRun(Boot(vol), ops)
    ensures Inv(Execute(Boot(vol), ops)) && SameSizes(vol, Execute(Boot(vol), ops).vol)
  {
    RunKeepsInv(Boot(vol), ops);
  }

  // ----- closing and opening again

  /** Closing `fd` writes its buffer back. */
  predicate WritesBack(s: State, fd: nat)
  {
    && fd < |s.fds| && s.fds[fd].Regular() && s.fds[fd].dirty && s.fds[fd].path != []
    && s.fds[fd].data != 0 && s.fds[fd].data in s.heap
  }

  lemma CloseVol(s: State, fd: nat)
    requires !s.vol.kind.FatFs?
    ensures Close(s, fd).0.vol ==
            if WritesBack(s, fd) then Flush(s.vol, FsName(s.vol.kind, s.fds[fd].path), s.heap[s.fds[fd].data])
            else s.vol
  {
    hide FsName, Flush;
  }

  lemma CloseFirst(s: State, fd: nat, ops: seq<Op>)
    ensures Execute(s, [CloseOp(fd)] + ops) == Execute(Close(s, fd).0, ops)
  {
    hide Close;
    assert ([CloseOp(fd)] + ops)[1..] == ops;
  }

  /** The file an operation writes back to, if any. */
  function Target(s: State, op: Op): Option<nat>
  {
    if op.CloseOp? && op.fd < |s.fds| && s.fds[op.fd].Regular() && s.fds[op.fd].dirty
       && FsName(s.vol.kind, s.fds[op.fd].path) in s.vol.lookup
    then Some(s.vol.lookup[FsName(s.vol.kind, s.fds[op.fd].path)]) else None
  }

  /** No operation of the run writes back to file `id`. */
  predicate Leaves(s: State, ops: seq<Op>, id: nat)
    decreases |ops|
  {
    ops == [] || (Target(s, ops[0]) != Some(id) && Leaves(Next(s, ops[0]), ops[1..], id))
  }

  lemma ContentStays(s: State, op: Op, id: nat)
    requires Target(s, op) != Some(id) && id in s.vol.content
    ensures id in Next(s, op).vol.content && Next(s, op).vol.content[id] == s.vol.content[id]
  {
    hide FsName, Loadable, IsPseudo;
  }

  lemma {:induction false} ContentStaysRun(s: State, ops: seq<Op>, id: nat)
    requires Leaves(s, ops, id) && id in s.vol.content
    ensures id in Execute(s, ops).vol.content && Execute(s, ops).vol.content[id] == s.vol.content[id]
    decreases |ops|
  {
    hide Next, Target;
    if ops == [] {
    } else {
      ContentStays(s, ops[0], id);
      ContentStaysRun(Next(s, ops[0]), ops[1..], id);
    }
  }

  /** The file a slot was opened from. */
  function FileOf(s: State, fd: nat): Option<nat>
  {
    if fd in s.origin && FsName(s.vol.kind, s.origin[fd]) in s.vol.lookup
    then Some(s.vol.lookup[FsName(s.vol.kind, s.origin[fd])]) else None
  }

  /** Close and open use the same name: not for rooted exFAT paths of 160 characters or more. */
  predicate SameNames(kind: FsKind, path: seq<byte>) { kind.Ext? || !Rooted(path) || |path| < PATH_CAP }

  /** The name the close builds from the stored path resolves to the file the slot was opened from. */
  predicate FindsFile(s: State, fd: nat)
    requires fd < |s.fds|
  {
    !s.vol.kind.FatFs? && s.fds[fd].path != [] && FileOf(s, fd).Some?
    && FsName(s.vol.kind, s.fds[fd].path) in s.vol.lookup
    && s.vol.lookup[FsName(s.vol.kind, s.fds[fd].path)] == FileOf(s, fd).value
  }

  /**
   After a close the opened file holds the stream's bytes exactly when the stored name finds
   it, or they were there already.
   */
  lemma CloseStoresIff(s: State, fd: nat)
    requires Inv(s) && fd < FD_MAX && s.fds[fd].Regular() && s.fds[fd].dirty
    ensures FileOf(s, fd).Some? && SlotView(s, fd).Some?
    ensures var vol, id, bytes := Close(s, fd).0.vol, FileOf(s, fd).value, SlotView(s, fd).value.bytes;
            && id in s.vol.content && id in vol.content
            && (vol.content[id] == bytes <==> FindsFile(s, fd) || s.vol.content[id] == bytes)
  {
    assert SlotOk(s, fd);
    hide FsName, IsPseudo, Stored, Inv;
    var id, data := FileOf(s, fd).value, s.heap[s.fds[fd].data];
    assert data + s.vol.content[id][|data|..] == data;
  }

  /** Paths for which the stored name is always the opened one; for the others it is one character shorter. */
  lemma StoredNameFinds(s: State, fd: nat)
    requires Inv(s) && fd < FD_MAX && s.fds[fd].Regular() && !s.vol.kind.FatFs? && fd in s.origin && s.origin[fd] != []
    ensures SameNames(s.vol.kind, s.origin[fd]) ==> FindsFile(s, fd)
    ensures !SameNames(s.vol.kind, s.origin[fd]) ==>
              FsName(s.vol.kind, s.fds[fd].path) == FsName(s.vol.kind, s.origin[fd])[..PATH_CAP - 2]
  {
    assert SlotOk(s, fd);
    var path := s.origin[fd];
    NamesAgreeIff(s.vol.kind, path);
    assert |Stored(path)| > 0;
    hide FatName, ExtName, Stored, IsPseudo, Inv;
    if !SameNames(s.vol.kind, path) {
      ShorterName(path);
    }
  }

  lemma ShorterName(path: seq<byte>)
    requires Rooted(path) && |path| >= PATH_CAP
    ensures |FatName(path)| == PATH_CAP - 1 && FatName(Stored(path)) == FatName(path)[..PATH_CAP - 2]
  {
    assert Stored(path)[1..] == path[1..][..PATH_CAP - 2];
  }

  /** Closing a written file stores exactly the stream's bytes. */
  lemma CloseStores(s: State, fd: nat)
    requires Inv(s) && fd < FD_MAX && s.fds[fd].Regular() && s.fds[fd].dirty
    requires !s.vol.kind.FatFs? && fd in s.origin && s.origin[fd] != [] && SameNames(s.vol.kind, s.origin[fd])
    ensures FileOf(s, fd).Some? && SlotView(s, fd).Some?
    ensures var vol := Close(s, fd).0.vol;
            FileOf(s, fd).value in vol.content && vol.content[FileOf(s, fd).value] == SlotView(s, fd).value.bytes
  {
    hide Inv, FindsFile, Close;
    CloseStoresIff(s, fd);
    StoredNameFinds(s, fd);
  }

  /** After a close and any run that does not write the file back again, what an open of the same path would load. */
  lemma ClosedLoads(s: State, fd: nat, ops: seq<Op>)
    requires Inv(s) && fd < FD_MAX && s.fds[fd].Regular() && s.fds[fd].dirty && fd in s.origin
    requires FileOf(s, fd).Some? && AllowedRun(Close(s, fd).0, ops) && Leaves(Close(s, fd).0, ops, FileOf(s, fd).value)
    ensures SlotView(s, fd).Some? && FileOf(s, fd).value in s.vol.content
    ensures var vol, bytes := Execute(Close(s, fd).0, ops).vol, SlotView(s, fd).value.bytes;
            && Loadable(vol, s.origin[fd]).Some?
            && (Loadable(vol, s.origin[fd]).value == bytes
                <==> FindsFile(s, fd) || s.vol.content[FileOf(s, fd).value] == bytes)
  {
    CloseStoresIff(s, fd);
    CloseStep(s, fd);
    ViewAt(s, fd);
    assert SlotOk(s, fd);
    hide Inv, FsName, Stored, Execute, AllowedRun, Leaves, Close, SlotOk, FindsFile;
    var s1 := Close(s, fd).0;
    ContentStaysRun(s1, ops, FileOf(s, fd).value);
    RunKeepsInv(s1, ops);
  }

  /** A successful open of a regular path starts a stream of what it loads. */
  lemma OpenLoads(s: State, path: seq<byte>, addr: nat)
    requires FreeFd(s.fds, 0).Some? && addr != 0 && Loadable(s.vol, path).Some? && !IsPseudo(path)
    ensures var (t, r) := Open(s, path, addr);
            r.Some? && r.value < |t.fds| && SlotView(t, r.value) == Some(Stream(Loadable(s.vol, path).value, 0))
  {
    hide Loadable, IsPseudo, Stored;
  }

  /**
   Persistence: close a written file, let anything happen that does not write
   the file back again, open the same path: the stream is what was closed
   exactly when the stored name finds the file, or the file held those bytes already.
   */
  lemma CloseThenReopen(s: State, fd: nat, ops: seq<Op>, addr: nat)
    requires Inv(s) && fd < FD_MAX && s.fds[fd].Regular() && s.fds[fd].dirty && fd in s.origin
    requires FileOf(s, fd).Some? && AllowedRun(Close(s, fd).0, ops) && Leaves(Close(s, fd).0, ops, FileOf(s, fd).value)
    requires var s2 := Execute(Close(s, fd).0, ops); FreeFd(s2.fds, 0).Some? && addr != 0
    ensures SlotView(s, fd).Some? && FileOf(s, fd).value in s.vol.content
    ensures var s2, bytes := Execute(Close(s, fd).0, ops), SlotView(s, fd).value.bytes;
            var (t, r) := Open(s2, s.origin[fd], addr);
            && r.Some? && r.value < |t.fds| && SlotView(t, r.value).Some?
            && (SlotView(t, r.value).value == Stream(bytes, 0)
                <==> FindsFile(s, fd) || s.vol.content[FileOf(s, fd).value] == bytes)
  {
    assert SlotOk(s, fd);
    hide Inv, FsName, Stored, Execute, AllowedRun, Leaves, Close, SlotOk, FindsFile, Loadable, Open;
    ClosedLoads(s, fd, ops);
    OpenLoads(Execute(Close(s, fd).0, ops), s.origin[fd], addr);
  }

  /** FAT volumes are never written back. */
  lemma FatNeverWritesBack(s: State, fd: nat)
    requires s.vol.kind.FatFs?
    ensures Close(s, fd).0.vol == s.vol
  {
  }

  /** An exFAT volume whose one file has the name an open builds from `path`. */
  function OneFile(path: seq<byte>, bytes: seq<byte>): Vol { Vol(Exfat, map[FatName(path) := 0], map[0 := bytes]) }

  /** The table with one open file whose byte has been replaced. */
  function Written(path: seq<byte>, was: byte, now: byte, addr: nat): State
  {
    State(Boot(OneFile(path, [was])).fds[0 := Fd(true, addr, 1, 1, Stored(path), false, true)],
          map[addr := [now]], OneFile(path, [was]), map[0 := path])
  }

  lemma OpenThenWrite(path: seq<byte>, was: byte, now: byte, addr: nat)
    requires !IsPseudo(path) && addr != 0
    ensures var s := Boot(OneFile(path, [was]));
            Allowed(s, OpenOp(path, addr))
              && Next(Next(s, OpenOp(path, addr)), WriteOp(0, [now])) == Written(path, was, now, addr)
  {
    hide FatName, IsPseudo, FreeFd, Stored;
    var s0 := Boot(OneFile(path, [was]));
    FirstFree(s0.fds);
    var s1 := Open(s0, path, addr).0;
    assert s1.fds[0] == Fd(true, addr, 1, 0, Stored(path), false, false) && s1.heap == map[addr := [was]];
    assert [now][..1] == [now] && Splice([was], 0, [now]) == [now];
    assert Write(s1, 0, [now]).0.heap == map[addr := [now]];
  }

  lemma CloseLoses(path: seq<byte>, was: byte, now: byte, addr: nat)
    requires Rooted(path) && |path| >= PATH_CAP && !IsPseudo(path) && addr != 0
    ensures var t := Close(Written(path, was, now, addr), 0).0;
            && t.vol == OneFile(path, [was])
            && var (u, r) := Open(t, path, addr);
               r == Some(0) && |u.fds| == FD_MAX && SlotView(u, 0) == Some(Stream([was], 0))
  {
    NamesAgreeIff(Exfat, path);
    hide FatName, IsPseudo, FreeFd, Stored;
    FirstFree(Close(Written(path, was, now, addr), 0).0.fds);
  }

  lemma FirstFree(fds: seq<Fd>)
    requires |fds| > 0 && !fds[0].used
    ensures FreeFd(fds, 0) == Some(0)
  {
  }

  lemma TwoSteps(s: State, a: Op, b: Op)
    ensures Execute(s, [a, b]) == Next(Next(s, a), b)
    ensures Allowed(s, a) && Allowed(Next(s, a), b) ==> AllowedRun(s, [a, b])
  {
    hide Next, Allowed;
    var t := Next(s, a);
    assert [a, b][1..] == [b] && [b][1..] == [];
    assert Execute(Next(t, b), []) == Next(t, b) && AllowedRun(Next(t, b), []);
    assert Execute(t, [b]) == Execute(Next(t, b), []) && AllowedRun(t, [b]) == Allowed(t, b);
  }

  /**
   Open, write one byte, close and open again a file whose rooted path has 160 characters or
   more: the byte is gone.
   */
  lemma LongPathLoses(path: seq<byte>, was: byte, now: byte, addr: nat)
    requires Rooted(path) && |path| >= PATH_CAP && !IsPseudo(path) && addr != 0
    ensures var s := Execute(Boot(OneFile(path, [was])), [OpenOp(path, addr), WriteOp(0, [now])]);
            && Inv(s) && |s.fds| == FD_MAX && SlotView(s, 0) == Some(Stream([now], 1))
            && var t := Close(s, 0).0;
               && t.vol.content == map[0 := [was]]
               && var (u, r) := Open(t, path, addr);
                  r == Some(0) && |u.fds| == FD_MAX && SlotView(u, 0) == Some(Stream([was], 0))
  {
    hide FatName, IsPseudo, Execute, Inv, Next, Close, Open, AllowedRun;
    var s0, a, b := Boot(OneFile(path, [was])), OpenOp(path, addr), WriteOp(0, [now]);
    OpenThenWrite(path, was, now, addr);
    TwoSteps(s0, a, b);
    ReachableInv(OneFile(path, [was]), [a, b]);
    CloseLoses(path, was, now, addr);
  }

  /** Such a path: a slash and 159 letters. */
  lemma SomeLongPath(letters: seq<byte>)
    requires |letters| == PATH_CAP - 1 && forall k :: 0 <= k < |letters| ==> letters[k] == 0x41
    ensures var path := [SLASH] + letters; Rooted(path) && |path| == PATH_CAP && !IsPseudo(path)
  {
    var path := [SLASH] + letters;
    assert path[1] == 0x41;
  }
}
