/** The descriptor system calls of `syscall.c` on the mutable table. */
module Descriptors {
  import opened Words
  import opened Bytes
  import T = FdTable

  /** The copy loop of SYS_READ. */
  method CopyOut(data: seq<byte>, off: nat, take: nat) returns (dst: seq<byte>)
    requires off + take <= |data|
    ensures dst == data[off..off + take]
  {
    dst := [];
    for i := 0 to take
      invariant dst == data[off..off + i]
    {
      dst := dst + [data[off + i]];
    }
  }

  /** The copy loop of SYS_WRITE. */
  method CopyIn(data: seq<byte>, off: nat, src: seq<byte>, take: nat) returns (r: seq<byte>)
    requires off + take <= |data| && take <= |src|
    ensures r == Splice(data, off, src[..take])
  {
    r := data;
    for i := 0 to take
      invariant r == Splice(data, off, src[..i])
    {
      r := r[off + i := src[i]];
    }
  }

  lemma SetTwice(fds: seq<T.Fd>, i: nat, a: T.Fd, b: T.Fd)
    requires i < |fds|
    ensures fds[i := a][i := b] == fds[i := b]
  {
  }

  class Descriptors {
    var fds: seq<T.Fd>
    var heap: map<nat, seq<byte>>  // buffers from kalloc that have not been freed
    var vol: T.Vol
    ghost var origin: map<nat, seq<byte>>

    ghost function Value(): T.State
      reads this
    {
      T.State(fds, heap, vol, origin)
    }

    constructor (root: T.Vol)
      ensures Value() == T.Boot(root)
    {
      fds := seq(T.FD_MAX, _ => T.Fd(false, 0, 0, 0, [], false, false));
      heap := map[];
      vol := root;
      origin := map[];
    }

    /** `alloc_fd`; the slot's flags other than `dirty` are reset. */
    method AllocFd() returns (r: Option<nat>)
      modifies `fds
      ensures r == T.FreeFd(old(fds), 0)
      ensures fds == if r.None? then old(fds)
                     else old(fds)[r.value := T.Fd(true, 0, 0, 0, [], false, old(fds)[r.value].dirty)]
    {
      for i := 0 to |fds|
        invariant fds == old(fds) && T.FreeFd(fds, i) == T.FreeFd(fds, 0)
      {
        if !fds[i].used {
          fds := fds[i := T.Fd(true, 0, 0, 0, [], false, fds[i].dirty)];
          return Some(i);
        }
      }
      return None;
    }

    /** SYS_OPEN; `addr` is the address `kalloc` returned. */
    method Open(path: seq<byte>, addr: nat) returns (r: Option<nat>)
      requires T.Inv(Value()) && addr !in heap
      modifies this
      ensures (Value(), r) == T.Open(old(Value()), path, addr) && T.Inv(Value())
    {
      T.OpenStep(Value(), path, addr);
      hide T.Inv, T.IsPseudo, T.Loadable, T.Stored, T.FreeFd;
      r := AllocFd();
      if r.None? {
        return;
      }
      var i := r.value;
      ghost var empty := fds[i];
      if T.IsPseudo(path) {
        fds := fds[i := fds[i].(pseudo := true, dirty := false, path := T.Stored(path))];
        SetTwice(old(fds), i, empty, fds[i]);
        return;
      }
      fds := fds[i := fds[i].(pseudo := false, dirty := false, path := T.Stored(path))];
      SetTwice(old(fds), i, empty, fds[i]);
      ghost var named := fds[i];
      var file := T.Loadable(vol, path);
      if file.None? || addr == 0 {
        fds := fds[i := fds[i].(used := false)];
        SetTwice(old(fds), i, named, fds[i]);
        return None;
      }
      heap := heap[addr := file.value];
      fds := fds[i := fds[i].(data := addr, size := |file.value|, off := 0)];
      SetTwice(old(fds), i, named, fds[i]);
      origin := origin[i := path];
    }

    /** SYS_READ; `got` is what the VFS delivers for a pseudo file. */
    method Read(fd: nat, want: nat, got: seq<byte>) returns (r: Option<seq<byte>>)
      requires T.Inv(Value())
      modifies `fds
      ensures (Value(), r) == T.Read(old(Value()), fd, want, got) && T.Inv(Value())
    {
      hide T.Inv;
      T.ReadStep(Value(), fd, want, got);
      T.FdCount(Value());
      if fd >= T.FD_MAX || !fds[fd].used {
        return None;
      }
      var f := fds[fd];
      if f.pseudo {
        fds := fds[fd := f.(off := f.off + |got|)];
        return Some(got);
      }
      T.ViewAt(Value(), fd);
      if f.off >= f.size {
        assert fds[fd := f.(off := f.off + 0)] == fds && heap[f.data][f.off..f.off + 0] == [];
        return Some([]);
      }
      var left := f.size - f.off;
      var take := if want < left then want else left;
      var dst := CopyOut(heap[f.data], f.off, take);
      fds := fds[fd := f.(off := f.off + take)];
      return Some(dst);
    }

    /** SYS_WRITE. */
    method Write(fd: nat, src: seq<byte>) returns (r: Option<nat>)
      requires T.Inv(Value())
      modifies `fds, `heap
      ensures (Value(), r) == T.Write(old(Value()), fd, src) && T.Inv(Value())
    {
      hide T.Inv, Splice;
      T.WriteStep(Value(), fd, src);
      T.FdCount(Value());
      if fd >= T.FD_MAX || !fds[fd].used {
        return if fd == 1 || fd == 2 then Some(0) else None;
      }
      var f := fds[fd];
      if f.pseudo || f.data == 0 {
        return None;
      }
      T.ViewAt(Value(), fd);
      if f.off >= f.size {
        return Some(0);
      }
      var left := f.size - f.off;
      var take := if |src| < left then |src| else left;
      var data := CopyIn(heap[f.data], f.off, src, take);
      heap := heap[f.data := data];
      fds := fds[fd := f.(off := f.off + take, dirty := true)];
      return Some(take);
    }

    /** SYS_CLOSE: write back if dirty, free the buffer, release the slot. */
    method Close(fd: nat) returns (r: Option<nat>)
      requires T.Inv(Value())
      modifies this
      ensures (Value(), r) == T.Close(old(Value()), fd) && T.Inv(Value())
    {
      T.CloseStep(Value(), fd);
      T.FdCount(Value());
      hide T.Inv, T.Flush, T.FsName;
      if fd >= T.FD_MAX || !fds[fd].used {
        return None;
      }
      var f := fds[fd];
      if !f.pseudo && f.data != 0 {
        T.ViewAt(Value(), fd);
        if f.dirty && f.path != [] && !vol.kind.FatFs? {
          vol := T.Flush(vol, T.FsName(vol.kind, f.path), heap[f.data]);
        }
        heap := heap - {f.data};
      }
      fds := fds[fd := f.(used := false)];
      return Some(0);
    }
  }
}
