/** Byte-granular access to a partition through 512-byte sectors (`read_bytes`, `write_bytes` of `extfs.c`). */
module ExtDisk {
  import opened Words
  import opened Bytes
  import Disk

  const SECTOR: nat := 512

  /** A block device holds whole sectors. */
  predicate WholeSectors(disk: seq<byte>) { |disk| % SECTOR == 0 }

  /** `len` bytes at disk offset `p`; a read past the end of the device fails. */
  function Fetch(disk: seq<byte>, p: nat, len: nat): (r: Option<seq<byte>>)
    ensures r.Some? ==> |r.value| == len
  {
    if len == 0 then Some([]) else if p + len <= |disk| then Some(disk[p..p + len]) else None
  }

  /** The disk after `src` is written at `p`: what lies past the end of the device is lost. */
  function Put(disk: seq<byte>, p: nat, src: seq<byte>): (r: seq<byte>)
    ensures |r| == |disk|
  {
    if p >= |disk| then disk
    else if p + |src| <= |disk| then Splice(disk, p, src)
    else Splice(disk, p, src[..|disk| - p])
  }

  /** Where byte `pos` of a partition that starts at sector `base` lies. */
  lemma SectorOf(disk: seq<byte>, base: nat, pos: nat)
    ensures var lba, at := base + pos / SECTOR, pos % SECTOR;
            && lba * SECTOR + at == base * SECTOR + pos && at < SECTOR
            && (WholeSectors(disk) ==> (Disk.InRange(disk, lba, 1) <==> base * SECTOR + pos < |disk|))
  {
    var q, at, n := pos / SECTOR, pos % SECTOR, |disk| / SECTOR;
    assert pos == q * SECTOR + at;
    if WholeSectors(disk) {
      assert |disk| == n * SECTOR;
    }
  }

  lemma NextPiece(disk: seq<byte>, p: nat, done: nat, lba: nat, at: nat, take: nat)
    requires p + done == lba * SECTOR + at && at + take <= SECTOR && (lba + 1) * SECTOR <= |disk|
    ensures disk[lba * SECTOR..(lba + 1) * SECTOR][at..at + take] == disk[p + done..p + done + take]
    ensures disk[p..p + done] + disk[p + done..p + done + take] == disk[p..p + done + take]
  {
    SliceOfSlice(disk, lba * SECTOR, (lba + 1) * SECTOR, at, at + take);
  }

  /** `read_bytes`. */
  method ReadBytes(dev: Disk.Device, base: nat, off: nat, len: nat) returns (r: Option<seq<byte>>)
    requires WholeSectors(dev.bytes)
    ensures r == Fetch(dev.bytes, base * SECTOR + off, len)
  {
    hide WholeSectors, Disk.InRange;
    ghost var p := base * SECTOR + off;
    var dst: seq<byte>, pos := [], off;
    while |dst| < len
      invariant |dst| <= len && pos == off + |dst| && (|dst| > 0 ==> p + |dst| <= |dev.bytes|)
      invariant |dst| > 0 ==> dst == dev.bytes[p..p + |dst|]
      decreases len - |dst|
    {
      var lba, at := base + pos / SECTOR, pos % SECTOR;
      SectorOf(dev.bytes, base, pos);
      var sec := dev.ReadBlocks(lba, 1);
      if sec.None? {
        return None;
      }
      var take := SECTOR - at;
      if take > len - |dst| {
        take := len - |dst|;
      }
      InSector(dev.bytes, lba);
      NextPiece(dev.bytes, p, |dst|, lba, at, take);
      dst := dst + sec.value[at..at + take];
      pos := pos + take;
    }
    return Some(dst);
  }

  lemma InSector(disk: seq<byte>, lba: nat)
    requires Disk.InRange(disk, lba, 1)
    ensures (lba + 1) * SECTOR <= |disk| && Disk.Read(disk, lba, 1) == Some(disk[lba * SECTOR..(lba + 1) * SECTOR])
  {
  }

  /**
   Writing one sector with `s` put in at `at` is writing `s` in place; together with what
   went before it is the longer write.
   */
  lemma SectorWrite(disk0: seq<byte>, disk: seq<byte>, p: nat, src: seq<byte>, done: nat, lba: nat, at: nat, take: nat,
                    sec: seq<byte>)
    requires p + done == lba * SECTOR + at && at + take <= SECTOR && done + take <= |src| && |sec| == SECTOR
    requires |disk| == |disk0| && (lba + 1) * SECTOR <= |disk| && p + done <= |disk|
    requires disk == Splice(disk0, p, src[..done])
    requires take != SECTOR ==> sec == disk[lba * SECTOR..(lba + 1) * SECTOR]
    ensures p + done + take <= |disk|
    ensures var whole := sec[..at] + src[done..done + take] + sec[at + take..];
            Splice(disk, lba * SECTOR, whole) == Splice(disk0, p, src[..done + take])
  {
    PatchSector(disk, lba, at, src[done..done + take], sec);
    SpliceJoin(disk0, p, src, done, take);
  }

  lemma PatchSector(disk: seq<byte>, lba: nat, at: nat, piece: seq<byte>, sec: seq<byte>)
    requires at + |piece| <= SECTOR == |sec| && (lba + 1) * SECTOR <= |disk|
    requires |piece| != SECTOR ==> sec == disk[lba * SECTOR..(lba + 1) * SECTOR]
    ensures Splice(disk, lba * SECTOR, sec[..at] + piece + sec[at + |piece|..]) ==
            Splice(disk, lba * SECTOR + at, piece)
  {
    if |piece| == SECTOR {
      assert sec[..at] + piece + sec[at + |piece|..] == piece;
    } else {
      SpliceInSlice(disk, lba * SECTOR, SECTOR, at, piece);
    }
  }

  lemma SpliceInSlice(disk: seq<byte>, o: nat, len: nat, at: nat, piece: seq<byte>)
    requires o + len <= |disk| && at + |piece| <= len
    ensures Splice(disk, o, disk[o..o + len][..at] + piece + disk[o..o + len][at + |piece|..]) ==
            Splice(disk, o + at, piece)
  {
    var whole := disk[o..o + len][..at] + piece + disk[o..o + len][at + |piece|..];
    SpliceAt(disk, o, whole);
    SpliceAt(disk, o + at, piece);
  }

  lemma SpliceJoin(disk: seq<byte>, p: nat, src: seq<byte>, done: nat, take: nat)
    requires done + take <= |src| && p + done + take <= |disk|
    ensures Splice(Splice(disk, p, src[..done]), p + done, src[done..done + take]) ==
            Splice(disk, p, src[..done + take])
  {
    SpliceAt(disk, p, src[..done]);
    SpliceAt(Splice(disk, p, src[..done]), p + done, src[done..done + take]);
    SpliceAt(disk, p, src[..done + take]);
  }

  /** `write_bytes`: read, patch and write back each sector; a whole sector is not read first. */
  method WriteBytes(dev: Disk.Device, base: nat, off: nat, src: seq<byte>) returns (ok: bool)
    requires WholeSectors(dev.bytes)
    modifies dev
    ensures dev.bytes == Put(old(dev.bytes), base * SECTOR + off, src)
    ensures ok <==> src == [] || base * SECTOR + off + |src| <= |dev.bytes|
  {
    hide WholeSectors, Disk.InRange, Splice;
    ghost var p, disk := base * SECTOR + off, dev.bytes;
    var pos, done := off, 0;
    var sec: seq<byte> := seq(SECTOR, _ => 0);
    if src == [] {
      EmptyPut(disk, p);
    }
    while done < |src|
      invariant done <= |src| && pos == off + done && |sec| == SECTOR && |dev.bytes| == |disk|
                && WholeSectors(dev.bytes)
      invariant done == 0 ==> dev.bytes == disk
      invariant done > 0 ==> p + done <= |disk| && dev.bytes == Splice(disk, p, src[..done])
      decreases |src| - done
    {
      var lba, at := base + pos / SECTOR, pos % SECTOR;
      SectorOf(dev.bytes, base, pos);
      if p < |disk| {
        EmptySplice(disk, p, src);
      }
      var take := SECTOR - at;
      if take > |src| - done {
        take := |src| - done;
      }
      if take != SECTOR {
        var r := dev.ReadBlocks(lba, 1);
        if r.None? {
          return false;
        }
        sec := r.value;
      }
      if Disk.InRange(dev.bytes, lba, 1) {
        InSector(dev.bytes, lba);
        SectorWrite(disk, dev.bytes, p, src, done, lba, at, take, sec);
      }
      sec := sec[..at] + src[done..done + take] + sec[at + take..];
      var written := dev.WriteBlocks(lba, 1, sec);
      if !written {
        return false;
      }
      KeepsWhole(disk, dev.bytes);
      done, pos := done + take, pos + take;
    }
    assert src[..|src|] == src;
    return true;
  }

  lemma EmptySplice(disk: seq<byte>, p: nat, src: seq<byte>)
    requires p <= |disk|
    ensures Splice(disk, p, src[..0]) == disk
  {
  }

  lemma EmptyPut(disk: seq<byte>, p: nat)
    ensures Put(disk, p, []) == disk
  {
  }

  lemma KeepsWhole(a: seq<byte>, b: seq<byte>)
    requires |a| == |b|
    ensures WholeSectors(a) <==> WholeSectors(b)
  {
  }

  /** A write reads back, and a read elsewhere does not see it. */
  lemma WriteThenRead(disk: seq<byte>, p: nat, src: seq<byte>, q: nat, len: nat)
    requires p + |src| <= |disk|
    ensures Fetch(Put(disk, p, src), p, |src|) == Some(src)
    ensures q + len <= p || p + |src| <= q ==> Fetch(Put(disk, p, src), q, len) == Fetch(disk, q, len)
  {
    if p < |disk| {
      SpliceAt(disk, p, src);
      if q + len <= |disk| && (q + len <= p || p + |src| <= q) {
        SpliceMisses(disk, p, src, q, q + len);
      }
    }
  }
}
