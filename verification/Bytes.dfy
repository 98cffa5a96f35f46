/** Little-endian fields inside byte buffers, and overwriting part of a buffer. */
module Bytes {
  import opened Words

  function Le16At(b: seq<byte>, o: nat): u16
    requires o + 2 <= |b|
  {
    Le16(b[o], b[o + 1])
  }

  function Le32At(b: seq<byte>, o: nat): u32
    requires o + 4 <= |b|
  {
    Le32(b[o], b[o + 1], b[o + 2], b[o + 3])
  }

  function Le64At(b: seq<byte>, o: nat): u64
    requires o + 8 <= |b|
  {
    Le32At(b, o) + TWO32 * Le32At(b, o + 4)
  }

  function Bytes16(v: u16): (s: seq<byte>)
    ensures |s| == 2 && Le16At(s, 0) == v
  {
    [v % 0x100, v / 0x100]
  }

  function Bytes32(v: u32): (s: seq<byte>)
    ensures |s| == 4 && Le32At(s, 0) == v
  {
    var v1: nat := v / 0x100;
    var v2: nat := v1 / 0x100;
    var v3 := v2 / 0x100;
    assert v == v % 0x100 + 0x100 * v1 && v1 == v1 % 0x100 + 0x100 * v2 && v2 == v2 % 0x100 + 0x100 * v3;
    [v % 0x100, v1 % 0x100, v2 % 0x100, v3]
  }

  function Bytes64(v: u64): (s: seq<byte>)
    ensures |s| == 8 && Le64At(s, 0) == v
  {
    var s := Bytes32(v % TWO32) + Bytes32(v / TWO32);
    assert Le32At(s, 0) == v % TWO32 && Le32At(s, 4) == v / TWO32;
    s
  }

  /** `b` with `s` written at offset `o`. */
  function Splice(b: seq<byte>, o: nat, s: seq<byte>): (r: seq<byte>)
    requires o + |s| <= |b|
    ensures |r| == |b|
  {
    b[..o] + s + b[o + |s|..]
  }

  lemma SpliceAt(b: seq<byte>, o: nat, s: seq<byte>)
    requires o + |s| <= |b|
    ensures Splice(b, o, s)[o..o + |s|] == s
    ensures forall i :: 0 <= i < |b| ==> Splice(b, o, s)[i] == if o <= i < o + |s| then s[i - o] else b[i]
  {
  }

  /** A range that misses the write reads as before. */
  lemma SpliceMisses(b: seq<byte>, o: nat, s: seq<byte>, lo: nat, hi: nat)
    requires o + |s| <= |b| && lo <= hi <= |b| && (hi <= o || o + |s| <= lo)
    ensures Splice(b, o, s)[lo..hi] == b[lo..hi]
  {
    SpliceAt(b, o, s);
  }

  lemma SameSlice(a: seq<byte>, b: seq<byte>, lo: nat, hi: nat)
    requires lo <= hi <= |a| && hi <= |b|
    requires forall i :: lo <= i < hi ==> a[i] == b[i]
    ensures a[lo..hi] == b[lo..hi]
  {
  }

  /** At most the first `n` bytes. */
  function Cut(s: seq<byte>, n: nat): seq<byte> { if n <= |s| then s[..n] else s }

  lemma CutJoin(a: seq<byte>, b: seq<byte>, n: nat)
    ensures Cut(a + b, n) == Cut(a, n) + Cut(b, if n < |a| then 0 else n - |a|)
  {
  }

  lemma SliceOfSlice(a: seq<byte>, lo: nat, hi: nat, p: nat, q: nat)
    requires lo <= hi <= |a| && p <= q <= hi - lo
    ensures a[lo..hi][p..q] == a[lo + p..lo + q]
  {
    var x, y := a[lo..hi][p..q], a[lo + p..lo + q];
    assert |x| == |y|;
    forall k | 0 <= k < |x| ensures x[k] == y[k] {}
  }

  /** A field read depends only on its own bytes. */
  lemma SameField(a: seq<byte>, b: seq<byte>, o: nat, p: nat)
    requires o + 4 <= |a| && p + 4 <= |b|
    requires a[o..o + 4] == b[p..p + 4]
    ensures Le32At(a, o) == Le32At(b, p)
  {
    var x, y := a[o..o + 4], b[p..p + 4];
    assert x[0] == y[0] && x[1] == y[1] && x[2] == y[2] && x[3] == y[3];
  }

  /** ASCII upper case. */
  function Upper(c: byte): byte { if 0x61 <= c <= 0x7A then c - 32 else c }

  /** The characters before the first NUL. */
  function CString(s: seq<byte>): seq<byte>
  {
    if s == [] || s[0] == 0 then [] else [s[0]] + CString(s[1..])
  }

  lemma {:induction false} CStringIsPrefix(s: seq<byte>)
    ensures CString(s) <= s
    ensures CString(s) == s <==> forall k :: 0 <= k < |s| ==> s[k] != 0
  {
    if s == [] {
    } else if s[0] != 0 {
      CStringIsPrefix(s[1..]);
      assert s == [s[0]] + s[1..];
    }
  }

  function UpperAll(s: seq<byte>): (u: seq<byte>)
    ensures |u| == |s| && forall k :: 0 <= k < |s| ==> u[k] == Upper(s[k])
  {
    seq(|s|, k requires 0 <= k < |s| => Upper(s[k]))
  }
}

/** The block layer: 512-byte sectors; a transfer outside the device fails. */
module Disk {
  import opened Words
  import opened Bytes

  const SECTOR: nat := 512

  predicate InRange(disk: seq<byte>, lba: nat, count: nat) { count > 0 && (lba + count) * SECTOR <= |disk| }

  /** `block_read`. */
  function Read(disk: seq<byte>, lba: nat, count: nat): (r: Option<seq<byte>>)
    ensures r.Some? ==> |r.value| == count * SECTOR
  {
    if InRange(disk, lba, count) then Some(disk[lba * SECTOR..(lba + count) * SECTOR]) else None
  }

  /**
   Sectors just written read back, and a read of other sectors does not see the
   write: it gives the same bytes, or fails as before.
   */
  lemma ReadAfterWrite(disk: seq<byte>, lba: nat, count: nat, data: seq<byte>, at: nat, n: nat)
    requires InRange(disk, lba, count) && |data| == count * SECTOR
    ensures Read(Splice(disk, lba * SECTOR, data), lba, count) == Some(data)
    ensures at + n <= lba || lba + count <= at ==> Read(Splice(disk, lba * SECTOR, data), at, n) == Read(disk, at, n)
  {
    SpliceAt(disk, lba * SECTOR, data);
    var written := Splice(disk, lba * SECTOR, data);
    assert written[lba * SECTOR..(lba + count) * SECTOR] == data;
    if InRange(disk, at, n) && (at + n <= lba || lba + count <= at) {
      assert written[at * SECTOR..(at + n) * SECTOR] == disk[at * SECTOR..(at + n) * SECTOR];
    }
  }

  /** A block device whose sectors are updated in place. */
  class Device {
    var bytes: seq<byte>

    method ReadBlocks(lba: nat, count: nat) returns (r: Option<seq<byte>>)
      ensures r == Read(bytes, lba, count)
    {
      r := if InRange(bytes, lba, count) then Some(bytes[lba * SECTOR..(lba + count) * SECTOR]) else None;
    }

    method WriteBlocks(lba: nat, count: nat, data: seq<byte>) returns (ok: bool)
      requires |data| == count * SECTOR
      modifies this
      ensures ok <==> InRange(old(bytes), lba, count)
      ensures bytes == if ok then Splice(old(bytes), lba * SECTOR, data) else old(bytes)
    {
      ok := InRange(bytes, lba, count);
      if ok {
        bytes := bytes[..lba * SECTOR] + data + bytes[lba * SECTOR + |data|..];
      }
    }
  }
}
