/** FAT12, FAT16 and FAT32 (`fat32.c`): decoding the allocation table, and file data along its chains. */
module Fat {
  import opened Words
  import opened Bytes
  import opened FileData
  import Disk

  const SECTOR: nat := 512
  const EOC: nat := 0x0FFF_FFF8

  datatype Kind = Fat12 | Fat16 | Fat32

  /**
   A mounted volume, sectors counted from the start of the disk: FAT, data area, cluster size
   and number of clusters.
   */
  datatype Volume = Volume(kind: Kind, fatLba: nat, fatSectors: nat, dataLba: nat, spc: nat, clusters: nat)
  {
    function ClusterBytes(): nat { spc * SECTOR }

    function Offset(c: nat): nat { if c < 2 then 0 else (dataLba + (c - 2) * spc) * SECTOR }

    predicate IsCluster(c: nat) { 2 <= c < clusters + 2 }
  }

  /** Byte offset of an entry inside the FAT. */
  function EntryOffset(kind: Kind, c: nat): nat
  {
    match kind
    case Fat12 => c + c / 2
    case Fat16 => c * 2
    case Fat32 => c * 4
  }

  function EntryBytes(kind: Kind): nat { if kind.Fat32? then 4 else 2 }

  ghost predicate Fits(v: Volume, disk: seq<byte>)
  {
    && 1 <= v.spc <= 8 && v.clusters + 2 <= 0x0FFF_FFF0
    && v.fatLba + v.fatSectors <= v.dataLba
    && (forall c :: v.IsCluster(c) ==> EntryOffset(v.kind, c) + EntryBytes(v.kind) <= v.fatSectors * SECTOR)
    && (v.dataLba + v.clusters * v.spc) * SECTOR <= |disk|
    && v.dataLba + v.clusters * v.spc < TWO32
  }

  // ----- the table

  /** The FAT as a stream of half-bytes, low half first. */
  function Nibble(fat: seq<byte>, k: nat): nat
    requires k / 2 < |fat|
  {
    if k % 2 == 0 then fat[k / 2] % 16 else fat[k / 2] / 16
  }

  /** Entry `c` of the packed table: 12 bits, 16 bits, or the low 28 of 32 bits. */
  function Entry(kind: Kind, fat: seq<byte>, c: nat): nat
    requires EntryOffset(kind, c) + EntryBytes(kind) <= |fat|
  {
    match kind
    case Fat12 => Nibbles(fat, 3 * c, 3)
    case Fat16 => Nibbles(fat, 4 * c, 4)
    case Fat32 => Nibbles(fat, 8 * c, 7)
  }

  /** `n` half-bytes from `k` on as a number. */
  function Nibbles(fat: seq<byte>, k: nat, n: nat): nat
    requires (k + n + 1) / 2 <= |fat|
    decreases n
  {
    if n == 0 then 0 else Nibble(fat, k) + 16 * Nibbles(fat, k + 1, n - 1)
  }

  /** Values from here on end a chain. */
  function EndMark(kind: Kind): nat
  {
    match kind
    case Fat12 => 0xFF8
    case Fat16 => 0xFFF8
    case Fat32 => EOC
  }

  /** `next_cluster`. */
  function NextCluster(v: Volume, disk: seq<byte>, c: nat): nat
  {
    var o := EntryOffset(v.kind, c);
    var index, at := o / SECTOR, o % SECTOR;
    Aligned(v.kind, c);
    match Disk.Read(disk, v.fatLba + index, 1)
    case None => EOC
    case Some(sector) =>
      match v.kind
      case Fat32 => Le32At(sector, at) % 0x1000_0000
      case Fat16 => var val := Le16At(sector, at); if val >= 0xFFF8 then EOC else val
      case Fat12 =>
        var next := if at == SECTOR - 1 then Disk.Read(disk, v.fatLba + index + 1, 1) else Some(sector);
        if next.None? then 0xFF8
        else
          var word := if at == SECTOR - 1 then Le16(sector[at], next.value[0]) else Le16At(sector, at);
          var val := if c % 2 == 1 then word / 16 else word % 0x1000;
          if val >= 0xFF8 then EOC else val
  }

  /** 16- and 32-bit entries never straddle a sector. */
  lemma Aligned(kind: Kind, c: nat)
    ensures var at := EntryOffset(kind, c) % SECTOR;
            at < SECTOR && (kind.Fat16? ==> at + 2 <= SECTOR) && (kind.Fat32? ==> at + 4 <= SECTOR)
  {
    if kind.Fat16? {
      SectorRest(c * 2, c / 256, c % 256 * 2);
    } else if kind.Fat32? {
      SectorRest(c * 4, c / 128, c % 128 * 4);
    }
  }

  lemma SectorRest(o: nat, q: nat, r: nat)
    requires o == q * SECTOR + r && r < SECTOR
    ensures o % SECTOR == r
  {
  }

  /** The bytes of the FAT. */
  function Table(v: Volume, disk: seq<byte>): (fat: seq<byte>)
    requires (v.fatLba + v.fatSectors) * SECTOR <= |disk|
    ensures |fat| == v.fatSectors * SECTOR
  {
    disk[v.fatLba * SECTOR..(v.fatLba + v.fatSectors) * SECTOR]
  }

  /** A byte of the FAT, read through its sector. */
  lemma TableByte(v: Volume, disk: seq<byte>, o: nat)
    requires (v.fatLba + v.fatSectors) * SECTOR <= |disk| && o < v.fatSectors * SECTOR
    ensures var sector := Disk.Read(disk, v.fatLba + o / SECTOR, 1);
            sector.Some? && sector.value[o % SECTOR] == Table(v, disk)[o]
  {
    var q, r := o / SECTOR, o % SECTOR;
    assert o == q * SECTOR + r && q < v.fatSectors;
  }

  lemma NextByte(o: nat)
    requires o % SECTOR != SECTOR - 1
    ensures (o + 1) / SECTOR == o / SECTOR && (o + 1) % SECTOR == o % SECTOR + 1
  {
  }

  lemma LastByte(o: nat)
    requires o % SECTOR == SECTOR - 1
    ensures (o + 1) / SECTOR == o / SECTOR + 1 && (o + 1) % SECTOR == 0
  {
  }

  /** The 16-bit word at an offset of the table is what the code assembles, also across a sector boundary. */
  lemma TableWord(v: Volume, disk: seq<byte>, o: nat)
    requires (v.fatLba + v.fatSectors) * SECTOR <= |disk| && o + 2 <= v.fatSectors * SECTOR
    ensures var fat, at := Table(v, disk), o % SECTOR;
            var sector := Disk.Read(disk, v.fatLba + o / SECTOR, 1);
            && sector.Some?
            && (at < SECTOR - 1 ==> Le16At(sector.value, at) == Le16(fat[o], fat[o + 1]))
            && (at == SECTOR - 1 ==>
                  var next := Disk.Read(disk, v.fatLba + o / SECTOR + 1, 1);
                  next.Some? && Le16(sector.value[at], next.value[0]) == Le16(fat[o], fat[o + 1]))
  {
    hide Disk.Read, Table, Le16;
    TableByte(v, disk, o);
    TableByte(v, disk, o + 1);
    if o % SECTOR == SECTOR - 1 {
      LastByte(o);
    } else {
      NextByte(o);
    }
  }

  lemma ByteNibbles(fat: seq<byte>, o: nat)
    requires o < |fat|
    ensures Nibble(fat, 2 * o) == fat[o] % 16 && Nibble(fat, 2 * o + 1) == fat[o] / 16
    ensures Nibble(fat, 2 * o) + 16 * Nibble(fat, 2 * o + 1) == fat[o]
  {
  }

  /** Two half-bytes from an even place are a byte. */
  lemma NibblesByte(fat: seq<byte>, o: nat, n: nat)
    requires n >= 2 && (2 * o + n + 1) / 2 <= |fat|
    ensures Nibbles(fat, 2 * o, n) == fat[o] + 256 * Nibbles(fat, 2 * (o + 1), n - 2)
  {
    ByteNibbles(fat, o);
    hide Nibble;
    assert Nibbles(fat, 2 * o, n) == Nibble(fat, 2 * o) + 16 * Nibbles(fat, 2 * o + 1, n - 1);
    assert Nibbles(fat, 2 * o + 1, n - 1) == Nibble(fat, 2 * o + 1) + 16 * Nibbles(fat, 2 * o + 2, n - 2);
  }

  lemma OneNibble(fat: seq<byte>, o: nat)
    requires o < |fat|
    ensures Nibbles(fat, 2 * o, 1) == fat[o] % 16
  {
    ByteNibbles(fat, o);
    hide Nibble;
    assert Nibbles(fat, 2 * o + 1, 0) == 0;
  }

  lemma Entry12Even(fat: seq<byte>, k: nat)
    requires 3 * k + 2 <= |fat|
    ensures Nibbles(fat, 6 * k, 3) == Le16(fat[3 * k], fat[3 * k + 1]) % 0x1000
  {
    hide Nibbles;
    var o := 3 * k;
    NibblesByte(fat, o, 3);
    OneNibble(fat, o + 1);
    Low12(fat[o], fat[o + 1]);
  }

  lemma Low12(lo: byte, hi: byte)
    ensures Le16(lo, hi) % 0x1000 == lo + 256 * (hi % 16)
  {
    var q, r := hi / 16, hi % 16;
    assert hi == 16 * q + r;
  }

  lemma Entry12Odd(fat: seq<byte>, k: nat)
    requires 3 * k + 3 <= |fat|
    ensures Nibbles(fat, 6 * k + 3, 3) == Le16(fat[3 * k + 1], fat[3 * k + 2]) / 16
  {
    var o := 3 * k + 1;
    assert 6 * k + 3 == 2 * o + 1;
    ByteNibbles(fat, o);
    NibblesByte(fat, o + 1, 2);
    assert Nibbles(fat, 2 * o + 1, 3) == Nibble(fat, 2 * o + 1) + 16 * Nibbles(fat, 2 * (o + 1), 2);
    assert Nibbles(fat, 2 * (o + 1 + 1), 0) == 0;
    hide Nibbles, Nibble;
    var lo, hi := fat[o], fat[o + 1];
    assert lo == lo / 16 * 16 + lo % 16;
  }

  lemma Entry16(fat: seq<byte>, c: nat)
    requires 2 * c + 2 <= |fat|
    ensures Nibbles(fat, 4 * c, 4) == Le16(fat[2 * c], fat[2 * c + 1])
  {
    var o := 2 * c;
    assert Nibbles(fat, 2 * (o + 2), 0) == 0;
    hide Nibbles;
    NibblesByte(fat, o, 4);
    NibblesByte(fat, o + 1, 2);
  }

  lemma SplitMod(q: nat, low: nat)
    requires low < 0x1000_0000
    ensures (0x1000_0000 * q + low) % 0x1000_0000 == low
  {
  }

  lemma Low28(b0: byte, b1: byte, b2: byte, b3: byte)
    ensures Le32(b0, b1, b2, b3) % 0x1000_0000 == b0 + 256 * (b1 + 256 * (b2 + 256 * (b3 % 16)))
  {
    var q: nat, r: nat := b3 / 16, b3 % 16;
    assert b3 == 16 * q + r;
    SplitMod(q, b0 + 256 * (b1 + 256 * (b2 + 256 * r)));
  }

  lemma Entry32(fat: seq<byte>, c: nat)
    requires 4 * c + 4 <= |fat|
    ensures Nibbles(fat, 8 * c, 7) == Le32(fat[4 * c], fat[4 * c + 1], fat[4 * c + 2], fat[4 * c + 3]) % 0x1000_0000
  {
    hide Nibbles, Le32;
    var o := 4 * c;
    NibblesByte(fat, o, 7);
    NibblesByte(fat, o + 1, 5);
    NibblesByte(fat, o + 2, 3);
    OneNibble(fat, o + 3);
    Low28(fat[o], fat[o + 1], fat[o + 2], fat[o + 3]);
  }

  lemma TableDword(v: Volume, disk: seq<byte>, o: nat)
    requires (v.fatLba + v.fatSectors) * SECTOR <= |disk| && o + 4 <= v.fatSectors * SECTOR && o % SECTOR + 4 <= SECTOR
    ensures var fat := Table(v, disk);
            var sector := Disk.Read(disk, v.fatLba + o / SECTOR, 1);
            && sector.Some?
            && Le32At(sector.value, o % SECTOR) == Le32(fat[o], fat[o + 1], fat[o + 2], fat[o + 3])
  {
    hide Disk.Read, Table, Le32;
    TableByte(v, disk, o);
    TableByte(v, disk, o + 1);
    TableByte(v, disk, o + 2);
    TableByte(v, disk, o + 3);
    NextByte(o);
    NextByte(o + 1);
    NextByte(o + 2);
  }

  lemma TableFits(v: Volume, disk: seq<byte>, c: nat)
    requires Fits(v, disk) && v.IsCluster(c)
    ensures (v.fatLba + v.fatSectors) * SECTOR <= v.dataLba * SECTOR <= |disk|
    ensures EntryOffset(v.kind, c) + EntryBytes(v.kind) <= v.fatSectors * SECTOR == |Table(v, disk)|
  {
    assert v.clusters * v.spc >= 0;
  }

  lemma Decode12(v: Volume, disk: seq<byte>, c: nat, o: nat)
    requires v.kind.Fat12? && o == c + c / 2 && (v.fatLba + v.fatSectors) * SECTOR <= |disk|
             && o + 2 <= v.fatSectors * SECTOR
    ensures var fat := Table(v, disk);
            var word := Le16(fat[o], fat[o + 1]);
            var val := if c % 2 == 1 then word / 16 else word % 0x1000;
            NextCluster(v, disk, c) == if val >= 0xFF8 then EOC else val
  {
    TableWord(v, disk, o);
    hide Disk.Read, Table, Le16, Le32;
  }

  lemma Next12(v: Volume, disk: seq<byte>, c: nat)
    requires v.kind.Fat12? && (v.fatLba + v.fatSectors) * SECTOR <= |disk| && c + c / 2 + 2 <= v.fatSectors * SECTOR
    ensures var e := Nibbles(Table(v, disk), 3 * c, 3); NextCluster(v, disk, c) == if e < 0xFF8 then e else EOC
  {
    hide NextCluster, Table, Nibbles, Le16;
    var fat, k := Table(v, disk), c / 2;
    Decode12(v, disk, c, c + k);
    if c % 2 == 0 {
      assert c == 2 * k;
      Entry12Even(fat, k);
    } else {
      assert c == 2 * k + 1;
      Entry12Odd(fat, k);
    }
  }

  lemma Next16(v: Volume, disk: seq<byte>, c: nat)
    requires v.kind.Fat16? && (v.fatLba + v.fatSectors) * SECTOR <= |disk| && c * 2 + 2 <= v.fatSectors * SECTOR
    ensures var e := Nibbles(Table(v, disk), 4 * c, 4); NextCluster(v, disk, c) == if e < 0xFFF8 then e else EOC
  {
    hide Disk.Read, Table, Nibbles, Le16, Le32;
    Aligned(v.kind, c);
    TableWord(v, disk, c * 2);
    Entry16(Table(v, disk), c);
  }

  lemma Next32(v: Volume, disk: seq<byte>, c: nat)
    requires v.kind.Fat32? && (v.fatLba + v.fatSectors) * SECTOR <= |disk| && c * 4 + 4 <= v.fatSectors * SECTOR
    ensures NextCluster(v, disk, c) == Nibbles(Table(v, disk), 8 * c, 7)
  {
    hide Disk.Read, Table, Nibbles, Le16, Le32;
    Aligned(v.kind, c);
    TableDword(v, disk, c * 4);
    Entry32(Table(v, disk), c);
  }

  /** `next_cluster` agrees with the table, for every cluster and width, sector boundaries included. */
  lemma NextIsEntry(v: Volume, disk: seq<byte>, c: nat)
    requires Fits(v, disk) && v.IsCluster(c)
    ensures (v.fatLba + v.fatSectors) * SECTOR <= |disk|
            && EntryOffset(v.kind, c) + EntryBytes(v.kind) <= |Table(v, disk)|
    ensures var e := Entry(v.kind, Table(v, disk), c);
            NextCluster(v, disk, c) == if v.kind.Fat32? || e < EndMark(v.kind) then e else EOC
  {
    TableFits(v, disk, c);
    hide Fits, Table, Nibbles, NextCluster;
    match v.kind {
      case Fat12 => Next12(v, disk, c);
      case Fat16 => Next16(v, disk, c);
      case Fat32 => Next32(v, disk, c);
    }
  }

  // ----- chains

  /** `cluster_lba`, in 32-bit arithmetic. */
  function ClusterLba(v: Volume, c: nat): nat { (v.dataLba + (c + TWO32 - 2) % TWO32 * v.spc) % TWO32 }

  lemma ClusterPlace(v: Volume, disk: seq<byte>, c: nat)
    requires Fits(v, disk) && v.IsCluster(c)
    ensures ClusterLba(v, c) * SECTOR == v.Offset(c) && Disk.InRange(disk, ClusterLba(v, c), v.spc)
    ensures v.dataLba * SECTOR <= v.Offset(c) && v.Offset(c) + v.ClusterBytes() <= |disk|
  {
    assert (c + TWO32 - 2) % TWO32 == c - 2;
    assert (c - 2) * v.spc + v.spc == (c - 1) * v.spc;
    MulMono(c - 1, v.clusters, v.spc);
    MulMono(0, c - 2, v.spc);
  }

  lemma ClustersApart(v: Volume, c: nat, d: nat)
    requires v.IsCluster(c) && v.IsCluster(d) && c != d
    ensures v.Offset(c) + v.ClusterBytes() <= v.Offset(d) || v.Offset(d) + v.ClusterBytes() <= v.Offset(c)
  {
    if c < d {
      MulMono(c - 1, d - 2, v.spc);
      assert (c - 2) * v.spc + v.spc == (c - 1) * v.spc;
    } else {
      MulMono(d - 1, c - 2, v.spc);
      assert (d - 2) * v.spc + v.spc == (d - 1) * v.spc;
    }
  }

  /** `cs` are distinct clusters linked in the table, the last with an end mark. */
  ghost predicate IsChain(v: Volume, disk: seq<byte>, cs: seq<nat>)
  {
    && Fits(v, disk)
    && (forall i :: 0 <= i < |cs| ==> v.IsCluster(cs[i]))
    && (forall i, j :: 0 <= i < j < |cs| ==> cs[i] != cs[j])
    && (forall i :: 0 <= i < |cs| ==> Linked(v, disk, cs[i], if i + 1 < |cs| then cs[i + 1] else EOC))
  }

  ghost predicate Linked(v: Volume, disk: seq<byte>, c: nat, next: nat)
    requires Fits(v, disk) && v.IsCluster(c)
  {
    TableFits(v, disk, c);
    var e := Entry(v.kind, Table(v, disk), c);
    if next == EOC then e >= EndMark(v.kind) else e == next < EndMark(v.kind)
  }

  /** The cluster at position `i` of a chain; past its end, an end mark. */
  ghost predicate At(cs: seq<nat>, i: nat, c: nat) { if i < |cs| then c == cs[i] else c >= EOC }

  lemma Step(v: Volume, disk: seq<byte>, cs: seq<nat>, i: nat)
    requires IsChain(v, disk, cs) && i < |cs|
    ensures Fits(v, disk) && v.IsCluster(cs[i]) && cs[i] < EOC && At(cs, i + 1, NextCluster(v, disk, cs[i]))
  {
    assert Linked(v, disk, cs[i], if i + 1 < |cs| then cs[i + 1] else EOC);
    NextIsEntry(v, disk, cs[i]);
    hide NextCluster, Entry, Table;
    assert i + 1 < |cs| ==> v.IsCluster(cs[i + 1]);
  }

  ghost function Offsets(v: Volume, cs: seq<nat>): (offs: seq<nat>)
    ensures |offs| == |cs| && forall i :: 0 <= i < |cs| ==> offs[i] == v.Offset(cs[i])
  {
    seq(|cs|, i requires 0 <= i < |cs| => v.Offset(cs[i]))
  }

  lemma OffsetsApart(v: Volume, disk: seq<byte>, cs: seq<nat>)
    requires IsChain(v, disk, cs)
    ensures InDisk(disk, Offsets(v, cs), v.ClusterBytes()) && Apart(Offsets(v, cs), v.ClusterBytes())
  {
    hide Volume.Offset, Linked;
    assert v.ClusterBytes() > 0;
    forall i | 0 <= i < |cs| ensures v.Offset(cs[i]) + v.ClusterBytes() <= |disk| {
      ClusterPlace(v, disk, cs[i]);
    }
    forall i, j | 0 <= i < j < |cs|
      ensures v.Offset(cs[i]) + v.ClusterBytes() <= v.Offset(cs[j])
              || v.Offset(cs[j]) + v.ClusterBytes() <= v.Offset(cs[i])
    {
      ClustersApart(v, cs[i], cs[j]);
    }
  }

  /** The bytes of a chain in order. */
  ghost function ChainBytes(v: Volume, disk: seq<byte>, cs: seq<nat>): seq<byte>
    requires IsChain(v, disk, cs)
  {
    OffsetsApart(v, disk, cs);
    Gather(disk, Offsets(v, cs), v.ClusterBytes())
  }

  /** A disk with the same table has the same chains. */
  lemma SameTable(v: Volume, a: seq<byte>, b: seq<byte>, cs: seq<nat>)
    requires IsChain(v, a, cs) && |b| == |a| && b[..v.dataLba * SECTOR] == a[..v.dataLba * SECTOR]
    ensures IsChain(v, b, cs)
  {
    forall i | 0 <= i < |cs| ensures Linked(v, b, cs[i], if i + 1 < |cs| then cs[i + 1] else EOC) {
      assert Linked(v, a, cs[i], if i + 1 < |cs| then cs[i + 1] else EOC);
      TableFits(v, a, cs[i]);
      SameTableBytes(v, a, b);
    }
  }

  lemma SameTableBytes(v: Volume, a: seq<byte>, b: seq<byte>)
    requires (v.fatLba + v.fatSectors) * SECTOR <= v.dataLba * SECTOR <= |a| == |b|
    requires b[..v.dataLba * SECTOR] == a[..v.dataLba * SECTOR]
    ensures Table(v, a) == Table(v, b)
  {
    var h, lo, hi := v.dataLba * SECTOR, v.fatLba * SECTOR, (v.fatLba + v.fatSectors) * SECTOR;
    SliceOfSlice(a, 0, h, lo, hi);
    SliceOfSlice(b, 0, h, lo, hi);
  }

  lemma DataWrite(v: Volume, disk: seq<byte>, cs: seq<nat>, i: nat, data: seq<byte>)
    requires IsChain(v, disk, cs) && i < |cs| && |data| <= v.ClusterBytes()
    ensures v.Offset(cs[i]) + |data| <= |disk| && IsChain(v, Splice(disk, v.Offset(cs[i]), data), cs)
  {
    hide Volume.Offset, Linked, Splice;
    ClusterPlace(v, disk, cs[i]);
    SpliceMisses(disk, v.Offset(cs[i]), data, 0, v.dataLba * SECTOR);
    SameTable(v, disk, Splice(disk, v.Offset(cs[i]), data), cs);
  }

  // ----- whole-file read and overwrite, along whatever the table links

  /** `read_cluster`. */
  function ReadCluster(v: Volume, disk: seq<byte>, c: nat): (r: Option<seq<byte>>)
    ensures r.Some? ==> |r.value| == v.ClusterBytes()
  {
    Disk.Read(disk, ClusterLba(v, c), v.spc)
  }

  /**
   Bytes copied by following links from `c` until `left` are copied or the chain ends; `None`
   on a cluster off the disk.
   */
  function Collect(v: Volume, disk: seq<byte>, c: nat, left: nat): Option<seq<byte>>
    requires v.spc > 0
    decreases left
  {
    if c >= EOC || left == 0 then Some([])
    else
      match ReadCluster(v, disk, c)
      case None => None
      case Some(buf) =>
        var take := if left < v.ClusterBytes() then left else v.ClusterBytes();
        Prepend(buf[..take], Collect(v, disk, NextCluster(v, disk, c), left - take))
  }

  lemma CollectStep(v: Volume, disk: seq<byte>, c: nat, left: nat, dst: seq<byte>)
    requires v.spc > 0 && c < EOC && left > 0 && ReadCluster(v, disk, c).Some?
    ensures var take := if left < v.ClusterBytes() then left else v.ClusterBytes();
            Prepend(dst, Collect(v, disk, c, left)) ==
            Prepend(dst + ReadCluster(v, disk, c).value[..take], Collect(v, disk, NextCluster(v, disk, c), left - take))
  {
    hide ReadCluster, NextCluster;
    var take := if left < v.ClusterBytes() then left else v.ClusterBytes();
    PrependTwice(dst, ReadCluster(v, disk, c).value[..take], Collect(v, disk, NextCluster(v, disk, c), left - take));
  }

  /** `fat32_read_file` for a resolved entry, on any table, cyclic or broken ones included. */
  method ReadFile(v: Volume, dev: Disk.Device, first: nat, size: u32, bufferSize: u32) returns (r: Option<seq<byte>>)
    requires v.spc > 0
    ensures r == if size > bufferSize || v.spc > 8 then None else Collect(v, dev.bytes, first, size)
  {
    hide NextCluster;
    if size > bufferSize || v.spc > 8 {
      return None;
    }
    var cluster: nat, dst: seq<byte> := first, [];
    while cluster < EOC && |dst| < size
      invariant |dst| <= size
      invariant Prepend(dst, Collect(v, dev.bytes, cluster, size - |dst|)) == Collect(v, dev.bytes, first, size)
      decreases size - |dst|
    {
      var buf := dev.ReadBlocks(ClusterLba(v, cluster), v.spc);
      if buf.None? {
        return None;
      }
      CollectStep(v, dev.bytes, cluster, size - |dst|, dst);
      var left := size - |dst|;
      var take := if left < v.ClusterBytes() then left else v.ClusterBytes();
      dst := dst + buf.value[..take];
      cluster := NextCluster(v, dev.bytes, cluster);
    }
    return Some(dst);
  }

  lemma ClusterRead(v: Volume, disk: seq<byte>, c: nat)
    requires Fits(v, disk) && v.IsCluster(c)
    ensures v.Offset(c) + v.ClusterBytes() <= |disk|
    ensures ReadCluster(v, disk, c) == Some(Unit(disk, v.Offset(c), v.ClusterBytes()))
    ensures Disk.InRange(disk, ClusterLba(v, c), v.spc) && ClusterLba(v, c) * SECTOR == v.Offset(c)
            && v.ClusterBytes() > 0
  {
    ClusterPlace(v, disk, c);
  }

  /** One cluster of a chain. */
  lemma CollectCluster(v: Volume, disk: seq<byte>, cs: seq<nat>, i: nat, left: nat)
    requires IsChain(v, disk, cs) && i < |cs| && left > 0
    ensures v.spc > 0 && v.Offset(cs[i]) + v.ClusterBytes() <= |disk| && At(cs, i + 1, NextCluster(v, disk, cs[i]))
    ensures var take := if left < v.ClusterBytes() then left else v.ClusterBytes();
            Collect(v, disk, cs[i], left) ==
            Prepend(Unit(disk, v.Offset(cs[i]), v.ClusterBytes())[..take],
                    Collect(v, disk, NextCluster(v, disk, cs[i]), left - take))
  {
    Step(v, disk, cs, i);
    ClusterRead(v, disk, cs[i]);
    hide IsChain, Volume.Offset, ReadCluster, NextCluster, Fits;
  }

  lemma ChainTail(v: Volume, disk: seq<byte>, cs: seq<nat>, i: nat)
    requires IsChain(v, disk, cs) && i <= |cs|
    ensures v.spc > 0 && InDisk(disk, Offsets(v, cs)[i..], v.ClusterBytes())
    ensures i < |cs| ==>
              && Offsets(v, cs)[i..][0] == v.Offset(cs[i])
              && Offsets(v, cs)[i..][1..] == Offsets(v, cs)[i + 1..]
  {
    OffsetsApart(v, disk, cs);
    InDiskTail(disk, Offsets(v, cs), v.ClusterBytes(), i);
  }

  /** Along a chain the read gives its bytes up to the size; a chain that ends early is not an error. */
  lemma {:induction false} CollectChain(v: Volume, disk: seq<byte>, cs: seq<nat>, i: nat, c: nat, left: nat)
    requires IsChain(v, disk, cs) && i <= |cs| && At(cs, i, c)
    ensures v.spc > 0 && InDisk(disk, Offsets(v, cs)[i..], v.ClusterBytes())
    ensures Collect(v, disk, c, left) == Some(Cut(Gather(disk, Offsets(v, cs)[i..], v.ClusterBytes()), left))
    decreases |cs| - i
  {
    hide IsChain, Volume.Offset, ReadCluster, NextCluster, InDisk;
    ChainTail(v, disk, cs, i);
    if i == |cs| || left == 0 {
    } else {
      CollectCluster(v, disk, cs, i, left);
      hide Collect;
      var unit := v.ClusterBytes();
      var take := if left < unit then left else unit;
      CollectChain(v, disk, cs, i + 1, NextCluster(v, disk, c), left - take);
      var buf := Unit(disk, v.Offset(cs[i]), unit);
      CutJoin(buf, Gather(disk, Offsets(v, cs)[i + 1..], unit), left);
      assert Cut(buf, left) == buf[..take];
    }
  }

  /** The disk after `data` is written along the links from `c`, and whether all of it was. */
  function Overwrite(v: Volume, disk: seq<byte>, c: nat, data: seq<byte>): (seq<byte>, bool)
    requires v.spc > 0
    decreases |data|
  {
    if c >= EOC || data == [] then (disk, data == [])
    else
      match ReadCluster(v, disk, c)
      case None => (disk, false)
      case Some(buf) =>
        var take := Chunk(v.ClusterBytes(), data);
        var disk' := Splice(disk, ClusterLba(v, c) * SECTOR, data[..take] + buf[take..]);
        Overwrite(v, disk', NextCluster(v, disk', c), data[take..])
  }

  lemma OverwriteStep(v: Volume, disk: seq<byte>, c: nat, data: seq<byte>)
    requires v.spc > 0 && c < EOC && data != [] && ReadCluster(v, disk, c).Some?
    ensures Disk.InRange(disk, ClusterLba(v, c), v.spc)
    ensures var take := Chunk(v.ClusterBytes(), data);
            var disk' := Splice(disk, ClusterLba(v, c) * SECTOR, data[..take] + ReadCluster(v, disk, c).value[take..]);
            Overwrite(v, disk, c, data) == Overwrite(v, disk', NextCluster(v, disk', c), data[take..])
  {
    hide NextCluster, ClusterLba, Splice;
  }

  /** `fat32_write_file` for a resolved entry of `size` bytes, on any table. */
  method WriteFile(v: Volume, dev: Disk.Device, first: nat, size: u32, data: seq<byte>) returns (ok: bool)
    requires v.spc > 0
    modifies dev
    ensures |data| > size || v.spc > 8 ==> !ok && dev.bytes == old(dev.bytes)
    ensures |data| <= size && v.spc <= 8 ==> (dev.bytes, ok) == Overwrite(v, old(dev.bytes), first, data)
  {
    if |data| > size || v.spc > 8 {
      return false;
    }
    hide NextCluster, ClusterLba, Splice, Disk.InRange;
    var cluster: nat, rest := first, data;  // `rest` is the part of the buffer not yet written
    while cluster < EOC && rest != []
      invariant Overwrite(v, dev.bytes, cluster, rest) == Overwrite(v, old(dev.bytes), first, data)
      decreases |rest|
    {
      var buf := dev.ReadBlocks(ClusterLba(v, cluster), v.spc);
      if buf.None? {
        return false;
      }
      OverwriteStep(v, dev.bytes, cluster, rest);
      var take := Chunk(v.ClusterBytes(), rest);
      var written := dev.WriteBlocks(ClusterLba(v, cluster), v.spc, rest[..take] + buf.value[take..]);
      if !written {
        return false;
      }
      rest := rest[take..];
      cluster := NextCluster(v, dev.bytes, cluster);
    }
    return rest == [];
  }

  /** One cluster of a chain. */
  lemma OverwriteCluster(v: Volume, disk: seq<byte>, cs: seq<nat>, i: nat, data: seq<byte>) returns (disk': seq<byte>)
    requires IsChain(v, disk, cs) && i < |cs| && data != []
    ensures v.spc > 0 && v.Offset(cs[i]) + v.ClusterBytes() <= |disk|
    ensures var take := Chunk(v.ClusterBytes(), data);
            && disk' == Splice(disk, v.Offset(cs[i]), data[..take])
            && IsChain(v, disk', cs) && At(cs, i + 1, NextCluster(v, disk', cs[i]))
            && Overwrite(v, disk, cs[i], data) == Overwrite(v, disk', NextCluster(v, disk', cs[i]), data[take..])
  {
    Step(v, disk, cs, i);
    ClusterRead(v, disk, cs[i]);
    hide IsChain, Volume.Offset, NextCluster, ClusterLba, Splice, ReadCluster, Fits, Overwrite;
    var take := Chunk(v.ClusterBytes(), data);
    OverwriteStep(v, disk, cs[i], data);
    PrefixSplice(disk, v.Offset(cs[i]), v.ClusterBytes(), data, take);
    DataWrite(v, disk, cs, i, data[..take]);
    disk' := Splice(disk, v.Offset(cs[i]), data[..take]);
    Step(v, disk', cs, i);
  }

  /** Along a chain the write scatters the data over it, and succeeds exactly when the chain is long enough. */
  lemma {:induction false} OverwriteChain(v: Volume, disk: seq<byte>, cs: seq<nat>, i: nat, c: nat, data: seq<byte>)
    requires IsChain(v, disk, cs) && i <= |cs| && At(cs, i, c)
    ensures v.spc > 0 && InDisk(disk, Offsets(v, cs)[i..], v.ClusterBytes())
    ensures Overwrite(v, disk, c, data) ==
            (Scatter(disk, Offsets(v, cs)[i..], v.ClusterBytes(), data), |data| <= Times(|cs| - i, v.ClusterBytes()))
    decreases |cs| - i
  {
    hide IsChain, Volume.Offset, NextCluster, ReadCluster, Splice, InDisk;
    ChainTail(v, disk, cs, i);
    if i == |cs| || data == [] {
    } else {
      var disk' := OverwriteCluster(v, disk, cs, i, data);
      hide Overwrite;
      OverwriteChain(v, disk', cs, i + 1, NextCluster(v, disk', c), data[Chunk(v.ClusterBytes(), data)..]);
    }
  }

  /** Scattering over a chain: the new prefix, the old rest, and every byte of every other cluster untouched. */
  lemma ScatterThenRead(v: Volume, disk: seq<byte>, cs: seq<nat>, data: seq<byte>, size: nat)
    requires IsChain(v, disk, cs) && |data| <= size <= |ChainBytes(v, disk, cs)|
    ensures InDisk(disk, Offsets(v, cs), v.ClusterBytes())
    ensures var disk' := Scatter(disk, Offsets(v, cs), v.ClusterBytes(), data);
            && IsChain(v, disk', cs)
            && Cut(ChainBytes(v, disk', cs), size) == data + ChainBytes(v, disk, cs)[|data|..size]
            && forall k :: 0 <= k < |disk| && Outside(Offsets(v, cs), v.ClusterBytes(), k) ==> disk'[k] == disk[k]
  {
    hide Volume.Offset, Outside, Gather, Scatter;
    var offs, unit, h := Offsets(v, cs), v.ClusterBytes(), v.dataLba * SECTOR;
    OffsetsApart(v, disk, cs);
    var disk' := Scatter(disk, offs, unit, data);
    HeadKept(v, disk, cs, data);
    SameTable(v, disk, disk', cs);
    hide IsChain, InDisk, Apart;
    OverwriteEffect(disk, offs, unit, data, size);
  }

  /**
   `fat32_write_file` then `fat32_read_file` along a chain that holds the file:
   the write succeeds, the read gives the new prefix and the old rest, the chain
   is the same and every byte outside it untouched.
   */
  lemma OverwriteThenRead(v: Volume, disk: seq<byte>, cs: seq<nat>, first: nat, data: seq<byte>, size: nat)
    requires IsChain(v, disk, cs) && At(cs, 0, first) && |data| <= size <= |ChainBytes(v, disk, cs)|
    ensures v.spc > 0
    ensures var (disk', ok) := Overwrite(v, disk, first, data);
            && ok && |disk'| == |disk| && IsChain(v, disk', cs)
            && Collect(v, disk, first, size) == Some(ChainBytes(v, disk, cs)[..size])
            && Collect(v, disk', first, size) == Some(data + ChainBytes(v, disk, cs)[|data|..size])
            && forall k :: 0 <= k < |disk| && Outside(Offsets(v, cs), v.ClusterBytes(), k) ==> disk'[k] == disk[k]
  {
    hide IsChain, Volume.Offset, Outside, Scatter, Gather, Collect, Overwrite, InDisk;
    var offs := Offsets(v, cs);
    assert offs[0..] == offs;
    OverwriteChain(v, disk, cs, 0, first, data);
    GatherLength(disk, offs, v.ClusterBytes());
    ScatterThenRead(v, disk, cs, data, size);
    CollectChain(v, disk, cs, 0, first, size);
    CollectChain(v, Scatter(disk, offs, v.ClusterBytes(), data), cs, 0, first, size);
  }

  /** No other cluster changes. */
  lemma OtherClusters(v: Volume, disk: seq<byte>, cs: seq<nat>, data: seq<byte>, c: nat)
    requires IsChain(v, disk, cs) && v.IsCluster(c) && c !in cs
    ensures InDisk(disk, Offsets(v, cs), v.ClusterBytes()) && v.Offset(c) + v.ClusterBytes() <= |disk|
    ensures Unit(Scatter(disk, Offsets(v, cs), v.ClusterBytes(), data), v.Offset(c), v.ClusterBytes()) ==
            Unit(disk, v.Offset(c), v.ClusterBytes())
  {
    OffsetsApart(v, disk, cs);
    ClusterPlace(v, disk, c);
    forall i | 0 <= i < |cs|
      ensures v.Offset(cs[i]) + v.ClusterBytes() <= v.Offset(c) || v.Offset(c) + v.ClusterBytes() <= v.Offset(cs[i])
    {
      ClustersApart(v, cs[i], c);
    }
    hide IsChain, Volume.Offset, Scatter;
    ScatterElsewhere(disk, Offsets(v, cs), v.ClusterBytes(), data, v.Offset(c));
  }

  lemma HeadKept(v: Volume, disk: seq<byte>, cs: seq<nat>, data: seq<byte>)
    requires IsChain(v, disk, cs) && InDisk(disk, Offsets(v, cs), v.ClusterBytes())
    ensures v.dataLba * SECTOR <= |disk|
    ensures Scatter(disk, Offsets(v, cs), v.ClusterBytes(), data)[..v.dataLba * SECTOR] == disk[..v.dataLba * SECTOR]
  {
    var offs, unit, h := Offsets(v, cs), v.ClusterBytes(), v.dataLba * SECTOR;
    MulMono(0, v.clusters, v.spc);
    forall i | 0 <= i < |cs| ensures h <= offs[i] {
      ClusterPlace(v, disk, cs[i]);
    }
    hide IsChain, Volume.Offset, Scatter;
    forall k | 0 <= k < h ensures Scatter(disk, offs, unit, data)[k] == disk[k] {
      ScatterFrame(disk, offs, unit, data, k);
    }
    SameSlice(Scatter(disk, offs, unit, data), disk, 0, h);
  }
}
