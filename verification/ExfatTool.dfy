/**
 The image builder `populate_exfat.py`: cluster allocation, chains and file data, on the
 bytes the kernel later reads.
 */
module ExfatTool {
  import opened Words
  import opened Bytes
  import opened FileData
  import opened Exfat

  predicate IsFree(v: Volume, image: seq<byte>, reserved: set<nat>, c: nat)
    requires v.FatByte(c) + 4 <= |image|
  {
    c !in reserved && FatEntry(v, image, c) == 0
  }

  /** The first `n` free clusters from `c` on; `None` when there are not enough. */
  function FindFree(v: Volume, image: seq<byte>, reserved: set<nat>, c: nat, n: nat): Option<seq<nat>>
    requires v.FatByte(v.count + 2) <= |image| && c <= v.count + 2 && n > 0
    decreases v.count + 2 - c
  {
    if c == v.count + 2 then None
    else if !IsFree(v, image, reserved, c) then FindFree(v, image, reserved, c + 1, n)
    else if n == 1 then Some([c])
    else Prepend([c], FindFree(v, image, reserved, c + 1, n - 1))
  }

  function FreeCount(v: Volume, image: seq<byte>, reserved: set<nat>, c: nat): nat
    requires v.FatByte(v.count + 2) <= |image| && c <= v.count + 2
    decreases v.count + 2 - c
  {
    if c == v.count + 2 then 0
    else (if IsFree(v, image, reserved, c) then 1 else 0) + FreeCount(v, image, reserved, c + 1)
  }

  /** `find_free_clusters` succeeds exactly when enough clusters are free. */
  lemma {:induction false} FindFreeIffEnough(v: Volume, image: seq<byte>, reserved: set<nat>, c: nat, n: nat)
    requires v.FatByte(v.count + 2) <= |image| && 2 <= c <= v.count + 2 && n > 0
    ensures FindFree(v, image, reserved, c, n).Some? <==> FreeCount(v, image, reserved, c) >= n
    decreases v.count + 2 - c
  {
    hide IsFree;
    if c == v.count + 2 {
    } else {
      if !IsFree(v, image, reserved, c) {
        FindFreeIffEnough(v, image, reserved, c + 1, n);
      } else if n > 1 {
        FindFreeIffEnough(v, image, reserved, c + 1, n - 1);
      }
    }
  }

  /** It returns the lowest free clusters, in increasing order. */
  lemma {:induction false} FindFreeTakesLowest(v: Volume, image: seq<byte>, reserved: set<nat>, c: nat, n: nat)
    requires v.FatByte(v.count + 2) <= |image| && 2 <= c <= v.count + 2 && n > 0
    requires FindFree(v, image, reserved, c, n).Some?
    ensures var cs := FindFree(v, image, reserved, c, n).value;
            && |cs| == n
            && (forall i :: 0 <= i < n ==> c <= cs[i] && v.IsCluster(cs[i]) && IsFree(v, image, reserved, cs[i]))
            && (forall i, j :: 0 <= i < j < n ==> cs[i] < cs[j])
            && (forall d :: c <= d < cs[n - 1] && d !in cs ==> !IsFree(v, image, reserved, d))
    decreases v.count + 2 - c
  {
    hide IsFree;
    if !IsFree(v, image, reserved, c) {
      FindFreeTakesLowest(v, image, reserved, c + 1, n);
    } else if n > 1 {
      FindFreeTakesLowest(v, image, reserved, c + 1, n - 1);
    }
  }

  // ----- chains

  function Successor(cs: seq<nat>, i: nat): nat { if i + 1 < |cs| then cs[i + 1] else EOC }

  /** `set_chain` from the `i`-th cluster on. */
  function SetChain(v: Volume, image: seq<byte>, cs: seq<nat>, i: nat): (r: seq<byte>)
    requires i <= |cs| && forall k :: 0 <= k < |cs| ==> v.FatByte(cs[k]) + 4 <= |image| && cs[k] < TWO32
    ensures |r| == |image|
    decreases |cs| - i
  {
    if i == |cs| then image
    else SetChain(v, Splice(image, v.FatByte(cs[i]), Bytes32(Successor(cs, i))), cs, i + 1)
  }

  /** FAT entries other than those of `cs` and all bytes outside the FAT stay as they were. */
  lemma {:induction false} SetChainFrame(v: Volume, image: seq<byte>, cs: seq<nat>, i: nat, k: nat)
    requires i <= |cs| && forall j :: 0 <= j < |cs| ==> v.FatByte(cs[j]) + 4 <= |image| && cs[j] < TWO32
    requires k < |image| && forall j :: i <= j < |cs| ==> k < v.FatByte(cs[j]) || v.FatByte(cs[j]) + 4 <= k
    ensures SetChain(v, image, cs, i)[k] == image[k]
    decreases |cs| - i
  {
    if i == |cs| {
    } else {
      SpliceAt(image, v.FatByte(cs[i]), Bytes32(Successor(cs, i)));
      SetChainFrame(v, Splice(image, v.FatByte(cs[i]), Bytes32(Successor(cs, i))), cs, i + 1, k);
    }
  }

  lemma EntryFrame(v: Volume, a: seq<byte>, b: seq<byte>, c: nat)
    requires v.FatByte(c) + 4 <= |a| == |b|
    requires forall k :: v.FatByte(c) <= k < v.FatByte(c) + 4 ==> a[k] == b[k]
    ensures FatEntry(v, a, c) == FatEntry(v, b, c)
  {
    SameSlice(a, b, v.FatByte(c), v.FatByte(c) + 4);
    SameField(a, b, v.FatByte(c), v.FatByte(c));
  }

  /** `set_chain` links exactly the given clusters. */
  lemma {:induction false} SetChainLinks(v: Volume, image: seq<byte>, cs: seq<nat>, i: nat, k: nat)
    requires i <= k < |cs| && forall j :: 0 <= j < |cs| ==> v.FatByte(cs[j]) + 4 <= |image| && cs[j] < TWO32
    requires forall j, m :: 0 <= j < m < |cs| ==> cs[j] != cs[m]
    ensures FatEntry(v, SetChain(v, image, cs, i), cs[k]) == Successor(cs, k)
    decreases |cs| - i
  {
    var o := v.FatByte(cs[i]);
    var image' := Splice(image, o, Bytes32(Successor(cs, i)));
    if i < k {
      SetChainLinks(v, image', cs, i + 1, k);
    } else {
      SpliceAt(image, o, Bytes32(Successor(cs, i)));
      SameField(image', Bytes32(Successor(cs, i)), o, 0);
      forall b | o <= b < o + 4 ensures SetChain(v, image', cs, i + 1)[b] == image'[b] {
        SetChainFrame(v, image', cs, i + 1, b);
      }
      EntryFrame(v, SetChain(v, image', cs, i + 1), image', cs[i]);
    }
  }

  // ----- file data

  /** `max(1, ceil(len / cluster_bytes))`. */
  function Needed(v: Volume, len: nat): (n: nat)
    requires v.spc > 0
    ensures n > 0
    decreases len
  {
    if len <= v.ClusterBytes() then 1 else 1 + Needed(v, len - v.ClusterBytes())
  }

  function Zeros(n: nat): (z: seq<byte>)
    ensures |z| == n
  {
    seq(n, _ => 0)
  }

  /** One cluster's worth of data, padded with zeros. */
  function Padded(v: Volume, data: seq<byte>): (s: seq<byte>)
    ensures |s| == v.ClusterBytes()
  {
    var chunk := data[..Chunk(v.ClusterBytes(), data)];
    chunk + Zeros(v.ClusterBytes() - |chunk|)
  }

  /** The clusters of `write_file` from the `i`-th on. */
  function WriteClusters(v: Volume, image: seq<byte>, cs: seq<nat>, i: nat, data: seq<byte>): (r: seq<byte>)
    requires i <= |cs| && forall k :: 0 <= k < |cs| ==> v.Offset(cs[k]) + v.ClusterBytes() <= |image|
    ensures |r| == |image|
    decreases |cs| - i
  {
    if i == |cs| then image
    else WriteClusters(v, Splice(image, v.Offset(cs[i]), Padded(v, data)), cs, i + 1,
                       data[Chunk(v.ClusterBytes(), data)..])
  }

  /** The data of `n` clusters, padded. */
  function PaddedAll(v: Volume, data: seq<byte>, n: nat): (s: seq<byte>)
    ensures |s| == Span(v, n)
  {
    if n == 0 then [] else Padded(v, data) + PaddedAll(v, data[Chunk(v.ClusterBytes(), data)..], n - 1)
  }

  lemma {:induction false} PaddedPrefix(v: Volume, data: seq<byte>, n: nat)
    requires |data| <= Span(v, n)
    ensures data <= PaddedAll(v, data, n)
  {
    if n == 0 {
    } else {
      var take := Chunk(v.ClusterBytes(), data);
      PaddedPrefix(v, data[take..], n - 1);
      assert data == data[..take] + data[take..];
      if take == v.ClusterBytes() {
        assert Padded(v, data) == data[..take];
      }
    }
  }

  /** `Needed` clusters hold the data, and one fewer would not. */
  lemma {:induction false} NeededIsCeiling(v: Volume, len: nat)
    requires v.spc > 0
    ensures len <= Span(v, Needed(v, len))
    ensures len > 0 ==> len > Span(v, Needed(v, len) - 1)
    decreases len
  {
    if len > v.ClusterBytes() {
      NeededIsCeiling(v, len - v.ClusterBytes());
    } else {
      assert Span(v, 1) == v.ClusterBytes() + Span(v, 0);
    }
  }

  lemma {:induction false} WriteIsScatter(v: Volume, image: seq<byte>, cs: seq<nat>, i: nat, data: seq<byte>)
    requires v.spc > 0 && i <= |cs| && forall k :: 0 <= k < |cs| ==> v.Offset(cs[k]) + v.ClusterBytes() <= |image|
    ensures InDisk(image, Offsets(v, cs)[i..], v.ClusterBytes())
    ensures WriteClusters(v, image, cs, i, data) ==
            Scatter(image, Offsets(v, cs)[i..], v.ClusterBytes(), PaddedAll(v, data, |cs| - i))
    decreases |cs| - i
  {
    hide Volume.Offset;
    if i == |cs| {
    } else {
      var unit, offs, take := v.ClusterBytes(), Offsets(v, cs), Chunk(v.ClusterBytes(), data);
      var head, rest := Padded(v, data), PaddedAll(v, data[take..], |cs| - i - 1);
      WriteIsScatter(v, Splice(image, v.Offset(cs[i]), head), cs, i + 1, data[take..]);
      assert (head + rest)[..unit] == head && (head + rest)[unit..] == rest;
      assert offs[i..][0] == v.Offset(cs[i]) && offs[i..][1..] == offs[i + 1..];
    }
  }

  // ----- one file

  /** The image after `write_file` has allocated `cs` for `data`. */
  function Store(v: Volume, image: seq<byte>, cs: seq<nat>, data: seq<byte>): (r: seq<byte>)
    requires forall k :: 0 <= k < |cs| ==> v.FatByte(cs[k]) + 4 <= |image| && cs[k] < TWO32
    requires forall k :: 0 <= k < |cs| ==> v.Offset(cs[k]) + v.ClusterBytes() <= |image|
    ensures |r| == |image|
  {
    WriteClusters(v, SetChain(v, image, cs, 0), cs, 0, data)
  }

  /** Cluster `c` and its FAT entry are the same in both images. */
  ghost predicate SameCluster(v: Volume, a: seq<byte>, b: seq<byte>, c: nat)
  {
    && v.FatByte(c) + 4 <= |a| == |b| && v.Offset(c) + v.ClusterBytes() <= |a|
    && FatEntry(v, a, c) == FatEntry(v, b, c)
    && Unit(a, v.Offset(c), v.ClusterBytes()) == Unit(b, v.Offset(c), v.ClusterBytes())
  }

  ghost predicate Distinct(v: Volume, cs: seq<nat>)
  {
    && cs != []
    && (forall i :: 0 <= i < |cs| ==> v.IsCluster(cs[i]))
    && (forall i, j :: 0 <= i < j < |cs| ==> cs[i] != cs[j])
  }

  /** No cluster in common. */
  ghost predicate Disjoint(a: seq<nat>, b: seq<nat>) { forall i :: 0 <= i < |b| ==> b[i] !in a }

  lemma ClusterBounds(v: Volume, image: seq<byte>, cs: seq<nat>)
    requires Fits(v, image) && Distinct(v, cs)
    ensures forall k :: 0 <= k < |cs| ==> v.FatByte(cs[k]) + 4 <= |image| && cs[k] < TWO32
    ensures forall k :: 0 <= k < |cs| ==>
              v.heapLba * SECTOR <= v.Offset(cs[k]) && v.Offset(cs[k]) + v.ClusterBytes() <= |image|
  {
    forall k | 0 <= k < |cs|
      ensures v.FatByte(cs[k]) + 4 <= |image| && v.heapLba * SECTOR <= v.Offset(cs[k])
              && v.Offset(cs[k]) + v.ClusterBytes() <= |image|
    {
      OffsetBounds(v, image, cs[k]);
    }
  }

  /** Cluster writes stay above the FAT. */
  lemma DataBelowHeap(v: Volume, image: seq<byte>, cs: seq<nat>, data: seq<byte>)
    requires Fits(v, image) && Distinct(v, cs)
    requires forall k :: 0 <= k < |cs| ==> v.Offset(cs[k]) + v.ClusterBytes() <= |image|
    ensures WriteClusters(v, image, cs, 0, data)[..v.heapLba * SECTOR] == image[..v.heapLba * SECTOR]
  {
    ClusterBounds(v, image, cs);
    WriteIsScatter(v, image, cs, 0, data);
    var offs, h := Offsets(v, cs), v.heapLba * SECTOR;
    assert offs[0..] == offs && h <= |image|;
    hide Volume.Offset, WriteClusters, PaddedAll, Fits;
    var padded := PaddedAll(v, data, |cs|);
    forall k | 0 <= k < h ensures Scatter(image, offs, v.ClusterBytes(), padded)[k] == image[k] {
      ScatterFrame(image, offs, v.ClusterBytes(), padded, k);
    }
    SameSlice(Scatter(image, offs, v.ClusterBytes(), padded), image, 0, h);
  }

  /** After `Store`, the clusters form a chain. */
  lemma StoreChain(v: Volume, image: seq<byte>, cs: seq<nat>, data: seq<byte>)
    requires Fits(v, image) && Distinct(v, cs)
    requires forall k :: 0 <= k < |cs| ==> v.FatByte(cs[k]) + 4 <= |image| && cs[k] < TWO32
    requires forall k :: 0 <= k < |cs| ==> v.Offset(cs[k]) + v.ClusterBytes() <= |image|
    ensures Fits(v, Store(v, image, cs, data)) && IsChain(v, Store(v, image, cs, data), cs)
  {
    var linked := SetChain(v, image, cs, 0);
    var stored := Store(v, image, cs, data);
    DataBelowHeap(v, linked, cs, data);
    forall i | 0 <= i < |cs|
      ensures FatEntry(v, stored, cs[i]) == Successor(cs, i)
    {
      SetChainLinks(v, image, cs, 0, i);
      SameEntry(v, linked, stored, cs[i]);
    }
  }

  /** What `WriteClusters` wrote is what the clusters hold. */
  lemma WrittenContents(v: Volume, image: seq<byte>, cs: seq<nat>, data: seq<byte>)
    requires v.spc > 0 && forall k :: 0 <= k < |cs| ==> v.Offset(cs[k]) + v.ClusterBytes() <= |image|
    requires Apart(Offsets(v, cs), v.ClusterBytes())
    ensures InDisk(WriteClusters(v, image, cs, 0, data), Offsets(v, cs), v.ClusterBytes())
    ensures Gather(WriteClusters(v, image, cs, 0, data), Offsets(v, cs), v.ClusterBytes()) == PaddedAll(v, data, |cs|)
  {
    hide WriteClusters, Volume.Offset, Apart, PaddedAll;
    var offs, unit, padded := Offsets(v, cs), v.ClusterBytes(), PaddedAll(v, data, |cs|);
    WriteIsScatter(v, image, cs, 0, data);
    assert offs[0..] == offs;
    GatherSpan(v, image, cs);
    ReadBack(image, offs, unit, padded);
    assert padded + [] == padded;
  }

  /** The stored chain reads as the data, zero-padded. */
  lemma StoreContents(v: Volume, image: seq<byte>, cs: seq<nat>, data: seq<byte>)
    requires Fits(v, image) && Distinct(v, cs) && |data| <= Span(v, |cs|)
    requires forall k :: 0 <= k < |cs| ==> v.FatByte(cs[k]) + 4 <= |image| && cs[k] < TWO32
    requires forall k :: 0 <= k < |cs| ==> v.Offset(cs[k]) + v.ClusterBytes() <= |image|
    ensures Fits(v, Store(v, image, cs, data)) && IsChain(v, Store(v, image, cs, data), cs)
    ensures ChainBytes(v, Store(v, image, cs, data), cs) == PaddedAll(v, data, |cs|)
    ensures data <= ChainBytes(v, Store(v, image, cs, data), cs)
  {
    StoreChain(v, image, cs, data);
    assert v.spc > 0;
    hide Fits, IsChain, SetChain, WriteClusters, Volume.Offset, InDisk, Apart, PaddedAll, Distinct;
    OffsetsApart(v, Store(v, image, cs, data), cs);
    WrittenContents(v, SetChain(v, image, cs, 0), cs, data);
    PaddedPrefix(v, data, |cs|);
  }

  lemma GatherSpan(v: Volume, disk: seq<byte>, cs: seq<nat>)
    requires v.spc > 0 && forall k :: 0 <= k < |cs| ==> v.Offset(cs[k]) + v.ClusterBytes() <= |disk|
    ensures InDisk(disk, Offsets(v, cs), v.ClusterBytes())
    ensures |Gather(disk, Offsets(v, cs), v.ClusterBytes())| == Span(v, |cs|)
  {
    GatherLength(disk, Offsets(v, cs), v.ClusterBytes());
  }

  lemma LinksKeepEntry(v: Volume, image: seq<byte>, cs: seq<nat>, c: nat)
    requires c !in cs && v.FatByte(c) + 4 <= |image|
    requires forall k :: 0 <= k < |cs| ==> v.FatByte(cs[k]) + 4 <= |image| && cs[k] < TWO32
    ensures FatEntry(v, SetChain(v, image, cs, 0), c) == FatEntry(v, image, c)
  {
    hide SetChain, FatEntry;
    forall b | v.FatByte(c) <= b < v.FatByte(c) + 4 ensures SetChain(v, image, cs, 0)[b] == image[b] {
      forall k | 0 <= k < |cs| ensures b < v.FatByte(cs[k]) || v.FatByte(cs[k]) + 4 <= b {
        assert cs[k] != c;
      }
      SetChainFrame(v, image, cs, 0, b);
    }
    EntryFrame(v, image, SetChain(v, image, cs, 0), c);
  }

  lemma LinksKeepHeap(v: Volume, image: seq<byte>, cs: seq<nat>, lo: nat, hi: nat)
    requires v.heapLba * SECTOR <= lo <= hi <= |image|
    requires forall k :: 0 <= k < |cs| ==> v.FatByte(cs[k]) + 4 <= v.heapLba * SECTOR && cs[k] < TWO32
    ensures SetChain(v, image, cs, 0)[lo..hi] == image[lo..hi]
  {
    hide SetChain;
    forall b | lo <= b < hi ensures SetChain(v, image, cs, 0)[b] == image[b] {
      SetChainFrame(v, image, cs, 0, b);
    }
  }

  /** Linking writes only the FAT entries of `cs`. */
  lemma LinksElsewhere(v: Volume, image: seq<byte>, cs: seq<nat>, c: nat)
    requires Fits(v, image) && Distinct(v, cs) && v.IsCluster(c) && c !in cs
    requires forall k :: 0 <= k < |cs| ==> v.FatByte(cs[k]) + 4 <= |image| && cs[k] < TWO32
    ensures SameCluster(v, image, SetChain(v, image, cs, 0), c)
  {
    hide Volume.Offset, Fits, FatEntry, SetChain, Volume.FatByte, Unit;
    OffsetBounds(v, image, c);
    LinksKeepEntry(v, image, cs, c);
    LinksKeepCluster(v, image, cs, c);
  }

  lemma LinksKeepCluster(v: Volume, image: seq<byte>, cs: seq<nat>, c: nat)
    requires Fits(v, image) && Distinct(v, cs) && v.IsCluster(c)
    requires forall k :: 0 <= k < |cs| ==> v.FatByte(cs[k]) + 4 <= |image| && cs[k] < TWO32
    ensures v.Offset(c) + v.ClusterBytes() <= |image|
    ensures Unit(SetChain(v, image, cs, 0), v.Offset(c), v.ClusterBytes()) == Unit(image, v.Offset(c), v.ClusterBytes())
  {
    hide Volume.Offset, Fits, SetChain, Volume.FatByte;
    OffsetBounds(v, image, c);
    forall k | 0 <= k < |cs| ensures v.FatByte(cs[k]) + 4 <= v.heapLba * SECTOR {
      OffsetBounds(v, image, cs[k]);
    }
    LinksKeepHeap(v, image, cs, v.Offset(c), v.Offset(c) + v.ClusterBytes());
  }

  /** File data goes only to the clusters of `cs`. */
  lemma DataElsewhere(v: Volume, image: seq<byte>, cs: seq<nat>, data: seq<byte>, c: nat)
    requires Fits(v, image) && Distinct(v, cs) && v.IsCluster(c) && c !in cs
    requires forall k :: 0 <= k < |cs| ==> v.Offset(cs[k]) + v.ClusterBytes() <= |image|
    ensures SameCluster(v, image, WriteClusters(v, image, cs, 0, data), c)
  {
    var stored, unit := WriteClusters(v, image, cs, 0, data), v.ClusterBytes();
    OffsetBounds(v, image, c);
    DataBelowHeap(v, image, cs, data);
    SameEntry(v, image, stored, c);
    forall i | 0 <= i < |cs| ensures v.Offset(cs[i]) + unit <= v.Offset(c) || v.Offset(c) + unit <= v.Offset(cs[i]) {
      ClustersApart(v, cs[i], c);
    }
    WriteIsScatter(v, image, cs, 0, data);
    assert Offsets(v, cs)[0..] == Offsets(v, cs);
    hide WriteClusters, PaddedAll, Fits, FatEntry, Volume.Offset;
    ScatterElsewhere(image, Offsets(v, cs), unit, PaddedAll(v, data, |cs|), v.Offset(c));
  }

  /** `Store` touches no cluster outside `cs`, neither its data nor its FAT entry. */
  lemma StoreFrame(v: Volume, image: seq<byte>, cs: seq<nat>, data: seq<byte>, c: nat)
    requires Fits(v, image) && Distinct(v, cs) && v.IsCluster(c) && c !in cs
    requires forall k :: 0 <= k < |cs| ==> v.FatByte(cs[k]) + 4 <= |image| && cs[k] < TWO32
    requires forall k :: 0 <= k < |cs| ==> v.Offset(cs[k]) + v.ClusterBytes() <= |image|
    ensures SameCluster(v, image, Store(v, image, cs, data), c)
  {
    LinksElsewhere(v, image, cs, c);
    DataElsewhere(v, SetChain(v, image, cs, 0), cs, data, c);
  }

  // ----- the builder, and every run of it

  /** The image and the clusters set aside so far. */
  datatype Image = Image(bytes: seq<byte>, reserved: set<nat>)

  /** A file the builder wrote: where, and what. */
  datatype File = File(chain: seq<nat>, data: seq<byte>)

  /** Enough of `Fits` to run the builder. */
  lemma FitsTable(v: Volume, image: seq<byte>)
    requires Fits(v, image)
    ensures v.FatByte(v.count + 2) <= |image| && v.spc > 0
  {
    MulMono(0, v.count, v.spc);
  }

  lemma Found(v: Volume, s: Image, n: nat)
    requires Fits(v, s.bytes) && n > 0 && v.FatByte(v.count + 2) <= |s.bytes|
    requires FindFree(v, s.bytes, s.reserved, 2, n).Some?
    ensures var cs := FindFree(v, s.bytes, s.reserved, 2, n).value;
            && |cs| == n && Distinct(v, cs)
            && (forall k :: 0 <= k < |cs| ==> v.FatByte(cs[k]) + 4 <= |s.bytes| && cs[k] < TWO32)
            && (forall k :: 0 <= k < |cs| ==> v.Offset(cs[k]) + v.ClusterBytes() <= |s.bytes|)
            && (forall k :: 0 <= k < |cs| ==> IsFree(v, s.bytes, s.reserved, cs[k]))
  {
    FindFreeTakesLowest(v, s.bytes, s.reserved, 2, n);
    ClusterBounds(v, s.bytes, FindFree(v, s.bytes, s.reserved, 2, n).value);
  }

  /** `write_file`, and `write_dir` as the file without data: `None` when the clusters run out. */
  ghost function Put(v: Volume, s: Image, data: seq<byte>): Option<(Image, File)>
    requires Fits(v, s.bytes)
  {
    FitsTable(v, s.bytes);
    var n := Needed(v, |data|);
    match FindFree(v, s.bytes, s.reserved, 2, n)
    case None => None
    case Some(cs) =>
      Found(v, s, n);
      Some((Image(Store(v, s.bytes, cs, data), s.reserved + set c | c in cs), File(cs, data)))
  }

  /** The file is on the image: a chain of its own length that starts with the data. */
  ghost predicate OnImage(v: Volume, bytes: seq<byte>, f: File)
  {
    && Fits(v, bytes) && IsChain(v, bytes, f.chain)
    && |f.chain| == Needed(v, |f.data|)
    && f.data <= ChainBytes(v, bytes, f.chain)
  }

  /** In use before a step: set aside, or with a nonzero FAT entry. */
  ghost predicate InUse(v: Volume, s: Image, c: nat)
  {
    v.IsCluster(c) && v.FatByte(c) + 4 <= |s.bytes| && !IsFree(v, s.bytes, s.reserved, c)
  }

  lemma PutStep(v: Volume, s: Image, data: seq<byte>)
    requires Fits(v, s.bytes) && Put(v, s, data).Some?
    ensures var (t, f) := Put(v, s, data).value;
            && f.data == data && OnImage(v, t.bytes, f) && |t.bytes| == |s.bytes|
            && s.reserved <= t.reserved && (forall i :: 0 <= i < |f.chain| ==> f.chain[i] in t.reserved)
            && (forall c :: InUse(v, s, c) ==> c !in f.chain && SameCluster(v, s.bytes, t.bytes, c) && InUse(v, t, c))
  {
    FitsTable(v, s.bytes);
    var n := Needed(v, |data|);
    Found(v, s, n);
    var (t, f) := Put(v, s, data).value;
    NeededIsCeiling(v, |data|);
    StoreContents(v, s.bytes, f.chain, data);
    forall c | InUse(v, s, c)
      ensures c !in f.chain && SameCluster(v, s.bytes, t.bytes, c) && InUse(v, t, c)
    {
      StoreFrame(v, s.bytes, f.chain, data, c);
    }
  }

  /** All files in order; `None` if one does not fit. */
  ghost function PutAll(v: Volume, s: Image, datas: seq<seq<byte>>): Option<(Image, seq<File>)>
    requires Fits(v, s.bytes)
    decreases |datas|
  {
    if datas == [] then Some((s, []))
    else
      match Put(v, s, datas[0])
      case None => None
      case Some(r) =>
        PutStep(v, s, datas[0]);
        match PutAll(v, r.0, datas[1..])
        case None => None
        case Some(rest) => Some((rest.0, [r.1] + rest.1))
  }

  /** A chain all of whose clusters are unchanged is still that chain, with the same bytes. */
  lemma SameClustersSameChain(v: Volume, a: seq<byte>, b: seq<byte>, cs: seq<nat>)
    requires Fits(v, a) && IsChain(v, a, cs) && |b| == |a|
    requires forall i :: 0 <= i < |cs| ==> SameCluster(v, a, b, cs[i])
    ensures Fits(v, b) && IsChain(v, b, cs) && ChainBytes(v, b, cs) == ChainBytes(v, a, cs)
  {
    forall i | 0 <= i < |cs| ensures FatEntry(v, b, cs[i]) == FatEntry(v, a, cs[i]) {
      assert SameCluster(v, a, b, cs[i]);
    }
    OffsetsApart(v, a, cs);
    OffsetsApart(v, b, cs);
    var offs, unit := Offsets(v, cs), v.ClusterBytes();
    forall i | 0 <= i < |offs| ensures Unit(a, offs[i], unit) == Unit(b, offs[i], unit) {
      assert SameCluster(v, a, b, cs[i]);
    }
    GatherFrame(a, b, offs, unit);
  }

  /** What a run leaves: every file on the image, no two sharing a cluster, and all that was in use untouched. */
  ghost predicate RunOk(v: Volume, s: Image, t: Image, files: seq<File>)
  {
    && |t.bytes| == |s.bytes|
    && (forall i :: 0 <= i < |files| ==> OnImage(v, t.bytes, files[i]))
    && (forall i, j, k :: 0 <= i < j < |files| && 0 <= k < |files[i].chain| ==> files[i].chain[k] !in files[j].chain)
    && (forall c, i :: InUse(v, s, c) && 0 <= i < |files| ==> c !in files[i].chain)
    && (forall c :: InUse(v, s, c) ==> SameCluster(v, s.bytes, t.bytes, c))
  }

  /** Over every sequence of files and directories written to the image. */
  lemma {:induction false} BuilderRun(v: Volume, s: Image, datas: seq<seq<byte>>)
    requires Fits(v, s.bytes) && PutAll(v, s, datas).Some?
    ensures var (t, files) := PutAll(v, s, datas).value;
            && RunOk(v, s, t, files)
            && |files| == |datas| && forall i :: 0 <= i < |datas| ==> files[i].data == datas[i]
    decreases |datas|
  {
    if datas == [] {
      forall c | InUse(v, s, c) ensures SameCluster(v, s.bytes, s.bytes, c) {
        OffsetBounds(v, s.bytes, c);
      }
    } else {
      PutStep(v, s, datas[0]);
      var (m, f) := Put(v, s, datas[0]).value;
      BuilderRun(v, m, datas[1..]);
      var (t, rest) := PutAll(v, m, datas[1..]).value;
      FirstFileStays(v, s, m, t, f, rest);
    }
  }

  lemma FirstFileStays(v: Volume, s: Image, m: Image, t: Image, f: File, rest: seq<File>)
    requires OnImage(v, m.bytes, f) && |m.bytes| == |s.bytes|
    requires forall i :: 0 <= i < |f.chain| ==> f.chain[i] in m.reserved
    requires forall c :: InUse(v, s, c) ==> c !in f.chain && SameCluster(v, s.bytes, m.bytes, c) && InUse(v, m, c)
    requires RunOk(v, m, t, rest)
    ensures RunOk(v, s, t, [f] + rest)
  {
    forall i | 0 <= i < |f.chain| ensures InUse(v, m, f.chain[i]) {
      OffsetBounds(v, m.bytes, f.chain[i]);
    }
    SameClustersSameChain(v, m.bytes, t.bytes, f.chain);
    forall c | InUse(v, s, c) ensures SameCluster(v, s.bytes, t.bytes, c) {
      assert SameCluster(v, s.bytes, m.bytes, c) && SameCluster(v, m.bytes, t.bytes, c);
    }
  }

  /**
   The kernel's side of the round trip: a file on the image reads back byte for
   byte exactly when it is empty or its chain avoids cluster `count + 1`.
   */
  lemma KernelReadsFile(v: Volume, bytes: seq<byte>, f: File)
    requires OnImage(v, bytes, f)
    ensures f.chain != []
    ensures f.data == [] || Readable(v, f.chain) ==> Collect(v, bytes, f.chain[0], |f.data|) == Some(f.data)
    ensures !(f.data == [] || Readable(v, f.chain)) ==> Collect(v, bytes, f.chain[0], |f.data|) == None
  {
    assert v.spc > 0 && (f.data == [] ==> Collect(v, bytes, f.chain[0], 0) == Some([]));
    hide Fits, IsChain, Collect, Volume.Offset, TailBytes, InDisk;
    if Readable(v, f.chain) {
      CollectChain(v, bytes, f.chain, 0, |f.data|);
      TailIsGather(v, bytes, f.chain, 0);
      assert Offsets(v, f.chain)[0..] == Offsets(v, f.chain);
      PrefixCut(f.data, ChainBytes(v, bytes, f.chain));
    } else if f.data != [] {
      var bad :| 0 <= bad < |f.chain| && f.chain[bad] > v.count;
      NeededIsCeiling(v, |f.data|);
      SpanMono(v, bad, |f.chain| - 1);
      CollectRejects(v, bytes, f.chain, 0, |f.data|, bad);
    }
  }

  lemma PrefixCut(a: seq<byte>, b: seq<byte>)
    requires a <= b
    ensures Cut(b, |a|) == a
  {
  }

  lemma {:induction false} SpanMono(v: Volume, a: nat, b: nat)
    requires a <= b
    ensures Span(v, a) <= Span(v, b)
  {
    if a == b {
    } else {
      SpanMono(v, a, b - 1);
    }
  }

  lemma RejectedCluster(v: Volume, bytes: seq<byte>, f: File)
    requires OnImage(v, bytes, f)
    ensures Readable(v, f.chain) <==> v.count + 1 !in f.chain
  {
    assert forall i :: 0 <= i < |f.chain| ==> v.IsCluster(f.chain[i]);
  }

  // ----- the builder's own code

  lemma SetChainStep(v: Volume, image: seq<byte>, cs: seq<nat>, i: nat)
    requires i < |cs| && forall k :: 0 <= k < |cs| ==> v.FatByte(cs[k]) + 4 <= |image| && cs[k] < TWO32
    ensures SetChain(v, image, cs, i) ==
            SetChain(v, Splice(image, v.FatByte(cs[i]), Bytes32(Successor(cs, i))), cs, i + 1)
  {
  }

  /** The image bytearray and the reserved set, updated in place. */
  class Builder {
    const v: Volume
    var image: seq<byte>
    var reserved: set<nat>

    function Value(): Image
      reads this
    {
      Image(image, reserved)
    }

    /** `find_free_clusters`; `None` is the RuntimeError. */
    method FindFreeClusters(count: nat) returns (r: Option<seq<nat>>)
      requires v.FatByte(v.count + 2) <= |image| && count > 0
      ensures r == FindFree(v, image, reserved, 2, count)
    {
      hide IsFree;
      var found: seq<nat> := [];
      for cluster := 2 to v.count + 2
        invariant |found| < count
        invariant Prepend(found, FindFree(v, image, reserved, cluster, count - |found|)) ==
                  FindFree(v, image, reserved, 2, count)
      {
        if IsFree(v, image, reserved, cluster) {
          if |found| + 1 == count {
            return Some(found + [cluster]);
          }
          PrependTwice(found, [cluster], FindFree(v, image, reserved, cluster + 1, count - |found| - 1));
          found := found + [cluster];
        }
      }
      return None;
    }

    /** `set_chain`. */
    method LinkClusters(cs: seq<nat>)
      requires forall k :: 0 <= k < |cs| ==> v.FatByte(cs[k]) + 4 <= |image| && cs[k] < TWO32
      modifies `image
      ensures image == SetChain(v, old(image), cs, 0)
    {
      hide Splice;
      for i := 0 to |cs|
        invariant |image| == |old(image)|
        invariant SetChain(v, image, cs, i) == SetChain(v, old(image), cs, 0)
      {
        SetChainStep(v, image, cs, i);
        var next := if i + 1 == |cs| then EOC else cs[i + 1];
        image := Splice(image, v.FatByte(cs[i]), Bytes32(next));
      }
    }

    /** The cluster loop of `write_file`. */
    method WriteChunks(cs: seq<nat>, data: seq<byte>)
      requires forall k :: 0 <= k < |cs| ==> v.Offset(cs[k]) + v.ClusterBytes() <= |image|
      modifies `image
      ensures image == WriteClusters(v, old(image), cs, 0, data)
    {
      hide Splice, Volume.Offset;
      var rest := data;
      for i := 0 to |cs|
        invariant |image| == |old(image)|
        invariant WriteClusters(v, image, cs, i, rest) == WriteClusters(v, old(image), cs, 0, data)
      {
        image := Splice(image, v.Offset(cs[i]), Padded(v, rest));
        rest := rest[Chunk(v.ClusterBytes(), rest)..];
      }
    }

    /** `write_file`: the first cluster and the length, or the RuntimeError. */
    method WriteFile(data: seq<byte>) returns (r: Option<(nat, nat)>)
      requires Fits(v, image)
      modifies this
      ensures var p := Put(v, old(Value()), data);
              if p.None? then r == None && Value() == old(Value())
              else Value() == p.value.0 && p.value.1.chain != [] && r == Some((p.value.1.chain[0], |data|))
    {
      FitsTable(v, image);
      var n := Needed(v, |data|);
      var clusters := FindFreeClusters(n);
      if clusters.None? {
        return None;
      }
      var cs := clusters.value;
      Found(v, Value(), n);
      hide FindFree, SetChain, WriteClusters, Fits, Volume.Offset;
      reserved := reserved + set c | c in cs;
      LinkClusters(cs);
      WriteChunks(cs, data);
      return Some((cs[0], |data|));
    }

    /** `write_dir`: one zeroed cluster, the same effect as a file without data. */
    method WriteDir() returns (r: Option<nat>)
      requires Fits(v, image)
      modifies this
      ensures var p := Put(v, old(Value()), []);
              if p.None? then r == None && Value() == old(Value())
              else Value() == p.value.0 && p.value.1.chain != [] && r == Some(p.value.1.chain[0])
    {
      FitsTable(v, image);
      assert Needed(v, 0) == 1;
      var clusters := FindFreeClusters(1);
      if clusters.None? {
        return None;
      }
      Found(v, Value(), 1);
      var c := clusters.value[0];
      assert clusters.value == [c];
      EmptyStore(v, image, c);
      hide FindFree, SetChain, WriteClusters, Fits, Volume.Offset, Splice;
      reserved := reserved + {c};
      LinkClusters([c]);
      image := Splice(image, v.Offset(c), Zeros(v.ClusterBytes()));
      assert (set d | d in [c]) == {c};
      return Some(c);
    }
  }

  lemma EmptyStore(v: Volume, image: seq<byte>, c: nat)
    requires v.FatByte(c) + 4 <= |image| && c < TWO32 && v.Offset(c) + v.ClusterBytes() <= |image|
    ensures Store(v, image, [c], []) == Splice(SetChain(v, image, [c], 0), v.Offset(c), Zeros(v.ClusterBytes()))
  {
    hide Splice, SetChain, Volume.Offset;
    var linked := SetChain(v, image, [c], 0);
    assert Padded(v, []) == Zeros(v.ClusterBytes()) by {
      assert [] + Zeros(v.ClusterBytes()) == Zeros(v.ClusterBytes());
    }
    var stored := Splice(linked, v.Offset(c), Padded(v, []));
    assert WriteClusters(v, stored, [c], 1, []) == stored;
    assert WriteClusters(v, linked, [c], 0, []) == WriteClusters(v, stored, [c], 1, []);
  }
}
