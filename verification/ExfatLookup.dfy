/**
 Directories end to end: the builder appends entry sets to a directory cluster
 (`populate_exfat.py`), the kernel lists the directory and looks names up (`exfat.c`).
 */
module ExfatLookup {
  import opened Words
  import opened Bytes
  import opened FileData
  import opened Exfat
  import opened ExfatTool
  import opened ExfatDirectory

  // ----- the builder's append

  /** The bytes of a directory kept in one cluster. */
  function Directory(v: Volume, image: seq<byte>, c: nat): seq<byte>
    requires v.Offset(c) + v.ClusterBytes() <= |image|
  {
    Unit(image, v.Offset(c), v.ClusterBytes())
  }

  lemma SpliceInside(image: seq<byte>, o: nat, len: nat, slot: nat, s: seq<byte>)
    requires o + len <= |image| && slot + |s| <= len
    ensures Splice(image, o, Splice(image[o..o + len], slot, s)) == Splice(image, o + slot, s)
  {
    SpliceAt(image[o..o + len], slot, s);
    SpliceAt(image, o, Splice(image[o..o + len], slot, s));
    SpliceAt(image, o + slot, s);
  }

  lemma AppendedInside(image: seq<byte>, o: nat, len: nat, slot: nat, s: seq<byte>)
    requires o + len <= |image| && slot + |s| <= len
    ensures var written := Splice(image, o + slot, s);
            Splice(image, o, Appended(image[o..o + len], slot, s)) ==
            if slot + |s| < len then written[o + slot + |s| := 0] else written
  {
    SpliceInside(image, o, len, slot, s);
    var buf := Splice(image[o..o + len], slot, s);
    SpliceAt(image, o, buf);
    SpliceAt(image, o, Appended(image[o..o + len], slot, s));
  }

  /** `append_entries`: a scan for the end marker, then the entry set and a new marker. */
  method AppendEntries(b: Builder, rootOff: nat, clusterBytes: nat, entries: seq<byte>) returns (ok: bool)
    requires rootOff + clusterBytes <= |b.image| && |entries| >= ENTRY
    modifies b`image
    ensures var dir := old(b.image)[rootOff..rootOff + clusterBytes];
            var slot := FreeSlot(dir, 0, |entries|);
            && ok == slot.Some?
            && (!ok ==> b.image == old(b.image))
            && (ok ==> slot.value + |entries| <= clusterBytes
                       && b.image == Splice(old(b.image), rootOff, Appended(dir, slot.value, entries)))
  {
    hide Splice, Appended;
    ghost var dir := b.image[rootOff..rootOff + clusterBytes];
    var off := 0;
    while off + |entries| <= clusterBytes
      invariant b.image == old(b.image)
      invariant FreeSlot(dir, off, |entries|) == FreeSlot(dir, 0, |entries|)
      decreases clusterBytes - off
    {
      assert b.image[rootOff + off] == dir[off] && b.image[rootOff + off + 1] == dir[off + 1];
      if b.image[rootOff + off] == 0 {
        AppendedInside(b.image, rootOff, clusterBytes, off, entries);
        b.image := Splice(b.image, rootOff + off, entries);
        if off + |entries| < clusterBytes {
          b.image := b.image[rootOff + off + |entries| := 0];
        }
        return true;
      }
      if b.image[rootOff + off] == 0x85 {
        var secondary: nat := b.image[rootOff + off + 1];
        off := off + ENTRY * (secondary + 1);
      } else {
        off := off + ENTRY;
      }
    }
    return false;
  }

  // ----- the kernel's listing

  function Take(s: seq<Entry>, n: nat): seq<Entry> { if |s| <= n then s else s[..n] }

  /**
   All entries of a directory chain from its `i`-th cluster on, up to the end marker or a
   cluster the kernel rejects.
   */
  ghost function ListChain(v: Volume, disk: seq<byte>, cs: seq<nat>, i: nat): seq<Entry>
    requires i <= |cs|
    decreases |cs| - i
  {
    if i == |cs| then []
    else
      match ReadCluster(v, disk, cs[i])
      case None => []
      case Some(buf) => List(buf, 0).0 + if List(buf, 0).1 then [] else ListChain(v, disk, cs, i + 1)
  }

  /** What is still to be listed from offset `off` of cluster `i`. */
  ghost function Remaining(v: Volume, disk: seq<byte>, cs: seq<nat>, i: nat, buf: seq<byte>, off: nat): seq<Entry>
    requires i < |cs|
  {
    List(buf, off).0 + if List(buf, off).1 then [] else ListChain(v, disk, cs, i + 1)
  }

  lemma RemainingStep(v: Volume, disk: seq<byte>, cs: seq<nat>, i: nat, buf: seq<byte>, off: nat, out: seq<Entry>)
    requires i < |cs| && off < |buf| && buf[off] != 0
    ensures match Parse(buf, off)
            case None => Remaining(v, disk, cs, i, buf, off) == Remaining(v, disk, cs, i, buf, off + ENTRY)
            case Some(e) =>
              out + Remaining(v, disk, cs, i, buf, off) ==
              (out + [e]) + Remaining(v, disk, cs, i, buf, off + SetLength(buf, off))
  {
    hide Parse, ListChain;
    var p := Parse(buf, off);
    if p.Some? {
      var next := off + SetLength(buf, off);
      var tail := if List(buf, next).1 then [] else ListChain(v, disk, cs, i + 1);
      var l := List(buf, next).0;
      assert out + (([p.value] + l) + tail) == (out + [p.value]) + (l + tail);
    }
  }

  /** The inner loop of `list_cluster`: entries of one cluster until the marker, the end or the limit. */
  method ListOne(v: Volume, disk: seq<byte>, ghost cs: seq<nat>, ghost i: nat, buf: seq<byte>, have: seq<Entry>,
                 max: nat)
      returns (out: seq<Entry>, done: bool)
    requires i < |cs| && |have| < max
    ensures |out| <= max
    ensures Take(have + Remaining(v, disk, cs, i, buf, 0), max) ==
            if done || |out| == max then out else Take(out + ListChain(v, disk, cs, i + 1), max)
  {
    hide Parse, ListChain;
    out := have;
    var off := 0;
    ghost var goal := Take(have + Remaining(v, disk, cs, i, buf, 0), max);
    while off < |buf| && |out| < max
      invariant |out| <= max
      invariant Take(out + Remaining(v, disk, cs, i, buf, off), max) == goal
      decreases |buf| - off
    {
      if buf[off] == 0 {
        assert out + ([] + []) == out;
        return out, true;
      }
      RemainingStep(v, disk, cs, i, buf, off, out);
      var p := ParseEntrySet(buf, off);
      if p.None? {
        off := off + ENTRY;
      } else {
        out := out + [p.value];
        off := off + SetLength(buf, off);
      }
    }
    done := false;
    if |out| < max {
      assert [] + ListChain(v, disk, cs, i + 1) == ListChain(v, disk, cs, i + 1);
    }
  }

  /** The entries found so far, before cluster `i` is read. */
  ghost predicate Listing(v: Volume, disk: seq<byte>, cs: seq<nat>, max: nat, i: nat, out: seq<Entry>)
  {
    i <= |cs| && |out| <= max && Take(out + ListChain(v, disk, cs, i), max) == Take(ListChain(v, disk, cs, 0), max)
  }

  lemma ListingStart(v: Volume, disk: seq<byte>, cs: seq<nat>, max: nat)
    ensures Listing(v, disk, cs, max, 0, [])
  {
    assert [] + ListChain(v, disk, cs, 0) == ListChain(v, disk, cs, 0);
  }

  lemma ListingDone(v: Volume, disk: seq<byte>, cs: seq<nat>, max: nat, i: nat, out: seq<Entry>)
    requires Listing(v, disk, cs, max, i, out) && (|out| == max || i == |cs| || ReadCluster(v, disk, cs[i]).None?)
    ensures out == Take(ListChain(v, disk, cs, 0), max)
  {
    hide ReadCluster, List;
    if i == |cs| || ReadCluster(v, disk, cs[i]).None? {
      assert ListChain(v, disk, cs, i) == [] && out + [] == out;
    }
  }

  lemma ListingCluster(v: Volume, disk: seq<byte>, cs: seq<nat>, max: nat, i: nat, out: seq<Entry>, buf: seq<byte>)
    requires Listing(v, disk, cs, max, i, out) && i < |cs| && ReadCluster(v, disk, cs[i]) == Some(buf)
    ensures Take(out + Remaining(v, disk, cs, i, buf, 0), max) == Take(ListChain(v, disk, cs, 0), max)
  {
    hide ReadCluster, List;
  }

  /** `list_cluster` on a chain: at most `max` entries, from the first on. */
  method ListCluster(v: Volume, disk: seq<byte>, first: nat, ghost cs: seq<nat>, max: nat) returns (out: seq<Entry>)
    requires Fits(v, disk) && IsChain(v, disk, cs) && cs[0] == first
    ensures out == Take(ListChain(v, disk, cs, 0), max)
  {
    assert |cs| > 0;
    hide Fits, IsChain, ReadCluster, NextCluster, ListChain, Take, Remaining;
    out := [];
    var cluster := first;
    ghost var i := 0;
    ListingStart(v, disk, cs, max);
    if max == 0 {
      ListingDone(v, disk, cs, max, i, out);
    }
    while 2 <= cluster < EOC && |out| < max
      invariant i <= |cs| && cluster == (if i < |cs| then cs[i] else EOC) && |out| <= max
      invariant |out| < max ==> Listing(v, disk, cs, max, i, out)
      invariant |out| == max ==> out == Take(ListChain(v, disk, cs, 0), max)
      decreases |cs| - i
    {
      var buf := ReadCluster(v, disk, cluster);
      if buf.None? {
        ListingDone(v, disk, cs, max, i, out);
        return;
      }
      LinkOf(v, disk, cs, i);
      ListingCluster(v, disk, cs, max, i, out, buf.value);
      var done;
      out, done := ListOne(v, disk, cs, i, buf.value, out, max);
      if done {
        return;
      }
      cluster := NextCluster(v, disk, cluster);
      i := i + 1;
    }
    if i < |cs| {
      LinkOf(v, disk, cs, i);
    } else if |out| < max {
      ListingDone(v, disk, cs, max, i, out);
    }
  }

  // ----- looking a name up

  /** Equal up to ASCII case, as C strings. */
  predicate SameName(a: seq<byte>, b: seq<byte>) { UpperAll(CString(a)) == UpperAll(CString(b)) }

  function CharAt(s: seq<byte>, i: nat): byte { if i < |s| then s[i] else 0 }

  lemma SameNameStep(a: seq<byte>, b: seq<byte>)
    ensures var x, y := Upper(CharAt(a, 0)), Upper(CharAt(b, 0));
            SameName(a, b) <==> x == y && (x == 0 || SameName(a[1..], b[1..]))
  {
    var u, w := UpperAll(CString(a)), UpperAll(CString(b));
    if CharAt(a, 0) != 0 && CharAt(b, 0) != 0 {
      assert u == [Upper(a[0])] + UpperAll(CString(a[1..]));
      assert w == [Upper(b[0])] + UpperAll(CString(b[1..]));
      assert u[0] == Upper(a[0]) && w[0] == Upper(b[0]) && u[1..] == UpperAll(CString(a[1..]))
             && w[1..] == UpperAll(CString(b[1..]));
    } else if CharAt(a, 0) != 0 {
      assert |u| > 0 && |w| == 0;
    } else if CharAt(b, 0) != 0 {
      assert |w| > 0 && |u| == 0;
    }
  }

  /** `streq_ci` on NUL-terminated strings. */
  method StreqCi(a: seq<byte>, b: seq<byte>) returns (eq: bool)
    ensures eq <==> SameName(a, b)
  {
    hide SameName;
    var i := 0;
    while true
      invariant i <= |a| && i <= |b|
      invariant SameName(a, b) <==> SameName(a[i..], b[i..])
      decreases |a| - i
    {
      SameNameStep(a[i..], b[i..]);
      var x, y := Upper(CharAt(a, i)), Upper(CharAt(b, i));
      if x != y {
        return false;
      }
      if x == 0 {
        return true;
      }
      i := i + 1;
    }
  }

  /** The first entry of that name. */
  function FindName(entries: seq<Entry>, name: seq<byte>): Option<Entry>
  {
    if entries == [] then None
    else if SameName(entries[0].name, name) then Some(entries[0])
    else FindName(entries[1..], name)
  }

  const LOOKUP_MAX: nat := 64

  /** `find_in_cluster_chain`: only the first 64 entries are searched. */
  method FindInChain(v: Volume, disk: seq<byte>, first: nat, ghost cs: seq<nat>, name: seq<byte>)
    returns (r: Option<Entry>)
    requires Fits(v, disk) && IsChain(v, disk, cs) && cs[0] == first
    ensures r == FindName(Take(ListChain(v, disk, cs, 0), LOOKUP_MAX), name)
  {
    var entries := ListCluster(v, disk, first, cs, LOOKUP_MAX);
    for i := 0 to |entries|
      invariant FindName(entries, name) == FindName(entries[i..], name)
    {
      var eq := StreqCi(entries[i].name, name);
      if eq {
        return Some(entries[i]);
      }
    }
    return None;
  }

  // ----- tool to kernel

  /** Writing one cluster leaves every other cluster, and the FAT, as they were. */
  lemma OneClusterWrite(v: Volume, image: seq<byte>, c: nat, data: seq<byte>, d: nat)
    requires Fits(v, image) && v.IsCluster(c) && v.IsCluster(d) && c != d && |data| == v.ClusterBytes()
    ensures v.Offset(c) + |data| <= |image| && SameCluster(v, image, Splice(image, v.Offset(c), data), d)
  {
    OffsetBounds(v, image, c);
    OffsetBounds(v, image, d);
    ClustersApart(v, c, d);
    ClusterWrite(v, image, c, data);
    SameEntry(v, image, Splice(image, v.Offset(c), data), d);
    SpliceMisses(image, v.Offset(c), data, v.Offset(d), v.Offset(d) + v.ClusterBytes());
  }

  lemma OneClusterChain(v: Volume, image: seq<byte>, c: nat, data: seq<byte>)
    requires Fits(v, image) && IsChain(v, image, [c]) && |data| == v.ClusterBytes()
    ensures v.Offset(c) + |data| <= |image|
    ensures var image' := Splice(image, v.Offset(c), data);
            && Fits(v, image') && IsChain(v, image', [c])
            && Unit(image', v.Offset(c), v.ClusterBytes()) == data
  {
    assert [c][0] == c && v.IsCluster(c);
    ClusterWrite(v, image, c, data);
    HeapWriteKeepsChain(v, image, Splice(image, v.Offset(c), data), [c]);
    SpliceAt(image, v.Offset(c), data);
  }
}
