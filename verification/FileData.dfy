/**
 A file as every filesystem here stores it: units of equal size scattered over
 the disk. `offs` lists the byte offset of each unit in file order.
 */
module FileData {
  import opened Words
  import opened Bytes

  ghost predicate InDisk(disk: seq<byte>, offs: seq<nat>, unit: nat)
  {
    unit > 0 && forall i :: 0 <= i < |offs| ==> offs[i] + unit <= |disk|
  }

  /** No two units overlap. */
  ghost predicate Apart(offs: seq<nat>, unit: nat)
  {
    forall i, j :: 0 <= i < j < |offs| ==> offs[i] + unit <= offs[j] || offs[j] + unit <= offs[i]
  }

  /** Disk byte `k` belongs to none of the units. */
  ghost predicate Outside(offs: seq<nat>, unit: nat, k: nat)
  {
    forall i :: 0 <= i < |offs| ==> k < offs[i] || offs[i] + unit <= k
  }

  function Unit(disk: seq<byte>, o: nat, unit: nat): seq<byte>
    requires o + unit <= |disk|
  {
    disk[o..o + unit]
  }

  /** The units in file order. */
  ghost function Gather(disk: seq<byte>, offs: seq<nat>, unit: nat): (data: seq<byte>)
    requires InDisk(disk, offs, unit)
    ensures |data| >= |offs| && (offs == [] ==> data == [])
  {
    if offs == [] then [] else Unit(disk, offs[0], unit) + Gather(disk, offs[1..], unit)
  }

  /** The disk after `data` is written over the units from the first on. */
  ghost function Scatter(disk: seq<byte>, offs: seq<nat>, unit: nat, data: seq<byte>): (disk': seq<byte>)
    requires InDisk(disk, offs, unit)
    ensures |disk'| == |disk|
    decreases |offs|
  {
    if offs == [] || data == [] then disk
    else
      var take := Chunk(unit, data);
      Scatter(Splice(disk, offs[0], data[..take]), offs[1..], unit, data[take..])
  }

  lemma {:induction false} ScatterFrame(disk: seq<byte>, offs: seq<nat>, unit: nat, data: seq<byte>, k: nat)
    requires InDisk(disk, offs, unit) && k < |disk| && Outside(offs, unit, k)
    ensures Scatter(disk, offs, unit, data)[k] == disk[k]
    decreases |offs|
  {
    if offs == [] || data == [] {
    } else {
      var take := if |data| < unit then |data| else unit;
      SpliceAt(disk, offs[0], data[..take]);
      ScatterFrame(Splice(disk, offs[0], data[..take]), offs[1..], unit, data[take..], k);
    }
  }

  lemma {:induction false} GatherFrame(a: seq<byte>, b: seq<byte>, offs: seq<nat>, unit: nat)
    requires InDisk(a, offs, unit) && InDisk(b, offs, unit)
    requires forall i :: 0 <= i < |offs| ==> Unit(a, offs[i], unit) == Unit(b, offs[i], unit)
    ensures Gather(a, offs, unit) == Gather(b, offs, unit)
  {
    if offs == [] {
    } else {
      var tail := offs[1..];
      assert forall i :: 0 <= i < |tail| ==> tail[i] == offs[i + 1];
      GatherFrame(a, b, tail, unit);
    }
  }

  /** A unit apart from all of `offs` reads the same before and after. */
  lemma ScatterElsewhere(disk: seq<byte>, offs: seq<nat>, unit: nat, data: seq<byte>, o: nat)
    requires InDisk(disk, offs, unit) && o + unit <= |disk|
    requires forall i :: 0 <= i < |offs| ==> offs[i] + unit <= o || o + unit <= offs[i]
    ensures Unit(Scatter(disk, offs, unit, data), o, unit) == Unit(disk, o, unit)
  {
    var disk' := Scatter(disk, offs, unit, data);
    forall k | o <= k < o + unit ensures disk'[k] == disk[k] {
      ScatterFrame(disk, offs, unit, data, k);
    }
    SameSlice(disk', disk, o, o + unit);
  }

  function Chunk(unit: nat, data: seq<byte>): nat { if |data| < unit then |data| else unit }

  /** The first unit takes the first chunk, and the other units do not see it. */
  lemma FirstChunk(disk: seq<byte>, offs: seq<nat>, unit: nat, data: seq<byte>)
    requires InDisk(disk, offs, unit) && Apart(offs, unit) && offs != []
    ensures var take := Chunk(unit, data);
            var mid := Splice(disk, offs[0], data[..take]);
            && Unit(mid, offs[0], unit) == data[..take] + Unit(disk, offs[0], unit)[take..]
            && InDisk(mid, offs[1..], unit) && Apart(offs[1..], unit)
            && Gather(mid, offs[1..], unit) == Gather(disk, offs[1..], unit)
  {
    var take, tail := Chunk(unit, data), offs[1..];
    var mid := Splice(disk, offs[0], data[..take]);
    assert Unit(mid, offs[0], unit) == data[..take] + Unit(disk, offs[0], unit)[take..] by {
      SpliceAt(disk, offs[0], data[..take]);
    }
    hide Splice;
    assert forall i :: 0 <= i < |tail| ==> tail[i] == offs[i + 1];
    forall i | 0 <= i < |tail| ensures Unit(mid, tail[i], unit) == Unit(disk, tail[i], unit) {
      SpliceMisses(disk, offs[0], data[..take], tail[i], tail[i] + unit);
    }
    GatherFrame(mid, disk, tail, unit);
  }

  lemma JoinUnits(head: seq<byte>, t: seq<byte>, data: seq<byte>, take: nat)
    requires take == Chunk(|head|, data) && |data| <= |head| + |t|
    ensures (data[..take] + head[take..]) + (data[take..] + t[|data| - take..]) == data + (head + t)[|data|..]
  {
    if take == |data| {
      assert data[take..] == [] && data[..take] == data;
      assert t[0..] == t;
    }
  }

  /** Writing then reading: the new prefix followed by the old rest. */
  lemma {:induction false} ReadBack(disk: seq<byte>, offs: seq<nat>, unit: nat, data: seq<byte>)
    requires InDisk(disk, offs, unit) && Apart(offs, unit)
    requires |data| <= |Gather(disk, offs, unit)|
    ensures Gather(Scatter(disk, offs, unit, data), offs, unit) == data + Gather(disk, offs, unit)[|data|..]
    decreases |offs|
  {
    hide Splice, Apart;
    if offs == [] || data == [] {
    } else {
      var take, tail := Chunk(unit, data), offs[1..];
      var mid, t := Splice(disk, offs[0], data[..take]), Gather(disk, tail, unit);
      FirstChunk(disk, offs, unit, data);
      ReadBack(mid, tail, unit, data[take..]);
      LaterUnits(mid, offs, unit, data[take..]);
      JoinUnits(Unit(disk, offs[0], unit), t, data, take);
    }
  }

  /** The first `size` bytes after an overwrite, and all bytes outside the units. */
  lemma OverwriteEffect(disk: seq<byte>, offs: seq<nat>, unit: nat, data: seq<byte>, size: nat)
    requires InDisk(disk, offs, unit) && Apart(offs, unit)
    requires |data| <= size <= |Gather(disk, offs, unit)|
    ensures var disk' := Scatter(disk, offs, unit, data);
            && Cut(Gather(disk', offs, unit), size) == data + Gather(disk, offs, unit)[|data|..size]
            && forall k :: 0 <= k < |disk| && Outside(offs, unit, k) ==> disk'[k] == disk[k]
  {
    hide InDisk, Outside, Apart, Gather, Scatter;
    ReadBack(disk, offs, unit, data);
    var bytes := Gather(disk, offs, unit);
    assert Cut(data + bytes[|data|..], size) == data + bytes[|data|..size];
    forall k | 0 <= k < |disk| && Outside(offs, unit, k) ensures Scatter(disk, offs, unit, data)[k] == disk[k] {
      ScatterFrame(disk, offs, unit, data, k);
    }
  }

  /** The later units leave the first one alone. */
  lemma LaterUnits(mid: seq<byte>, offs: seq<nat>, unit: nat, rest: seq<byte>)
    requires InDisk(mid, offs, unit) && Apart(offs, unit) && offs != []
    ensures InDisk(mid, offs[1..], unit)
    ensures Unit(Scatter(mid, offs[1..], unit, rest), offs[0], unit) == Unit(mid, offs[0], unit)
  {
    assert forall i :: 0 <= i < |offs[1..]| ==> offs[1..][i] == offs[i + 1];
    ScatterElsewhere(mid, offs[1..], unit, rest, offs[0]);
  }

  lemma {:induction false} GatherLength(disk: seq<byte>, offs: seq<nat>, unit: nat)
    requires InDisk(disk, offs, unit)
    ensures |Gather(disk, offs, unit)| == Times(|offs|, unit)
    decreases |offs|
  {
    if offs == [] {
    } else {
      GatherLength(disk, offs[1..], unit);
    }
  }

  lemma InDiskTail(disk: seq<byte>, offs: seq<nat>, unit: nat, i: nat)
    requires InDisk(disk, offs, unit) && i <= |offs|
    ensures InDisk(disk, offs[i..], unit)
  {
    assert forall k :: 0 <= k < |offs[i..]| ==> offs[i..][k] == offs[i + k];
  }

  /** A read of `size` bytes that has delivered `dst` and is about to read unit `i`. */
  ghost predicate Reading(disk: seq<byte>, offs: seq<nat>, unit: nat, size: nat, i: nat, dst: seq<byte>)
  {
    && InDisk(disk, offs, unit) && i <= |offs| && |dst| <= size && InDisk(disk, offs[i..], unit)
    && dst + Cut(Gather(disk, offs[i..], unit), size - |dst|) == Cut(Gather(disk, offs, unit), size)
  }

  lemma ReadingStart(disk: seq<byte>, offs: seq<nat>, unit: nat, size: nat)
    requires InDisk(disk, offs, unit)
    ensures Reading(disk, offs, unit, size, 0, [])
  {
    assert offs[0..] == offs;
  }

  lemma GatherStep(disk: seq<byte>, offs: seq<nat>, unit: nat, i: nat, dst: seq<byte>, left: nat)
    requires InDisk(disk, offs, unit) && i < |offs| && InDisk(disk, offs[i..], unit)
             && InDisk(disk, offs[i + 1..], unit)
    ensures offs[i] + unit <= |disk|
    ensures var take := if left < unit then left else unit;
            dst + Cut(Gather(disk, offs[i..], unit), left) ==
            (dst + Unit(disk, offs[i], unit)[..take]) + Cut(Gather(disk, offs[i + 1..], unit), left - take)
  {
    assert offs[i..][0] == offs[i] && offs[i..][1..] == offs[i + 1..];
    CutJoin(Unit(disk, offs[i], unit), Gather(disk, offs[i + 1..], unit), left);
  }

  lemma ReadingStep(disk: seq<byte>, offs: seq<nat>, unit: nat, size: nat, i: nat, dst: seq<byte>)
    requires Reading(disk, offs, unit, size, i, dst) && i < |offs|
    ensures offs[i] + unit <= |disk|
    ensures var left := size - |dst|;
            var take := if left < unit then left else unit;
            Reading(disk, offs, unit, size, i + 1, dst + Unit(disk, offs[i], unit)[..take])
  {
    hide InDisk, Gather, Cut;
    InDiskTail(disk, offs, unit, i + 1);
    GatherStep(disk, offs, unit, i, dst, size - |dst|);
  }

  lemma ReadingDone(disk: seq<byte>, offs: seq<nat>, unit: nat, size: nat, i: nat, dst: seq<byte>)
    requires Reading(disk, offs, unit, size, i, dst) && (i == |offs| || |dst| == size)
    ensures dst == Cut(Gather(disk, offs, unit), size)
  {
    if |dst| == size {
      assert dst + Cut(Gather(disk, offs[i..], unit), 0) == dst;
    }
  }

  /** Replacing a prefix of a unit is a splice of that prefix. */
  lemma PrefixSplice(disk: seq<byte>, o: nat, unit: nat, data: seq<byte>, take: nat)
    requires o + unit <= |disk| && take <= |data| && take <= unit
    ensures Splice(disk, o, data[..take] + Unit(disk, o, unit)[take..]) == Splice(disk, o, data[..take])
  {
    var whole := data[..take] + Unit(disk, o, unit)[take..];
    SpliceAt(disk, o, whole);
    SpliceAt(disk, o, data[..take]);
  }
}
