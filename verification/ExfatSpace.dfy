/**
 Which runs of the image builder take cluster `count + 1`, the one the kernel
 refuses to read: decided by the free clusters of the image before the run.
 */
module ExfatSpace {
  import opened Words
  import opened Bytes
  import opened Exfat
  import opened ExfatTool

  /** Clusters taken by all the files. */
  function Clusters(v: Volume, datas: seq<seq<byte>>): nat
    requires v.spc > 0
  {
    if datas == [] then 0 else Needed(v, |datas[0]|) + Clusters(v, datas[1..])
  }

  lemma {:induction false} SomeFree(v: Volume, image: seq<byte>, reserved: set<nat>, c: nat)
    requires v.FatByte(v.count + 2) <= |image| && c <= v.count + 1 && IsFree(v, image, reserved, v.count + 1)
    ensures FreeCount(v, image, reserved, c) > 0
    decreases v.count + 1 - c
  {
    hide IsFree;
    if c == v.count + 1 {
      assert FreeCount(v, image, reserved, c + 1) == 0;
    } else {
      SomeFree(v, image, reserved, c + 1);
    }
  }

  /** The search hands out the last cluster exactly when that cluster is free and every free one is needed. */
  lemma {:induction false} LastTakenIff(v: Volume, image: seq<byte>, reserved: set<nat>, c: nat, n: nat)
    requires v.FatByte(v.count + 2) <= |image| && c <= v.count + 2 && n > 0
    requires FindFree(v, image, reserved, c, n).Some?
    ensures v.count + 1 in FindFree(v, image, reserved, c, n).value
            <==> IsFree(v, image, reserved, v.count + 1) && FreeCount(v, image, reserved, c) == n
    decreases v.count + 2 - c
  {
    hide IsFree;
    if !IsFree(v, image, reserved, c) {
      LastTakenIff(v, image, reserved, c + 1, n);
    } else if n > 1 {
      LastTakenIff(v, image, reserved, c + 1, n - 1);
    } else if c == v.count + 1 {
      assert FreeCount(v, image, reserved, c + 1) == 0;
    } else if IsFree(v, image, reserved, v.count + 1) {
      SomeFree(v, image, reserved, c + 1);
    }
  }

  /** From `c` on, `b` has the free clusters of `a` except those in `cs`. */
  ghost predicate FreeWithout(v: Volume, a: Image, b: Image, c: nat, cs: seq<nat>)
  {
    && v.FatByte(v.count + 2) <= |a.bytes| == |b.bytes|
    && forall d :: c <= d < v.count + 2 ==>
                     (IsFree(v, b.bytes, b.reserved, d) <==> IsFree(v, a.bytes, a.reserved, d) && d !in cs)
  }

  lemma {:induction false} SameFreeCount(v: Volume, a: Image, b: Image, c: nat, cs: seq<nat>)
    requires c <= v.count + 2 && FreeWithout(v, a, b, c, cs) && forall i :: 0 <= i < |cs| ==> cs[i] < c
    ensures FreeCount(v, a.bytes, a.reserved, c) == FreeCount(v, b.bytes, b.reserved, c)
    decreases v.count + 2 - c
  {
    hide IsFree;
    if c == v.count + 2 {
    } else {
      SameFreeCount(v, a, b, c + 1, cs);
    }
  }

  /** Taking what the search found lowers the count by as much. */
  lemma {:induction false} FewerFree(v: Volume, a: Image, b: Image, c: nat, n: nat, cs: seq<nat>)
    requires c <= v.count + 2 && n > 0 && FreeWithout(v, a, b, c, cs)
    requires FindFree(v, a.bytes, a.reserved, c, n) == Some(cs)
    ensures FreeCount(v, b.bytes, b.reserved, c) + n == FreeCount(v, a.bytes, a.reserved, c)
    decreases v.count + 2 - c
  {
    hide IsFree;
    if !IsFree(v, a.bytes, a.reserved, c) {
      FewerFree(v, a, b, c + 1, n, cs);
    } else if n == 1 {
      SameFreeCount(v, a, b, c + 1, cs);
    } else {
      FewerFree(v, a, b, c + 1, n - 1, cs[1..]);
    }
  }

  /** `write_file`: it succeeds when enough clusters are free, and then exactly its own clusters stop being free. */
  lemma PutTakes(v: Volume, s: Image, data: seq<byte>)
    requires Fits(v, s.bytes)
    ensures v.FatByte(v.count + 2) <= |s.bytes| && v.spc > 0
    ensures Put(v, s, data).Some? <==> Needed(v, |data|) <= FreeCount(v, s.bytes, s.reserved, 2)
    ensures Put(v, s, data).Some? ==>
              var (t, f) := Put(v, s, data).value;
              FreeWithout(v, s, t, 2, f.chain)
                && FindFree(v, s.bytes, s.reserved, 2, Needed(v, |data|)) == Some(f.chain)
  {
    FitsTable(v, s.bytes);
    FindFreeIffEnough(v, s.bytes, s.reserved, 2, Needed(v, |data|));
    if Put(v, s, data).Some? {
      Found(v, s, Needed(v, |data|));
      var (t, f) := Put(v, s, data).value;
      forall d | 2 <= d < v.count + 2
        ensures IsFree(v, t.bytes, t.reserved, d) <==> IsFree(v, s.bytes, s.reserved, d) && d !in f.chain
      {
        if d !in f.chain {
          StoreFrame(v, s.bytes, f.chain, data, d);
        }
      }
    }
  }

  /** The two numbers that decide a run, before and after one file. */
  lemma PutSpace(v: Volume, s: Image, data: seq<byte>)
    requires Fits(v, s.bytes) && Put(v, s, data).Some?
    ensures var (t, f) := Put(v, s, data).value;
            && v.FatByte(v.count + 2) <= |s.bytes| == |t.bytes| && v.spc > 0
            && FreeCount(v, t.bytes, t.reserved, 2) + Needed(v, |data|) == FreeCount(v, s.bytes, s.reserved, 2)
            && (v.count + 1 in f.chain
                <==> IsFree(v, s.bytes, s.reserved, v.count + 1)
                     && FreeCount(v, s.bytes, s.reserved, 2) == Needed(v, |data|))
            && (IsFree(v, t.bytes, t.reserved, v.count + 1)
                <==> IsFree(v, s.bytes, s.reserved, v.count + 1) && v.count + 1 !in f.chain)
  {
    PutTakes(v, s, data);
    var (t, f) := Put(v, s, data).value;
    hide Put, Fits, IsFree;
    FewerFree(v, s, t, 2, Needed(v, |data|), f.chain);
    LastTakenIff(v, s.bytes, s.reserved, 2, Needed(v, |data|));
  }

  /** A run succeeds exactly when the clusters of all its files are free beforehand. */
  lemma {:induction false} RunFitsIff(v: Volume, s: Image, datas: seq<seq<byte>>)
    requires Fits(v, s.bytes)
    ensures v.FatByte(v.count + 2) <= |s.bytes| && v.spc > 0
    ensures PutAll(v, s, datas).Some? <==> Clusters(v, datas) <= FreeCount(v, s.bytes, s.reserved, 2)
    decreases |datas|
  {
    FitsTable(v, s.bytes);
    if datas == [] {
    } else {
      PutTakes(v, s, datas[0]);
      if Put(v, s, datas[0]).Some? {
        PutStep(v, s, datas[0]);
        PutSpace(v, s, datas[0]);
        RunFitsIff(v, Put(v, s, datas[0]).value.0, datas[1..]);
      }
    }
  }

  /**
   File `i` of a run takes the last cluster: it is free, and the files up to this one need
   exactly the free clusters.
   */
  ghost predicate TakesLast(v: Volume, s: Image, datas: seq<seq<byte>>, i: nat)
    requires v.FatByte(v.count + 2) <= |s.bytes| && v.spc > 0 && i < |datas|
  {
    IsFree(v, s.bytes, s.reserved, v.count + 1) && FreeCount(v, s.bytes, s.reserved, 2) == Clusters(v, datas[..i + 1])
  }

  lemma FirstPut(v: Volume, s: Image, datas: seq<seq<byte>>)
    requires Fits(v, s.bytes) && PutAll(v, s, datas).Some? && datas != []
    ensures Put(v, s, datas[0]).Some? && Fits(v, Put(v, s, datas[0]).value.0.bytes)
    ensures var (m, f) := Put(v, s, datas[0]).value;
            PutAll(v, m, datas[1..]).Some? && PutAll(v, s, datas).value.1 == [f] + PutAll(v, m, datas[1..]).value.1
  {
    hide Put;
    PutStep(v, s, datas[0]);
  }

  lemma ClustersUpTo(v: Volume, datas: seq<seq<byte>>, i: nat)
    requires v.spc > 0 && i < |datas|
    ensures Clusters(v, datas[..i + 1]) == Needed(v, |datas[0]|) + Clusters(v, datas[1..][..i])
    ensures Clusters(v, datas[1..][..i]) > 0 <==> i > 0
  {
    assert datas[..i + 1][1..] == datas[1..][..i];
  }

  lemma {:induction false} ChainTakesLastIff(v: Volume, s: Image, datas: seq<seq<byte>>, i: nat)
    requires Fits(v, s.bytes) && PutAll(v, s, datas).Some? && i < |datas|
    ensures v.FatByte(v.count + 2) <= |s.bytes| && v.spc > 0
    ensures var (t, files) := PutAll(v, s, datas).value;
            i < |files| && (v.count + 1 in files[i].chain <==> TakesLast(v, s, datas, i))
    decreases |datas|
  {
    hide Put, PutAll, Fits, IsFree, FreeCount, Needed, Clusters, FindFree;
    FitsTable(v, s.bytes);
    FirstPut(v, s, datas);
    PutSpace(v, s, datas[0]);
    ClustersUpTo(v, datas, i);
    if i == 0 {
    } else {
      ChainTakesLastIff(v, Put(v, s, datas[0]).value.0, datas[1..], i - 1);
    }
  }

  /**
   Tool to kernel: after any run, file `i` reads back byte for byte unless it is
   the nonempty file that takes the last free cluster, cluster `count + 1`.
   */
  lemma ToolToKernel(v: Volume, s: Image, datas: seq<seq<byte>>, i: nat)
    requires Fits(v, s.bytes) && PutAll(v, s, datas).Some? && i < |datas|
    ensures v.FatByte(v.count + 2) <= |s.bytes| && v.spc > 0
    ensures var (t, files) := PutAll(v, s, datas).value;
            && i < |files| && OnImage(v, t.bytes, files[i])
            && Collect(v, t.bytes, files[i].chain[0], |datas[i]|) ==
               if datas[i] != [] && TakesLast(v, s, datas, i) then None else Some(datas[i])
  {
    BuilderRun(v, s, datas);
    ChainTakesLastIff(v, s, datas, i);
    var (t, files) := PutAll(v, s, datas).value;
    assert OnImage(v, t.bytes, files[i]) && files[i].data == datas[i];
    hide RunOk, PutAll, Collect, Fits, TakesLast;
    KernelReadsFile(v, t.bytes, files[i]);
    RejectedCluster(v, t.bytes, files[i]);
  }

  /** An empty image of two clusters, the first set aside for the root directory. */
  ghost predicate OneFree(v: Volume, s: Image)
  {
    Fits(v, s.bytes) && v.count == 2 && s.reserved == {2} && forall k :: 0 <= k < |s.bytes| ==> s.bytes[k] == 0
  }

  lemma ZeroField(a: seq<byte>, o: nat)
    requires o + 4 <= |a| && forall k :: o <= k < o + 4 ==> a[k] == 0
    ensures Le32At(a, o) == 0
  {
  }

  lemma OneFreeCount(v: Volume, image: seq<byte>, reserved: set<nat>, c: nat)
    requires v.FatByte(v.count + 2) <= |image| && c == v.count
    requires !IsFree(v, image, reserved, c) && IsFree(v, image, reserved, c + 1)
    ensures FreeCount(v, image, reserved, c) == 1
  {
    hide IsFree;
    assert FreeCount(v, image, reserved, c + 2) == 0;
    assert FreeCount(v, image, reserved, c + 1) == 1;
  }

  lemma OneFreeSpace(v: Volume, s: Image)
    requires OneFree(v, s)
    ensures v.FatByte(v.count + 2) <= |s.bytes|
    ensures IsFree(v, s.bytes, s.reserved, 3) && FreeCount(v, s.bytes, s.reserved, 2) == 1
  {
    hide Fits, Le32At, FreeCount;
    FitsTable(v, s.bytes);
    ZeroField(s.bytes, v.FatByte(3));
    OneFreeCount(v, s.bytes, s.reserved, 2);
  }

  lemma OneFile(v: Volume, data: seq<byte>)
    requires v.spc > 0 && |data| <= v.ClusterBytes()
    ensures Clusters(v, [data]) == 1
  {
    assert [data][1..] == [];
  }

  /** Runs that fail: a file of one cluster is stored there, in the last cluster, and cannot be read. */
  lemma LastClusterUnreadable(v: Volume, s: Image, data: seq<byte>)
    requires OneFree(v, s) && 0 < |data| <= v.ClusterBytes()
    ensures PutAll(v, s, [data]).Some?
    ensures var (t, files) := PutAll(v, s, [data]).value;
            && |files| == 1 && OnImage(v, t.bytes, files[0]) && files[0].data == data
            && Collect(v, t.bytes, files[0].chain[0], |data|) == None
  {
    hide Fits, IsFree, FreeCount, PutAll, Collect, IsChain, ChainBytes, RunOk, Needed, Clusters;
    FitsTable(v, s.bytes);
    var datas := [data];
    OneFreeSpace(v, s);
    OneFile(v, data);
    assert datas[..1] == datas;
    RunFitsIff(v, s, datas);
    BuilderRun(v, s, datas);
    ToolToKernel(v, s, datas, 0);
  }

  /** Such an image: three sectors of zeros. */
  lemma SmallestImage()
    ensures OneFree(Volume(0, 1, 2, 2, 1), Image(Zeros(1536), {2}))
  {
    var v, n := Volume(0, 1, 2, 2, 1), 1536;
    assert Fits(v, Zeros(n));
  }
}
