/** The ext4 extent tree (`map_extents_recurse` of `extfs.c`): index descent against a scan of all leaf extents. */
module ExtTree {
  import opened Words
  import opened Bytes
  import opened ExtDisk
  import opened ExtMap
  import Disk

  /** Logical blocks `first .. first + len` lie at physical blocks `phys ..`. */
  datatype Extent = Extent(first: nat, len: nat, phys: nat)
  {
    predicate Covers(lbn: nat) { first <= lbn < first + len }
  }

  /** What a node stands for; `blocks[i]` is where child `i` is stored. */
  datatype Tree = Leaf(extents: seq<Extent>) | Node(keys: seq<nat>, blocks: seq<nat>, children: seq<Tree>)

  const MAGIC: nat := 0xF30A

  // ----- nodes as bytes

  function Entries(node: seq<byte>): nat
    requires |node| >= 12
  {
    Le16At(node, 2)
  }

  predicate Header(node: seq<byte>) { |node| >= 12 && Le16At(node, 0) == MAGIC && 12 + 12 * Entries(node) <= |node| }

  function Depth(node: seq<byte>): nat
    requires |node| >= 12
  {
    Le16At(node, 6)
  }

  /** A 32-bit block number whose upper half-word is stored apart. */
  function Joined(lo: u32, hi: u16): nat { BitOr(lo, hi * 0x10000) }

  function ExtentAt(node: seq<byte>, i: nat): Extent
    requires 12 + 12 * i + 12 <= |node|
  {
    var o := 12 + 12 * i;
    Extent(Le32At(node, o), Le16At(node, o + 4) % 0x8000, Joined(Le32At(node, o + 8), Le16At(node, o + 6)))
  }

  function KeyAt(node: seq<byte>, i: nat): nat
    requires 12 + 12 * i + 12 <= |node|
  {
    Le32At(node, 12 + 12 * i)
  }

  function ChildBlock(node: seq<byte>, i: nat): nat
    requires 12 + 12 * i + 12 <= |node|
  {
    var o := 12 + 12 * i;
    Joined(Le32At(node, o + 4), Le16At(node, o + 8))
  }

  /** The bytes of `node` and of the blocks below it encode `t`. */
  ghost predicate Encodes(v: Volume, disk: seq<byte>, node: seq<byte>, t: Tree)
    decreases t
  {
    && Header(node)
    && (Depth(node) == 0 <==> t.Leaf?)
    && match t
       case Leaf(es) =>
         |es| == Entries(node) && forall i :: 0 <= i < |es| ==> es[i] == ExtentAt(node, i)
       case Node(keys, blocks, children) =>
         && 0 < |keys| == |blocks| == |children| == Entries(node)
         && (forall i :: 0 <= i < |keys| ==> keys[i] == KeyAt(node, i) && blocks[i] == ChildBlock(node, i))
         && (forall i :: 0 <= i < |children| ==>
               v.At(blocks[i]) + v.blockSize <= |disk| && Encodes(v, disk, BlockBytes(v, disk, blocks[i]), children[i]))
  }

  // ----- trees as extents

  ghost function Flatten(t: Tree): seq<Extent>
    decreases t, 0
  {
    match t
    case Leaf(es) => es
    case Node(_, _, children) => FlattenFrom(t, 0)
  }

  ghost function FlattenFrom(t: Tree, i: nat): seq<Extent>
    requires t.Node? && i <= |t.children|
    decreases t, 0, |t.children| - i
  {
    if i == |t.children| then [] else Flatten(t.children[i]) + FlattenFrom(t, i + 1)
  }

  /** A covering extent's physical block; 0 if there is none. */
  ghost function Scan(es: seq<Extent>, lbn: nat): nat
  {
    if es == [] then 0 else if es[0].Covers(lbn) then es[0].phys + (lbn - es[0].first) else Scan(es[1..], lbn)
  }

  /** Where child `i`'s key range ends. */
  ghost function UpTo(t: Tree, hi: nat, i: nat): nat
    requires t.Node? && i < |t.keys|
  {
    if i + 1 < |t.keys| then t.keys[i + 1] else hi
  }

  /** Children keep to the key ranges, and no block number leaves 32 bits. */
  ghost predicate Ordered(t: Tree, lo: nat, hi: nat)
    decreases t
  {
    match t
    case Leaf(es) => forall i :: 0 <= i < |es| ==> Within(es[i], lo, hi)
    case Node(keys, _, children) =>
      && 0 < |keys| == |children| && lo <= keys[0] && keys[|keys| - 1] <= hi
      && (forall i, j :: 0 <= i < j < |keys| ==> keys[i] < keys[j])
      && (forall i :: 0 <= i < |children| ==> Ordered(children[i], keys[i], UpTo(t, hi, i)))
  }

  predicate Within(e: Extent, lo: nat, hi: nat)
  {
    lo <= e.first && e.first + e.len <= hi && 0 < e.phys && e.phys + e.len <= TWO32
  }

  ghost predicate AllWithin(es: seq<Extent>, lo: nat, hi: nat) { forall i :: 0 <= i < |es| ==> Within(es[i], lo, hi) }

  lemma {:induction false} FlattenWithin(t: Tree, lo: nat, hi: nat)
    requires Ordered(t, lo, hi)
    ensures AllWithin(Flatten(t), lo, hi)
    decreases t, 0
  {
    if t.Leaf? {
    } else {
      FlattenFromWithin(t, lo, hi, 0);
    }
  }

  lemma {:induction false} FlattenFromWithin(t: Tree, lo: nat, hi: nat, i: nat)
    requires t.Node? && Ordered(t, lo, hi) && i <= |t.children|
    ensures AllWithin(FlattenFrom(t, i), if i < |t.children| then t.keys[i] else hi, hi)
    decreases t, 0, |t.children| - i
  {
    if i == |t.children| {
    } else {
      FlattenWithin(t.children[i], t.keys[i], UpTo(t, hi, i));
      FlattenFromWithin(t, lo, hi, i + 1);
    }
  }

  // ----- scanning

  ghost predicate NoneCovers(es: seq<Extent>, lbn: nat) { forall i :: 0 <= i < |es| ==> !es[i].Covers(lbn) }

  lemma {:induction false} ScanJoin(a: seq<Extent>, b: seq<Extent>, lbn: nat)
    ensures NoneCovers(a, lbn) ==> Scan(a + b, lbn) == Scan(b, lbn)
    ensures NoneCovers(b, lbn) ==> Scan(a + b, lbn) == Scan(a, lbn)
  {
    if a == [] {
      assert a + b == b;
      if NoneCovers(b, lbn) {
        ScanNone(b, lbn);
      }
    } else {
      assert (a + b)[1..] == a[1..] + b;
      ScanJoin(a[1..], b, lbn);
    }
  }

  lemma {:induction false} ScanNone(es: seq<Extent>, lbn: nat)
    requires NoneCovers(es, lbn)
    ensures Scan(es, lbn) == 0
  {
    if es == [] {
    } else {
      ScanNone(es[1..], lbn);
    }
  }

  /** The scan finds a block exactly when some extent covers it. */
  lemma {:induction false} ScanZeroIff(es: seq<Extent>, lbn: nat, lo: nat, hi: nat)
    requires AllWithin(es, lo, hi)
    ensures Scan(es, lbn) == 0 <==> NoneCovers(es, lbn)
    ensures Scan(es, lbn) < TWO32
  {
    if es == [] {
    } else {
      ScanZeroIff(es[1..], lbn, lo, hi);
      if NoneCovers(es[1..], lbn) && !es[0].Covers(lbn) {
        assert forall i :: 0 < i < |es| ==> es[i] == es[1..][i - 1];
      }
    }
  }

  /** The child the descent picks: the last one whose key is at most `lbn`, the first if there is none. */
  function PickFrom(node: seq<byte>, i: nat, lbn: nat, pick: nat): (r: nat)
    requires Header(node) && i <= Entries(node)
    ensures r == pick || i <= r < Entries(node)
    decreases Entries(node) - i
  {
    if i == Entries(node) then pick
    else PickFrom(node, i + 1, lbn, if KeyAt(node, i) <= lbn then i else pick)
  }

  lemma {:induction false} PickIsLast(v: Volume, disk: seq<byte>, node: seq<byte>, t: Tree, i: nat, lbn: nat, pick: nat)
    requires t.Node? && Encodes(v, disk, node, t) && i <= |t.keys| && pick < |t.keys|
    ensures var r := PickFrom(node, i, lbn, pick);
            && r < |t.keys| && (r == pick || t.keys[r] <= lbn)
            && forall j :: i <= j < |t.keys| && r < j ==> t.keys[j] > lbn
    ensures var r := PickFrom(node, i, lbn, pick); r < i ==> r == pick
    decreases |t.keys| - i
  {
    hide Encodes;
    assert Encodes(v, disk, node, t);
    NodeShape(v, disk, node, t);
    if i == |t.keys| {
    } else {
      PickIsLast(v, disk, node, t, i + 1, lbn, if KeyAt(node, i) <= lbn then i else pick);
    }
  }

  lemma NodeShape(v: Volume, disk: seq<byte>, node: seq<byte>, t: Tree)
    requires t.Node? && Encodes(v, disk, node, t)
    ensures Header(node) && 0 < |t.keys| == |t.blocks| == |t.children| == Entries(node)
    ensures forall i :: 0 <= i < |t.keys| ==> t.keys[i] == KeyAt(node, i) && t.blocks[i] == ChildBlock(node, i)
  {
  }

  /** The first extent of a leaf that covers `lbn`, in the code's 32-bit arithmetic; 0 if there is none. */
  function LeafFrom(node: seq<byte>, i: nat, lbn: nat): nat
    requires Header(node) && i <= Entries(node)
    decreases Entries(node) - i
  {
    if i == Entries(node) then 0
    else
      var e := ExtentAt(node, i);
      if lbn < e.first || lbn >= (e.first + e.len) % TWO32 then LeafFrom(node, i + 1, lbn)
      else (e.phys + (lbn - e.first)) % TWO32
  }

  /** The leaf search is the scan. */
  lemma {:induction false} LeafIsScan(node: seq<byte>, es: seq<Extent>, i: nat, lbn: nat, lo: nat, hi: nat)
    requires Header(node) && i <= |es| == Entries(node) && hi < TWO32
    requires forall k :: 0 <= k < |es| ==> es[k] == ExtentAt(node, k)
    requires AllWithin(es, lo, hi)
    ensures LeafFrom(node, i, lbn) == Scan(es[i..], lbn)
    decreases |es| - i
  {
    hide ExtentAt, Header, Entries;
    if i == |es| {
    } else {
      LeafIsScan(node, es, i + 1, lbn, lo, hi);
      assert es[i..][1..] == es[i + 1..] && Within(es[i], lo, hi);
    }
  }

  /** `r` is the child whose key range can hold `lbn`. */
  ghost predicate Picked(t: Tree, r: nat, lbn: nat)
  {
    && t.Node? && r < |t.keys| && (r == 0 || t.keys[r] <= lbn)
    && forall j :: r < j < |t.keys| ==> t.keys[j] > lbn
  }

  lemma OtherChild(t: Tree, lo: nat, hi: nat, i: nat, r: nat, lbn: nat)
    requires Picked(t, r, lbn) && Ordered(t, lo, hi) && i < |t.children| && i != r
    ensures NoneCovers(Flatten(t.children[i]), lbn)
  {
    var here := Flatten(t.children[i]);
    FlattenWithin(t.children[i], t.keys[i], UpTo(t, hi, i));
    hide Ordered, Flatten;
    forall k | 0 <= k < |here| ensures !here[k].Covers(lbn) {
      assert Within(here[k], t.keys[i], UpTo(t, hi, i));
      assert i < r ==> t.keys[i + 1] <= t.keys[r];
    }
  }

  /** Only the picked child can cover `lbn`. */
  lemma {:induction false} OnlyPicked(t: Tree, lo: nat, hi: nat, i: nat, r: nat, lbn: nat)
    requires t.Node? && Picked(t, r, lbn) && Ordered(t, lo, hi) && i <= |t.children| && r < |t.children|
    ensures Scan(FlattenFrom(t, i), lbn) == if i <= r then Scan(Flatten(t.children[r]), lbn) else 0
    ensures i > r ==> NoneCovers(FlattenFrom(t, i), lbn)
    decreases |t.children| - i
  {
    hide Ordered, Flatten, Scan, Picked;
    if i == |t.children| {
      ScanNone([], lbn);
    } else {
      OnlyPicked(t, lo, hi, i + 1, r, lbn);
      ScanJoin(Flatten(t.children[i]), FlattenFrom(t, i + 1), lbn);
      if i != r {
        OtherChild(t, lo, hi, i, r, lbn);
      }
    }
  }

  // ----- the descent

  /** `map_extents_recurse`, the tree being its termination measure. */
  ghost function MapNode(v: Volume, disk: seq<byte>, node: seq<byte>, t: Tree, lbn: nat): nat
    requires Encodes(v, disk, node, t)
    decreases t
  {
    if Depth(node) == 0 then LeafFrom(node, 0, lbn)
    else
      var pick := PickFrom(node, 0, lbn, 0);
      MapNode(v, disk, BlockBytes(v, disk, t.blocks[pick]), t.children[pick], lbn)
  }

  /** The descent finds what a scan of all leaf extents finds, whatever the depth of the tree. */
  lemma {:induction false} DescentIsScan(v: Volume, disk: seq<byte>, node: seq<byte>, t: Tree, lbn: nat, lo: nat,
                                         hi: nat)
    requires Encodes(v, disk, node, t) && Ordered(t, lo, hi) && hi < TWO32
    ensures MapNode(v, disk, node, t, lbn) == Scan(Flatten(t), lbn)
    decreases t
  {
    if t.Leaf? {
      LeafIsScan(node, t.extents, 0, lbn, lo, hi);
      assert t.extents[0..] == t.extents;
    } else {
      var pick := PickFrom(node, 0, lbn, 0);
      PickIsLast(v, disk, node, t, 0, lbn, 0);
      assert Picked(t, pick, lbn);
      OnlyPicked(t, lo, hi, 0, pick, lbn);
      DescentIsScan(v, disk, BlockBytes(v, disk, t.blocks[pick]), t.children[pick], lbn, t.keys[pick],
                    UpTo(t, hi, pick));
    }
  }

  /** It answers 0 exactly when no extent covers the block. */
  lemma DescentZeroIff(v: Volume, disk: seq<byte>, node: seq<byte>, t: Tree, lbn: nat, lo: nat, hi: nat)
    requires Encodes(v, disk, node, t) && Ordered(t, lo, hi) && hi < TWO32
    ensures MapNode(v, disk, node, t, lbn) == 0 <==> NoneCovers(Flatten(t), lbn)
  {
    DescentIsScan(v, disk, node, t, lbn, lo, hi);
    FlattenWithin(t, lo, hi);
    ScanZeroIff(Flatten(t), lbn, lo, hi);
  }

  /** The blocks that store the nodes below the root. */
  ghost function NodeBlocks(t: Tree): set<nat>
    decreases t
  {
    if t.Leaf? then {}
    else (set b | b in t.blocks) + set i, b | 0 <= i < |t.children| && b in NodeBlocks(t.children[i]) :: b
  }

  /** The encoding depends only on the root and on the node blocks. */
  lemma {:induction false} EncodesFrame(v: Volume, a: seq<byte>, b: seq<byte>, node: seq<byte>, t: Tree)
    requires Encodes(v, a, node, t) && forall m :: m in NodeBlocks(t) ==> SameBlock(v, a, b, m)
    ensures Encodes(v, b, node, t)
    decreases t
  {
    hide Header, KeyAt, ChildBlock, ExtentAt, Depth, Entries, Volume.At;
    if t.Leaf? {
    } else {
      forall i | 0 <= i < |t.children|
        ensures v.At(t.blocks[i]) + v.blockSize <= |b| && Encodes(v, b, BlockBytes(v, b, t.blocks[i]), t.children[i])
      {
        assert SameBlock(v, a, b, t.blocks[i]);
        var o := v.At(t.blocks[i]);
        SameSlice(a, b, o, o + v.blockSize);
        forall m | m in NodeBlocks(t.children[i]) ensures SameBlock(v, a, b, m) {
          assert m in NodeBlocks(t);
        }
        EncodesFrame(v, a, b, BlockBytes(v, a, t.blocks[i]), t.children[i]);
      }
    }
  }

  /** One level of the descent. */
  lemma Descend(v: Volume, disk: seq<byte>, node: seq<byte>, t: Tree, lbn: nat)
    requires Encodes(v, disk, node, t)
    ensures Header(node) && (Depth(node) == 0 ==> MapNode(v, disk, node, t, lbn) == LeafFrom(node, 0, lbn))
    ensures Depth(node) != 0 ==>
              var pick := PickFrom(node, 0, lbn, 0);
              && t.Node? && pick < Entries(node) == |t.blocks| == |t.children|
              && t.blocks[pick] == ChildBlock(node, pick)
              && v.At(t.blocks[pick]) + v.blockSize <= |disk|
              && Encodes(v, disk, BlockBytes(v, disk, t.blocks[pick]), t.children[pick])
              && MapNode(v, disk, node, t, lbn) ==
                 MapNode(v, disk, BlockBytes(v, disk, t.blocks[pick]), t.children[pick], lbn)
  {
    hide ChildBlock, KeyAt, ExtentAt, Volume.At;
    if Depth(node) != 0 {
      PickIsLast(v, disk, node, t, 0, lbn, 0);
    }
  }

  // ----- the code

  /** `map_extents_recurse` with its one static buffer, which every level below the root overwrites. */
  class ExtentReader {
    var buf: seq<byte>

    ghost predicate Valid()
      reads this
    {
      |buf| == 4096
    }

    /** The node a call works on: the inode's root, or the front of the static buffer. */
    function NodeBytes(v: Volume, root: seq<byte>, inBuf: bool): seq<byte>
      requires v.Valid() && Valid()
      reads this
    {
      if inBuf then buf[..v.blockSize] else root
    }

    method SearchLeaf(node: seq<byte>, lbn: nat) returns (r: nat)
      requires Header(node)
      ensures r == LeafFrom(node, 0, lbn)
    {
      hide ExtentAt;
      for i := 0 to Entries(node)
        invariant LeafFrom(node, i, lbn) == LeafFrom(node, 0, lbn)
      {
        var e := ExtentAt(node, i);
        if lbn < e.first || lbn >= (e.first + e.len) % TWO32 {
          continue;
        }
        return (e.phys + (lbn - e.first)) % TWO32;
      }
      return 0;
    }

    method PickChild(node: seq<byte>, lbn: nat) returns (pick: nat)
      requires Header(node)
      ensures pick == PickFrom(node, 0, lbn, 0)
    {
      hide KeyAt;
      pick := 0;
      for i := 0 to Entries(node)
        invariant PickFrom(node, i, lbn, pick) == PickFrom(node, 0, lbn, 0)
      {
        if KeyAt(node, i) <= lbn {
          pick := i;
        }
      }
    }

    method MapExtents(v: Volume, dev: Disk.Device, root: seq<byte>, inBuf: bool, lbn: nat, ghost t: Tree)
      returns (r: nat)
      requires v.Valid() && Valid() && WholeSectors(dev.bytes)
      requires Encodes(v, dev.bytes, NodeBytes(v, root, inBuf), t)
      modifies this
      ensures Valid()
      ensures r == MapNode(v, dev.bytes, old(NodeBytes(v, root, inBuf)), t, lbn)
      decreases t
    {
      hide Encodes, MapNode, Depth, ChildBlock, PickFrom, LeafFrom, WholeSectors, Volume.At;
      var node := NodeBytes(v, root, inBuf);
      Descend(v, dev.bytes, node, t, lbn);
      r := 0;
      if Le16At(node, 0) == MAGIC {
        if Depth(node) == 0 {
          r := SearchLeaf(node, lbn);
          return;
        }
        var pick := PickChild(node, lbn);
        var leaf := ChildBlock(node, pick);
        var blk := ReadBlockFull(v, dev, leaf);
        if blk.Some? {
          buf := blk.value + buf[v.blockSize..];
          assert buf[..v.blockSize] == blk.value;
          r := MapExtents(v, dev, root, true, lbn, t.children[pick]);
        }
      }
    }
  }
}
