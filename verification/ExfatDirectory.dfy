/**
 exFAT directory entry sets (sections 7.4, 7.6 and 7.7 of the exFAT
 specification): written by `populate_exfat.py`, parsed and listed by `exfat.c`.
 */
module ExfatDirectory {
  import opened Words
  import opened Bytes
  import opened ExfatTool

  /** A parsed directory entry; `name` is the name buffer up to its last unit, and may itself hold a NUL. */
  datatype Entry = Entry(name: seq<byte>, attributes: byte, first: u32, size: u64)

  const ENTRY: nat := 32

  function Min(a: nat, b: nat): nat { if a < b then a else b }

  // ----- the printer

  function EncodeUnits(units: seq<u16>): (s: seq<byte>)
    ensures |s| == 2 * |units|
    ensures forall k :: 0 <= k < |units| ==> Le16At(s, 2 * k) == units[k]
  {
    if units == [] then []
    else
      var s := Bytes16(units[0]) + EncodeUnits(units[1..]);
      assert forall k :: 1 <= k < |units| ==>
               s[2 * k] == EncodeUnits(units[1..])[2 * (k - 1)]
                 && s[2 * k + 1] == EncodeUnits(units[1..])[2 * (k - 1) + 1];
      s
  }

  function FileEntry(attrs: u16): (s: seq<byte>)
    ensures |s| == ENTRY
  {
    [0x85, 2, 0, 0] + Bytes16(attrs) + Zeros(26)
  }

  function StreamEntry(nameLength: byte, first: u32, size: u64): (s: seq<byte>)
    ensures |s| == ENTRY
  {
    [0xC0, 3, 0, nameLength] + Zeros(16) + Bytes32(first) + Bytes64(size)
  }

  function NameEntry(units: seq<u16>): (s: seq<byte>)
    requires |units| <= 15
    ensures |s| == ENTRY
  {
    [0xC1, 0] + EncodeUnits(units) + Zeros(30 - 2 * |units|)
  }

  /** `entry_set`: one file entry, one stream entry and a single name entry, so at most 15 characters are stored. */
  function EntrySet(units: seq<u16>, attrs: u16, first: u32, size: u64): (s: seq<byte>)
    requires |units| < 256
    ensures |s| == 3 * ENTRY
  {
    FileEntry(attrs) + StreamEntry(|units|, first, size) + NameEntry(units[..Min(15, |units|)])
  }

  // ----- the parser

  function Units(buf: seq<byte>, o: nat, n: nat): (u: seq<u16>)
    requires o + 2 * n <= |buf|
    ensures |u| == n && forall k :: 0 <= k < n ==> u[k] == Le16At(buf, o + 2 * k)
  {
    seq(n, k requires 0 <= k < n => Le16At(buf, o + 2 * k))
  }

  /** How many characters one name entry contributes. */
  function Share(nameLength: nat, have: nat): nat
  {
    if have >= nameLength || have >= 255 then 0 else Min(15, Min(nameLength - have, 255 - have))
  }

  /** The name characters gathered from secondary entry `si` on. */
  function NameUnits(buf: seq<byte>, off: nat, si: nat, secondary: nat, nameLength: nat, have: seq<u16>): (u: seq<u16>)
    requires si <= secondary + 1 && off + (secondary + 1) * ENTRY <= |buf| && |have| <= 255
    ensures |u| <= 255
    decreases secondary + 1 - si
  {
    if si > secondary || |have| >= nameLength then have
    else
      var e := off + si * ENTRY;
      if buf[e] != 0xC1 then NameUnits(buf, off, si + 1, secondary, nameLength, have)
      else NameUnits(buf, off, si + 1, secondary, nameLength, have + Units(buf, e + 2, Share(nameLength, |have|)))
  }

  /** Characters outside ASCII become question marks. */
  function ToName(units: seq<u16>): (s: seq<byte>)
    ensures |s| == |units|
  {
    seq(|units|, k requires 0 <= k < |units| => if units[k] < 128 then units[k] else 0x3F)
  }

  /** `parse_entry_set`. */
  function Parse(buf: seq<byte>, off: nat): (r: Option<Entry>)
    ensures r.Some? ==> off + 2 * ENTRY <= |buf| && buf[off] == 0x85
  {
    if off + ENTRY > |buf| || buf[off] != 0x85 then None
    else
      var secondary := buf[off + 1];
      if secondary < 1 || off + (secondary + 1) * ENTRY > |buf| then None
      else
        var stream := off + ENTRY;
        if buf[stream] != 0xC0 then None
        else
          Some(Entry(ToName(NameUnits(buf, off, 2, secondary, buf[stream + 3], [])),
                     Le16At(buf, off + 4) % 0x100, Le32At(buf, stream + 20), Le64At(buf, stream + 24)))
  }

  /** `parse_entry_set` as written: two nested loops over the name entries. */
  method ParseEntrySet(buf: seq<byte>, off: nat) returns (r: Option<Entry>)
    ensures r == Parse(buf, off)
  {
    if off + ENTRY > |buf| || buf[off] != 0x85 {
      return None;
    }
    var secondary := buf[off + 1];
    if secondary < 1 || off + (secondary + 1) * ENTRY > |buf| {
      return None;
    }
    var stream := off + ENTRY;
    if buf[stream] != 0xC0 {
      return None;
    }
    var nameLength := buf[stream + 3];
    var units: seq<u16> := [];
    var si := 2;
    while si <= secondary && |units| < nameLength
      invariant 2 <= si <= secondary + 1 && |units| <= 255
      invariant NameUnits(buf, off, si, secondary, nameLength, units) ==
                NameUnits(buf, off, 2, secondary, nameLength, [])
      decreases secondary + 1 - si
    {
      var e := off + ENTRY * si;
      if buf[e] == 0xC1 {
        var k := 0;
        ghost var start, share := units, Share(nameLength, |units|);
        while k < 15 && |units| < nameLength && |units| < 255
          invariant 0 <= k <= share && units == start + Units(buf, e + 2, k)
          decreases 15 - k
        {
          units := units + [Le16At(buf, e + 2 + k * 2)];
          k := k + 1;
        }
        assert k == share;
      }
      si := si + 1;
    }
    var name := ToName(units);
    return Some(Entry(name, Le16At(buf, off + 4) % 0x100, Le32At(buf, stream + 20), Le64At(buf, stream + 24)));
  }

  // ----- the parser inverts the printer

  /** The fields of a printed entry set, wherever it lies in a buffer. */
  lemma PrintedFields(s: seq<byte>, units: seq<u16>, attrs: u16, first: u32, size: u64)
    requires |units| < 256 && s == EntrySet(units, attrs, first, size)
    ensures s[0] == 0x85 && s[1] == 2 && Le16At(s, 4) == attrs
    ensures s[ENTRY] == 0xC0 && s[ENTRY + 3] == |units|
    ensures s[ENTRY + 20..ENTRY + 24] == Bytes32(first) && s[ENTRY + 24..ENTRY + 32] == Bytes64(size)
    ensures s[2 * ENTRY] == 0xC1
    ensures s[2 * ENTRY + 2..2 * ENTRY + 2 + 2 * Min(15, |units|)] == EncodeUnits(units[..Min(15, |units|)])
  {
    var file, stream, name := FileEntry(attrs), StreamEntry(|units|, first, size), NameEntry(units[..Min(15, |units|)]);
    assert s[..ENTRY] == file && s[ENTRY..2 * ENTRY] == stream && s[2 * ENTRY..] == name;
    assert s[4] == file[4] && s[5] == file[5];
    assert stream[20..24] == Bytes32(first) && stream[24..32] == Bytes64(size);
    assert s[ENTRY + 20..ENTRY + 24] == stream[20..24] && s[ENTRY + 24..ENTRY + 32] == stream[24..32];
    assert s[ENTRY + 3] == stream[3] && s[ENTRY] == stream[0];
  }

  lemma PrintedNumbers(s: seq<byte>, first: u32, size: u64)
    requires |s| == 3 * ENTRY
    requires s[ENTRY + 20..ENTRY + 24] == Bytes32(first) && s[ENTRY + 24..ENTRY + 32] == Bytes64(size)
    ensures Le32At(s, ENTRY + 20) == first && Le64At(s, ENTRY + 24) == size
  {
    SameField(s, Bytes32(first), ENTRY + 20, 0);
    var b := Bytes64(size);
    assert s[ENTRY + 24..ENTRY + 28] == b[0..4] && s[ENTRY + 28..ENTRY + 32] == b[4..8] by {
      SliceOfSlice(s, ENTRY + 24, ENTRY + 32, 0, 4);
      SliceOfSlice(s, ENTRY + 24, ENTRY + 32, 4, 8);
    }
    SameField(s, b, ENTRY + 24, 0);
    SameField(s, b, ENTRY + 28, 4);
  }

  lemma OneNameEntry(s: seq<byte>, n: nat)
    requires |s| == 3 * ENTRY && s[2 * ENTRY] == 0xC1
    ensures NameUnits(s, 0, 2, 2, n, []) == Units(s, 2 * ENTRY + 2, Share(n, 0))
  {
    var u := Units(s, 2 * ENTRY + 2, Share(n, 0));
    assert [] + u == u;
    assert NameUnits(s, 0, 3, 2, n, u) == u;
    assert n == 0 ==> u == [];
  }

  /** The characters `head` stand at offset `o`. */
  predicate Coded(s: seq<byte>, o: nat, head: seq<u16>)
  {
    o + 2 * |head| <= |s| && s[o..o + 2 * |head|] == EncodeUnits(head)
  }

  lemma CodedUnits(s: seq<byte>, o: nat, head: seq<u16>)
    requires Coded(s, o, head)
    ensures Units(s, o, |head|) == head
  {
    var code, u := EncodeUnits(head), Units(s, o, |head|);
    forall k | 0 <= k < |head| ensures u[k] == head[k] {
      assert code[2 * k] == s[o + 2 * k] && code[2 * k + 1] == s[o + 2 * k + 1];
    }
  }

  lemma PrintedName(s: seq<byte>, units: seq<u16>)
    requires |s| == 3 * ENTRY && |units| < 256 && s[2 * ENTRY] == 0xC1
             && Coded(s, 2 * ENTRY + 2, units[..Min(15, |units|)])
    ensures NameUnits(s, 0, 2, 2, |units|, []) == units[..Min(15, |units|)]
  {
    hide NameUnits, Coded, Units;
    OneNameEntry(s, |units|);
    CodedUnits(s, 2 * ENTRY + 2, units[..Min(15, |units|)]);
  }

  /** `parse_entry_set` inverts `entry_set` on all fields; of the name it recovers the first 15 characters. */
  lemma ParsePrinted(units: seq<u16>, attrs: u16, first: u32, size: u64)
    requires |units| < 256
    ensures Parse(EntrySet(units, attrs, first, size), 0) ==
            Some(Entry(ToName(units[..Min(15, |units|)]), attrs % 0x100, first, size))
  {
    var s := EntrySet(units, attrs, first, size);
    PrintedFields(s, units, attrs, first, size);
    hide EntrySet, NameUnits, EncodeUnits;
    PrintedNumbers(s, first, size);
    PrintedName(s, units);
  }

  /** As a C string the name comes back exactly when it has at most 15 characters, all ASCII and none of them NUL. */
  lemma NameComesBackIff(units: seq<u16>)
    ensures var kept := |units| <= 15 && forall k :: 0 <= k < |units| ==> 0 < units[k] < 128;
            && (CString(ToName(units[..Min(15, |units|)])) == units <==> kept)
            && (kept ==> ToName(units[..Min(15, |units|)]) == units)
  {
    var name := ToName(units[..Min(15, |units|)]);
    CStringIsPrefix(name);
    if |units| <= 15 {
      assert units[..|units|] == units;
      assert forall k :: 0 <= k < |units| ==> (name[k] == units[k] <==> units[k] < 128);
    }
  }

  // ----- a parse depends only on the bytes of its own entry set

  /** Length in bytes of the entry set at `off`. */
  function SetLength(buf: seq<byte>, off: nat): nat
    requires off + 1 < |buf|
  {
    (buf[off + 1] + 1) * ENTRY
  }

  lemma {:induction false} NameAlone(a: seq<byte>, o: nat, b: seq<byte>, si: nat, secondary: nat, n: nat,
                                     have: seq<u16>)
    requires si <= secondary + 1 && |have| <= 255
    requires o + (secondary + 1) * ENTRY <= |a| && b == a[o..o + (secondary + 1) * ENTRY]
    ensures NameUnits(a, o, si, secondary, n, have) == NameUnits(b, 0, si, secondary, n, have)
    decreases secondary + 1 - si
  {
    if si > secondary || |have| >= n {
    } else {
      var e, t := si * ENTRY, Share(n, |have|);
      if a[o + e] != 0xC1 {
        NameAlone(a, o, b, si + 1, secondary, n, have);
      } else {
        assert Units(a, o + e + 2, t) == Units(b, 0 + e + 2, t);
        NameAlone(a, o, b, si + 1, secondary, n, have + Units(a, o + e + 2, t));
      }
    }
  }

  lemma ParseAlone(buf: seq<byte>, off: nat)
    requires off + 1 < |buf| && off + SetLength(buf, off) <= |buf|
    ensures Parse(buf, off) == Parse(buf[off..off + SetLength(buf, off)], 0)
  {
    var len := SetLength(buf, off);
    var b := buf[off..off + len];
    assert b[0] == buf[off] && b[1] == buf[off + 1];
    if buf[off] == 0x85 && buf[off + 1] >= 1 && buf[off + ENTRY] == 0xC0 {
      var stream := off + ENTRY;
      assert forall k :: 0 <= k < len ==> b[k] == buf[off + k];
      assert Le16At(b, 4) == Le16At(buf, off + 4);
      assert Le32At(b, ENTRY + 20) == Le32At(buf, stream + 20);
      assert Le64At(b, ENTRY + 24) == Le64At(buf, stream + 24);
      NameAlone(buf, off, b, 2, buf[off + 1], buf[stream + 3], []);
    }
  }

  /** Two buffers that agree on an entry set parse it alike. */
  lemma ParseFrame(a: seq<byte>, b: seq<byte>, off: nat)
    requires off + 1 < |a| == |b| && Parse(a, off).Some?
    requires a[off..off + SetLength(a, off)] == b[off..off + SetLength(a, off)]
    ensures Parse(b, off) == Parse(a, off) && b[off] == a[off] && SetLength(b, off) == SetLength(a, off)
  {
    var len := SetLength(a, off);
    var x, y := a[off..off + len], b[off..off + len];
    assert x[0] == y[0] && x[1] == y[1];
    ParseAlone(a, off);
    ParseAlone(b, off);
  }

  // ----- listing and appending

  /** Entries of one directory cluster from `off` on, and whether the end marker was met. */
  function List(buf: seq<byte>, off: nat): (seq<Entry>, bool)
    decreases |buf| - off
  {
    if off >= |buf| then ([], false)
    else if buf[off] == 0 then ([], true)
    else
      match Parse(buf, off)
      case None => List(buf, off + ENTRY)
      case Some(e) => var rest := List(buf, off + SetLength(buf, off)); ([e] + rest.0, rest.1)
  }

  /** Whole entries, and every file entry starts an entry set that parses. */
  ghost predicate WellFormed(buf: seq<byte>, off: nat)
    decreases |buf| - off
  {
    if off >= |buf| then off == |buf|
    else
      && off + ENTRY <= |buf|
      && (buf[off] == 0 || WellFormed(buf, Skip(buf, off)))
      && (buf[off] == 0x85 ==> Parse(buf, off).Some?)
  }

  /** Where the builder's walk goes from an entry in use. */
  function Skip(buf: seq<byte>, off: nat): (next: nat)
    requires off + ENTRY <= |buf|
    ensures next > off
  {
    if buf[off] == 0x85 then off + SetLength(buf, off) else off + ENTRY
  }

  /** The slot `append_entries` takes for `n` bytes; `None` is its RuntimeError. */
  function FreeSlot(buf: seq<byte>, off: nat, n: nat): Option<nat>
    requires n >= ENTRY
    decreases |buf| - off
  {
    if off + n > |buf| then None
    else if buf[off] == 0 then Some(off)
    else FreeSlot(buf, Skip(buf, off), n)
  }

  /** The directory with `set` written at `slot` and the end marker after it. */
  function Appended(buf: seq<byte>, slot: nat, set_: seq<byte>): (r: seq<byte>)
    requires slot + |set_| <= |buf|
    ensures |r| == |buf|
  {
    var b := Splice(buf, slot, set_);
    if slot + |set_| < |buf| then b[slot + |set_| := 0] else b
  }

  lemma AppendedBytes(buf: seq<byte>, slot: nat, set_: seq<byte>)
    requires slot + |set_| <= |buf|
    ensures Appended(buf, slot, set_)[..slot] == buf[..slot]
    ensures Appended(buf, slot, set_)[slot..slot + |set_|] == set_
    ensures slot + |set_| < |buf| ==> Appended(buf, slot, set_)[slot + |set_|] == 0
  {
    SpliceAt(buf, slot, set_);
  }

  /** The new entry set itself lists as one entry. */
  lemma NewEntry(buf: seq<byte>, slot: nat, units: seq<u16>, attrs: u16, first: u32, size: u64)
    requires |units| < 256 && slot + 3 * ENTRY <= |buf|
    requires buf[slot..slot + 3 * ENTRY] == EntrySet(units, attrs, first, size)
    requires slot + 3 * ENTRY < |buf| ==> buf[slot + 3 * ENTRY] == 0
    ensures List(buf, slot) == ([Listed(units, attrs, first, size)], slot + 3 * ENTRY < |buf|)
    ensures slot + 3 * ENTRY == |buf| || slot + 4 * ENTRY <= |buf| ==> WellFormed(buf, slot)
  {
    var s := EntrySet(units, attrs, first, size);
    PrintedFields(s, units, attrs, first, size);
    ParsePrinted(units, attrs, first, size);
    assert buf[slot] == s[0] && buf[slot + 1] == s[1];
    hide EntrySet;
    ParseAlone(buf, slot);
    hide Parse;
    var e := Listed(units, attrs, first, size);
    assert List(buf, slot + 3 * ENTRY) == ([], slot + 3 * ENTRY < |buf|);
    assert [e] + [] == [e];
    assert WellFormed(buf, slot + 3 * ENTRY) || (slot + 3 * ENTRY < |buf| < slot + 4 * ENTRY);
  }

  /** How the kernel shows an entry the builder wrote. */
  function Listed(units: seq<u16>, attrs: u16, first: u32, size: u64): Entry
  {
    Entry(ToName(units[..Min(15, |units|)]), attrs % 0x100, first, size)
  }

  /** One entry before the slot: the walks over the old and the new directory take the same step. */
  lemma SameStep(buf: seq<byte>, buf': seq<byte>, off: nat, slot: nat)
    requires WellFormed(buf, off) && off + ENTRY <= |buf| == |buf'| && buf[off] != 0
    requires Skip(buf, off) <= slot <= |buf| && buf'[..slot] == buf[..slot]
    ensures buf'[off] == buf[off] && Parse(buf', off) == Parse(buf, off) && Skip(buf', off) == Skip(buf, off)
    ensures WellFormed(buf', Skip(buf', off)) ==> WellFormed(buf', off)
  {
    hide Parse;
    assert buf'[off] == buf'[..slot][off] && buf[off] == buf[..slot][off];
    if buf[off] == 0x85 {
      var hi := Skip(buf, off);
      SliceOfSlice(buf, 0, slot, off, hi);
      SliceOfSlice(buf', 0, slot, off, hi);
      ParseFrame(buf, buf', off);
    }
  }

  /** The entry one step of the walk lists, if it is a file entry. */
  function Head(buf: seq<byte>, off: nat): seq<Entry>
  {
    var p := Parse(buf, off);
    if p.Some? then [p.value] else []
  }

  lemma ListStep(buf: seq<byte>, off: nat)
    requires WellFormed(buf, off) && off + ENTRY <= |buf| && buf[off] != 0
    ensures WellFormed(buf, Skip(buf, off))
    ensures List(buf, off) == (Head(buf, off) + List(buf, Skip(buf, off)).0, List(buf, Skip(buf, off)).1)
  {
    hide Parse;
    if buf[off] == 0x85 {
      assert Parse(buf, off).Some?;
    } else {
      var l := List(buf, off + ENTRY).0;
      assert [] + l == l;
    }
  }

  lemma NothingListed(buf: seq<byte>, off: nat)
    requires off < |buf| && buf[off] == 0
    ensures List(buf, off) == ([], true)
  {
  }

  /** The entries before the slot list as before, whatever is at the slot. */
  lemma {:induction false} ListBefore(buf: seq<byte>, buf': seq<byte>, off: nat, slot: nat)
    requires WellFormed(buf, off) && FreeSlot(buf, off, 3 * ENTRY) == Some(slot)
    requires off <= slot <= |buf| == |buf'| && buf'[..slot] == buf[..slot] && WellFormed(buf', slot)
    ensures WellFormed(buf', off)
    ensures List(buf', off) == (List(buf, off).0 + List(buf', slot).0, List(buf', slot).1)
    decreases |buf| - off
  {
    hide Parse, List, Skip, WellFormed;
    SlotAhead(buf, off);
    if buf[off] == 0 {
      NothingListed(buf, off);
      assert [] + List(buf', slot).0 == List(buf', slot).0;
    } else {
      var next := Skip(buf, off);
      SlotAhead(buf, next);
      SameStep(buf, buf', off, slot);
      ListStep(buf, off);
      ListBefore(buf, buf', next, slot);
      ListStep(buf', off);
      var h, l, t := Head(buf, off), List(buf, next).0, List(buf', slot).0;
      assert (h + l) + t == h + (l + t);
    }
  }

  /** The slot lies ahead, with room for the set, and is marked free. */
  lemma {:induction false} SlotAhead(buf: seq<byte>, off: nat)
    requires FreeSlot(buf, off, 3 * ENTRY).Some?
    ensures var slot := FreeSlot(buf, off, 3 * ENTRY).value;
            off <= slot && slot + 3 * ENTRY <= |buf| && buf[slot] == 0
    decreases |buf| - off
  {
    if buf[off] == 0 {
    } else {
      SlotAhead(buf, Skip(buf, off));
    }
  }

  lemma {:induction false} SlotAligned(buf: seq<byte>, off: nat)
    requires FreeSlot(buf, off, 3 * ENTRY).Some? && off % ENTRY == 0
    ensures (FreeSlot(buf, off, 3 * ENTRY).value + 3 * ENTRY) % ENTRY == 0
    decreases |buf| - off
  {
    if buf[off] == 0 {
    } else {
      SlotAligned(buf, Skip(buf, off));
    }
  }

  lemma RoomAfter(end: nat, n: nat)
    requires end <= n && end % ENTRY == 0 && n % ENTRY == 0
    ensures end == n || end + ENTRY <= n
  {
  }

  /** `append_entries`: the kernel then lists the old entries and the new one last. */
  lemma AppendLists(buf: seq<byte>, slot: nat, units: seq<u16>, attrs: u16, first: u32, size: u64)
    requires |units| < 256 && |buf| % ENTRY == 0
    requires WellFormed(buf, 0) && FreeSlot(buf, 0, 3 * ENTRY) == Some(slot)
    ensures slot + 3 * ENTRY <= |buf|
    ensures var buf' := Appended(buf, slot, EntrySet(units, attrs, first, size));
            && WellFormed(buf', 0)
            && List(buf', 0) == (List(buf, 0).0 + [Listed(units, attrs, first, size)], slot + 3 * ENTRY < |buf|)
  {
    hide FreeSlot, List, WellFormed, Listed, EntrySet, Appended;
    SlotAhead(buf, 0);
    var s := EntrySet(units, attrs, first, size);
    var buf' := Appended(buf, slot, s);
    AppendedBytes(buf, slot, s);
    SlotAligned(buf, 0);
    RoomAfter(slot + 3 * ENTRY, |buf|);
    NewEntry(buf', slot, units, attrs, first, size);
    ListBefore(buf, buf', 0, slot);
  }

  /** Where the walk ends: the first end marker, or the end of the cluster. */
  ghost function End(buf: seq<byte>, off: nat): nat
    requires WellFormed(buf, off)
    decreases |buf| - off
  {
    if off == |buf| || buf[off] == 0 then off else End(buf, Skip(buf, off))
  }

  /** `append_entries` fails exactly when the set does not fit between the last entry and the end of the cluster. */
  lemma {:induction false} AppendIffRoom(buf: seq<byte>, off: nat, n: nat)
    requires WellFormed(buf, off) && n >= ENTRY
    ensures FreeSlot(buf, off, n) == if End(buf, off) + n <= |buf| then Some(End(buf, off)) else None
    ensures off <= End(buf, off) <= |buf|
    decreases |buf| - off
  {
    if off >= |buf| || buf[off] == 0 {
    } else {
      AppendIffRoom(buf, Skip(buf, off), n);
    }
  }
}
