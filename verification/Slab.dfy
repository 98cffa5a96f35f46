/**
 The slab allocator of `slab.c` over word-addressed memory: `mem[w]` is the
 64-bit word at byte address `8 * w`, and a pointer is held as its word index.
 */
module Slab {
  import opened Words

  const CLASSES: nat := 6
  const MAGIC: nat := 0x534C4142
  const PAGE_WORDS: nat := 512

  function SlotBytes(c: nat): nat
    requires c < CLASSES
  {
    [32, 64, 128, 256, 512, 1024][c]
  }

  function SlotWords(c: nat): nat
    requires c < CLASSES
  {
    [4, 8, 16, 32, 64, 128][c]
  }

  function PerPage(c: nat): nat
    requires c < CLASSES
  {
    [128, 64, 32, 16, 8, 4][c]
  }

  /** The header word: `magic` in the low half, `class_index` in the high half. */
  function Header(c: nat): nat { MAGIC + c * TWO32 }

  /** A pointer as stored in memory. */
  function Address(w: nat): nat { 8 * w }

  /** Memory, the six list heads (0 for an empty list) and the next page of `vm_alloc_page`. */
  datatype State = State(mem: seq<u64>, heads: seq<nat>, bump: nat)
  {
    predicate Shape()
    {
      && |heads| == CLASSES && bump * PAGE_WORDS <= |mem| && 8 * |mem| <= TWO64
      && forall c :: 0 <= c < CLASSES ==> heads[c] < |mem|
    }

    predicate HasRoom() { (bump + 1) * PAGE_WORDS <= |mem| }
  }

  /** The first class at or after `i` that holds `need` bytes. */
  function ClassFrom(need: nat, i: nat): (c: int)
    requires i <= CLASSES
    ensures c == -1 ==> forall k :: i <= k < CLASSES ==> SlotBytes(k) < need
    ensures c != -1 ==> i <= c < CLASSES && need <= SlotBytes(c) && forall k :: i <= k < c ==> SlotBytes(k) < need
    decreases CLASSES - i
  {
    if i == CLASSES then -1
    else if need <= SlotBytes(i) then i
    else ClassFrom(need, i + 1)
  }

  /** `class_for`; `size + sizeof(SlabHeader)` is a 64-bit sum. */
  function ClassFor(size: u64): int { ClassFrom((size + 8) % TWO64, 0) }

  /** Payload word of slot `k` of a page carved for class `c`. */
  function SlotAt(page: nat, c: nat, k: nat): nat
    requires c < CLASSES
  {
    if k == 0 then page * PAGE_WORDS + 1 else SlotAt(page, c, k - 1) + SlotWords(c)
  }

  /** `o` is a multiple of the slot size. */
  predicate OnSlot(o: nat, c: nat)
    requires c < CLASSES
    decreases o
  {
    o == 0 || (o >= SlotWords(c) && OnSlot(o - SlotWords(c), c))
  }

  /** The slot whose payload word is `n` was carved for class `c`. */
  predicate IsSlot(pages: map<nat, nat>, n: nat, c: nat)
    requires c < CLASSES
  {
    n > 0 && (n - 1) / PAGE_WORDS in pages && pages[(n - 1) / PAGE_WORDS] == c
    && OnSlot((n - 1) % PAGE_WORDS, c)
  }

  lemma {:induction false} OnSlotIndex(o: nat, c: nat, page: nat) returns (k: nat)
    requires c < CLASSES && OnSlot(o, c)
    ensures o == k * SlotWords(c) && page * PAGE_WORDS + 1 + o == SlotAt(page, c, k)
    decreases o
  {
    k := 0;
    if o == 0 {
    } else {
      k := OnSlotIndex(o - SlotWords(c), c, page);
      k := k + 1;
      assert k * SlotWords(c) == (k - 1) * SlotWords(c) + SlotWords(c);
    }
  }

  lemma {:induction false} IndexOnSlot(c: nat, k: nat, page: nat) returns (o: nat)
    requires c < CLASSES
    ensures o == k * SlotWords(c) && OnSlot(o, c) && SlotAt(page, c, k) == page * PAGE_WORDS + 1 + o
  {
    o := 0;
    if k == 0 {
    } else {
      o := IndexOnSlot(c, k - 1, page);
      o := o + SlotWords(c);
      assert k * SlotWords(c) == (k - 1) * SlotWords(c) + SlotWords(c);
    }
  }

  /** A page holds a whole number of slots. */
  lemma WholeSlots(c: nat, k: nat)
    requires c < CLASSES
    ensures k < PerPage(c) <==> k * SlotWords(c) < PAGE_WORDS
    ensures k < PerPage(c) <==> k * SlotWords(c) + SlotWords(c) <= PAGE_WORDS
  {
    if c == 0 {} else if c == 1 {} else if c == 2 {} else if c == 3 {} else if c == 4 {} else {}
  }

  lemma SlotPlace(page: nat, c: nat, k: nat)
    requires c < CLASSES && k < PerPage(c)
    ensures var n := SlotAt(page, c, k);
            && n > 0 && (n - 1) / PAGE_WORDS == page && OnSlot((n - 1) % PAGE_WORDS, c)
            && n - 1 + SlotWords(c) <= (page + 1) * PAGE_WORDS
  {
    var o := IndexOnSlot(c, k, page);
    WholeSlots(c, k);
    PageAndOffset(page, o);
  }

  lemma PageAndOffset(page: nat, o: nat)
    requires o < PAGE_WORDS
    ensures (page * PAGE_WORDS + o) / PAGE_WORDS == page && (page * PAGE_WORDS + o) % PAGE_WORDS == o
  {
  }

  lemma PlaceOf(pages: map<nat, nat>, n: nat, c: nat) returns (page: nat, k: nat)
    requires c < CLASSES && IsSlot(pages, n, c)
    ensures page == (n - 1) / PAGE_WORDS && k < PerPage(c) && n == SlotAt(page, c, k)
  {
    page := (n - 1) / PAGE_WORDS;
    k := OnSlotIndex((n - 1) % PAGE_WORDS, c, page);
    WholeSlots(c, k);
  }

  /** Two slots share no word. */
  lemma SlotsDisjoint(pages: map<nat, nat>, n: nat, c: nat, m: nat, d: nat)
    requires c < CLASSES && d < CLASSES && IsSlot(pages, n, c) && IsSlot(pages, m, d) && n != m
    ensures n - 1 + SlotWords(c) <= m - 1 || m - 1 + SlotWords(d) <= n - 1
  {
    var page, k := PlaceOf(pages, n, c);
    var page', k' := PlaceOf(pages, m, d);
    SlotPlace(page, c, k);
    SlotPlace(page', d, k');
    if page == page' {
      if k < k' {
        Spacing(page, c, k, k');
      } else {
        Spacing(page, c, k', k);
      }
    }
  }

  lemma {:induction false} Spacing(page: nat, c: nat, k: nat, k': nat)
    requires c < CLASSES && k < k'
    ensures SlotAt(page, c, k) + SlotWords(c) <= SlotAt(page, c, k')
  {
    if k == k' - 1 {
    } else {
      Spacing(page, c, k, k' - 1);
    }
  }

  // ----- the operations

  /** `vm_alloc_page`: the next page, zeroed. */
  function TakePage(s: State): (t: State)
    requires s.Shape() && s.HasRoom()
    ensures t.Shape() && t.bump == s.bump + 1 && t.heads == s.heads && |t.mem| == |s.mem|
    ensures forall w :: 0 <= w < |s.mem| ==> t.mem[w] == if w / PAGE_WORDS == s.bump then 0 else s.mem[w]
  {
    s.(mem := seq(|s.mem|, w requires 0 <= w < |s.mem| => if w / PAGE_WORDS == s.bump then 0 else s.mem[w]),
       bump := s.bump + 1)
  }

  /** `vm_alloc_page` followed by carving the first `k` slots of the page. */
  function Carve(s: State, c: nat, k: nat): (t: State)
    requires s.Shape() && s.HasRoom() && c < CLASSES && k <= PerPage(c)
    ensures t.Shape() && t.bump == s.bump + 1 && |t.mem| == |s.mem|
  {
    if k == 0 then TakePage(s)
    else
      var t := Carve(s, c, k - 1);
      SlotPlace(s.bump, c, k - 1);
      var n := SlotAt(s.bump, c, k - 1);
      t.(mem := t.mem[n - 1 := Header(c)][n := Address(t.heads[c])], heads := t.heads[c := n])
  }

  /** The list of class `c`, refilled from a fresh page if it is empty. */
  function Stocked(s: State, c: nat): State
    requires s.Shape() && c < CLASSES && (s.heads[c] == 0 ==> s.HasRoom())
  {
    if s.heads[c] == 0 then Carve(s, c, PerPage(c)) else s
  }

  /** A page is left if the request has to take one. */
  predicate CanServe(s: State, size: u64)
  {
    s.Shape() && (ClassFor(size) >= 0 && s.heads[ClassFor(size)] == 0 ==> s.HasRoom())
  }

  /** `slab_alloc`: the new state and the slot, or 0. */
  function Alloc(s: State, size: u64): (State, nat)
    requires CanServe(s, size)
  {
    var c := ClassFor(size);
    if c < 0 then (s, 0)
    else
      var t := Stocked(s, c);
      var n := t.heads[c];
      (t.(heads := t.heads[c := t.mem[n] / 8]), n)
  }

  /** The class a header word names, if its magic and class index are right. */
  function HeaderClass(h: u64): int
  {
    if h % TWO32 == MAGIC && h / TWO32 < CLASSES then h / TWO32 else -1
  }

  /** `slab_free`: the new state and whether the pointer was a slot. */
  function Free(s: State, n: nat): (State, bool)
    requires s.Shape() && n < |s.mem|
  {
    if n == 0 then (s, false)
    else
      var c := HeaderClass(s.mem[n - 1]);
      if c < 0 then (s, false)
      else (s.(mem := s.mem[n := Address(s.heads[c])], heads := s.heads[c := n]), true)
  }

  // ----- the invariant

  /** Pages carved, free lists, and the requested size of every live slot. */
  datatype Book = Book(pages: map<nat, nat>, free: seq<seq<nat>>, live: map<nat, nat>)

  function Link(list: seq<nat>, k: nat): nat { if k < |list| then list[k] else 0 }

  /** The free list in memory is `list`: null-terminated, hence acyclic. */
  ghost predicate Chain(mem: seq<u64>, head: nat, list: seq<nat>)
  {
    && head == Link(list, 0)
    && (forall k :: 0 <= k < |list| ==> 0 < list[k] < |mem| && mem[list[k]] == Address(Link(list, k + 1)))
  }

  ghost predicate NoRepeats(list: seq<nat>) { forall i, j :: 0 <= i < j < |list| ==> list[i] != list[j] }

  /** The free list of class `c`: linked in memory, without repeats, all slots of class `c`. */
  ghost predicate ListOk(mem: seq<u64>, head: nat, pages: map<nat, nat>, list: seq<nat>, c: nat)
    requires c < CLASSES
  {
    && Chain(mem, head, list) && NoRepeats(list)
    && (forall k :: 0 <= k < |list| ==> IsSlot(pages, list[k], c))
  }

  /** Carved for some class. */
  ghost predicate Carved(pages: map<nat, nat>, n: nat) { exists c: nat :: c < CLASSES && IsSlot(pages, n, c) }

  ghost predicate SlotsOk(mem: seq<u64>, b: Book)
    requires |b.free| == CLASSES
  {
    && (forall n :: n in b.live ==> Carved(b.pages, n))
    && (forall n: nat, c: nat :: c < CLASSES && IsSlot(b.pages, n, c) ==> SlotOk(mem, b, n, c))
  }

  ghost predicate Inv(s: State, b: Book)
  {
    && s.Shape() && |b.free| == CLASSES
    && (forall p :: p in b.pages ==> p < s.bump && b.pages[p] < CLASSES)
    && (forall c :: 0 <= c < CLASSES ==> ListOk(s.mem, s.heads[c], b.pages, b.free[c], c))
    && SlotsOk(s.mem, b)
  }

  /** A slot is either live or on its own class's free list; its header is intact; it is large enough. */
  ghost predicate SlotOk(mem: seq<u64>, b: Book, n: nat, c: nat)
    requires c < CLASSES && |b.free| == CLASSES && IsSlot(b.pages, n, c)
  {
    && n - 1 + SlotWords(c) <= |mem|
    && mem[n - 1] == Header(c)
    && (n in b.live <==> n !in b.free[c])
    && (n in b.live ==> b.live[n] <= SlotBytes(c) - 8)
  }

  // ----- one list

  lemma ListFrame(mem: seq<u64>, mem': seq<u64>, head: nat, pages: map<nat, nat>, list: seq<nat>, c: nat)
    requires c < CLASSES && ListOk(mem, head, pages, list, c) && |mem'| == |mem|
    requires forall k :: 0 <= k < |list| ==> mem'[list[k]] == mem[list[k]]
    ensures ListOk(mem', head, pages, list, c)
  {
  }

  lemma PushList(mem: seq<u64>, head: nat, pages: map<nat, nat>, list: seq<nat>, c: nat, n: nat)
    requires c < CLASSES && ListOk(mem, head, pages, list, c)
    requires n !in list && 0 < n < |mem| && IsSlot(pages, n, c) && Address(head) < TWO64
    ensures ListOk(mem[n := Address(head)], n, pages, [n] + list, c)
  {
    var list' := [n] + list;
    forall k | 0 <= k < |list'|
      ensures 0 < list'[k] < |mem| && mem[n := Address(head)][list'[k]] == Address(Link(list', k + 1))
      ensures IsSlot(pages, list'[k], c)
    {
      if k > 0 {
        assert list'[k] == list[k - 1] && Link(list', k + 1) == Link(list, k);
      }
    }
  }

  lemma PopList(mem: seq<u64>, head: nat, pages: map<nat, nat>, list: seq<nat>, c: nat)
    requires c < CLASSES && ListOk(mem, head, pages, list, c) && list != []
    ensures head == list[0] && 0 < head < |mem| && ListOk(mem, mem[head] / 8, pages, list[1..], c)
    ensures mem[head] / 8 < |mem|
    ensures list[0] !in list[1..] && forall m :: m in list <==> m == list[0] || m in list[1..]
  {
    var rest := list[1..];
    HeadAndTail(list);
    assert mem[head] == Address(Link(list, 1)) && Link(list, 1) == Link(rest, 0);
    forall k | 0 <= k < |rest|
      ensures 0 < rest[k] < |mem| && mem[rest[k]] == Address(Link(rest, k + 1)) && IsSlot(pages, rest[k], c)
    {
      assert rest[k] == list[k + 1] && Link(rest, k + 1) == Link(list, k + 2);
    }
  }

  lemma HeadAndTail(list: seq<nat>)
    requires list != [] && NoRepeats(list)
    ensures list[0] !in list[1..] && NoRepeats(list[1..])
    ensures forall m :: m in list <==> m == list[0] || m in list[1..]
  {
    assert list == [list[0]] + list[1..];
  }

  // ----- steps

  /** Only the words of carved pages matter to the invariant. */
  lemma ForeignWrites(s: State, b: Book, mem': seq<u64>)
    requires Inv(s, b) && |mem'| == |s.mem|
    requires forall w :: 0 <= w < |mem'| && w / PAGE_WORDS in b.pages ==> mem'[w] == s.mem[w]
    ensures Inv(s.(mem := mem'), b)
  {
    forall n: nat, c: nat | c < CLASSES && IsSlot(b.pages, n, c)
      ensures SlotOk(mem', b, n, c) && mem'[n] == s.mem[n]
    {
      assert SlotOk(s.mem, b, n, c);
      SlotWordsInPage(b.pages, n, c);
    }
    forall c | 0 <= c < CLASSES ensures ListOk(mem', s.heads[c], b.pages, b.free[c], c) {
      ListFrame(s.mem, mem', s.heads[c], b.pages, b.free[c], c);
    }
  }

  /** A page that is taken and not carved changes nothing for the slab. */
  lemma LaterBump(s: State, b: Book)
    requires Inv(s, b) && s.HasRoom()
    ensures Inv(s.(bump := s.bump + 1), b)
  {
  }

  lemma SlotWordsInPage(pages: map<nat, nat>, n: nat, c: nat)
    requires c < CLASSES && IsSlot(pages, n, c)
    ensures forall w :: n - 1 <= w < n - 1 + SlotWords(c) ==> w / PAGE_WORDS in pages
    ensures SlotWords(c) >= 4
  {
    var page, k := PlaceOf(pages, n, c);
    SlotPlace(page, c, k);
    forall w | n - 1 <= w < n - 1 + SlotWords(c) ensures w / PAGE_WORDS == page {}
  }

  /** A write inside the payload of slot `n` reaches no header and no other slot. */
  lemma PayloadWrite(mem: seq<u64>, b: Book, n: nat, c: nat, w: nat, v: u64)
    requires |b.free| == CLASSES && SlotsOk(mem, b)
    requires c < CLASSES && IsSlot(b.pages, n, c) && n <= w < n - 1 + SlotWords(c)
    ensures w < |mem| && SlotsOk(mem[w := v], b)
    ensures forall m: nat, d: nat :: d < CLASSES && IsSlot(b.pages, m, d) && m != n ==> mem[w := v][m] == mem[m]
  {
    assert SlotOk(mem, b, n, c);
    forall m: nat, d: nat | d < CLASSES && IsSlot(b.pages, m, d)
      ensures SlotOk(mem[w := v], b, m, d) && (m != n ==> mem[w := v][m] == mem[m])
    {
      assert SlotOk(mem, b, m, d);
      if m != n {
        SlotsDisjoint(b.pages, n, c, m, d);
        SlotWordsInPage(b.pages, m, d);
      }
    }
  }

  lemma LiveIsNotFree(s: State, b: Book, n: nat, d: nat)
    requires Inv(s, b) && d < CLASSES && n in b.live
    ensures n !in b.free[d]
  {
    assert ListOk(s.mem, s.heads[d], b.pages, b.free[d], d);
    forall k | 0 <= k < |b.free[d]| ensures b.free[d][k] != n {
      assert SlotOk(s.mem, b, b.free[d][k], d);
    }
  }

  /** A client may write anything to the payload of a live slot. */
  lemma StoreStep(s: State, b: Book, n: nat, c: nat, w: nat, v: u64)
    requires Inv(s, b) && c < CLASSES && IsSlot(b.pages, n, c) && n in b.live
    requires n <= w < n - 1 + SlotWords(c)
    ensures w < |s.mem| && Inv(s.(mem := s.mem[w := v]), b)
  {
    PayloadWrite(s.mem, b, n, c, w, v);
    forall d | 0 <= d < CLASSES ensures ListOk(s.mem[w := v], s.heads[d], b.pages, b.free[d], d) {
      LiveIsNotFree(s, b, n, d);
      ListFrame(s.mem, s.mem[w := v], s.heads[d], b.pages, b.free[d], d);
    }
  }

  /** The book after slot `n` of class `c` goes back on its list. */
  function Returned(b: Book, n: nat, c: nat): Book
    requires c < |b.free|
  {
    b.(free := b.free[c := [n] + b.free[c]], live := map m | m in b.live && m != n :: b.live[m])
  }

  lemma HeaderRoundTrip(c: nat)
    requires c < CLASSES
    ensures Header(c) < TWO64 && HeaderClass(Header(c)) == c
  {
  }

  lemma ReturnedSlots(mem: seq<u64>, b: Book, n: nat, c: nat)
    requires |b.free| == CLASSES && SlotsOk(mem, b)
    requires c < CLASSES && IsSlot(b.pages, n, c) && n in b.live
    ensures SlotsOk(mem, Returned(b, n, c))
  {
    var b' := Returned(b, n, c);
    forall m: nat, d: nat | d < CLASSES && IsSlot(b'.pages, m, d)
      ensures SlotOk(mem, b', m, d)
    {
      assert SlotOk(mem, b, m, d);
      assert m == n ==> d == c;
    }
  }

  /** `slab_free` of a live slot accepts it and puts it back on the list of its own class. */
  lemma FreeStep(s: State, b: Book, n: nat, c: nat)
    requires Inv(s, b) && c < CLASSES && IsSlot(b.pages, n, c) && n in b.live
    ensures n < |s.mem| && Free(s, n).1 && Inv(Free(s, n).0, Returned(b, n, c))
    ensures Free(s, n).0.bump == s.bump && |Free(s, n).0.mem| == |s.mem|
    ensures forall w :: 0 <= w < |s.mem| && w != n ==> Free(s, n).0.mem[w] == s.mem[w]
  {
    assert SlotOk(s.mem, b, n, c);
    SlotWordsInPage(b.pages, n, c);
    HeaderRoundTrip(c);
    var mem' := s.mem[n := Address(s.heads[c])];
    PayloadWrite(s.mem, b, n, c, n, Address(s.heads[c]));
    ReturnedSlots(mem', b, n, c);
    var b' := Returned(b, n, c);
    forall d | 0 <= d < CLASSES ensures ListOk(mem', s.heads[c := n][d], b'.pages, b'.free[d], d) {
      LiveIsNotFree(s, b, n, d);
      if d == c {
        PushList(s.mem, s.heads[c], b.pages, b.free[c], c, n);
      } else {
        ListFrame(s.mem, mem', s.heads[d], b.pages, b.free[d], d);
      }
    }
  }

  /** The book after the head of list `c` is handed out for `size` bytes. */
  function HandedOut(b: Book, c: nat, size: nat): Book
    requires c < |b.free| && b.free[c] != []
  {
    b.(free := b.free[c := b.free[c][1..]], live := b.live[b.free[c][0] := size])
  }

  lemma HandedOutSlots(mem: seq<u64>, b: Book, c: nat, size: nat)
    requires |b.free| == CLASSES && SlotsOk(mem, b) && c < CLASSES && size <= SlotBytes(c) - 8
    requires b.free[c] != [] && IsSlot(b.pages, b.free[c][0], c)
    requires b.free[c][0] !in b.free[c][1..]
    requires forall m :: m in b.free[c] <==> m == b.free[c][0] || m in b.free[c][1..]
    ensures SlotsOk(mem, HandedOut(b, c, size)) && b.free[c][0] !in b.live
  {
    var n, b' := b.free[c][0], HandedOut(b, c, size);
    assert SlotOk(mem, b, n, c);
    forall m: nat, d: nat | d < CLASSES && IsSlot(b'.pages, m, d)
      ensures SlotOk(mem, b', m, d)
    {
      assert SlotOk(mem, b, m, d);
      assert m == n ==> d == c;
    }
  }

  lemma PopStep(s: State, b: Book, c: nat, size: nat)
    requires Inv(s, b) && c < CLASSES && b.free[c] != [] && size <= SlotBytes(c) - 8
    ensures s.heads[c] == b.free[c][0] && IsSlot(b.pages, s.heads[c], c) && s.heads[c] !in b.live
    ensures Inv(s.(heads := s.heads[c := s.mem[s.heads[c]] / 8]), HandedOut(b, c, size))
  {
    hide IsSlot, SlotBytes;
    assert ListOk(s.mem, s.heads[c], b.pages, b.free[c], c);
    PopList(s.mem, s.heads[c], b.pages, b.free[c], c);
    HandedOutSlots(s.mem, b, c, size);
    var b' := HandedOut(b, c, size);
    var heads' := s.heads[c := s.mem[s.heads[c]] / 8];
    forall d | 0 <= d < CLASSES ensures ListOk(s.mem, heads'[d], b'.pages, b'.free[d], d) {
      if d != c {
        assert heads'[d] == s.heads[d] && b'.free[d] == b.free[d];
      }
    }
  }

  // ----- carving a page

  /** The free list a freshly carved page gives: last slot first. */
  function FreshList(page: nat, c: nat, k: nat): (list: seq<nat>)
    requires c < CLASSES
    ensures |list| == k
  {
    if k == 0 then [] else [SlotAt(page, c, k - 1)] + FreshList(page, c, k - 1)
  }

  lemma {:induction false} FreshListAt(page: nat, c: nat, k: nat, i: nat)
    requires c < CLASSES && i < k
    ensures FreshList(page, c, k)[i] == SlotAt(page, c, k - 1 - i)
  {
    if i == 0 {
    } else {
      FreshListAt(page, c, k - 1, i - 1);
    }
  }

  lemma {:induction false} CarveElsewhere(s: State, c: nat, k: nat)
    requires s.Shape() && s.HasRoom() && c < CLASSES && k <= PerPage(c)
    ensures var t := Carve(s, c, k);
            && (forall w :: 0 <= w < |s.mem| && w / PAGE_WORDS != s.bump ==> t.mem[w] == s.mem[w])
            && (forall d :: 0 <= d < CLASSES && d != c ==> t.heads[d] == s.heads[d])
  {
    if k == 0 {
    } else {
      CarveElsewhere(s, c, k - 1);
      SlotPlace(s.bump, c, k - 1);
      var n := SlotAt(s.bump, c, k - 1);
      assert n / PAGE_WORDS == s.bump by {
        assert SlotWords(c) >= 4;
      }
    }
  }

  /** Distinct slots of one page: neither's header or link is the other's. */
  lemma SlotsApart(page: nat, c: nat, j: nat, k: nat)
    requires c < CLASSES && j < k
    ensures SlotAt(page, c, j) < SlotAt(page, c, k) - 1
  {
    Spacing(page, c, j, k);
    assert SlotWords(c) >= 4;
  }

  lemma {:induction false} CarveHeader(s: State, c: nat, k: nat, j: nat)
    requires s.Shape() && s.HasRoom() && c < CLASSES && j < k <= PerPage(c)
    ensures 0 < SlotAt(s.bump, c, j) <= |s.mem| && Carve(s, c, k).mem[SlotAt(s.bump, c, j) - 1] == Header(c)
  {
    hide Header, SlotWords, SlotAt;
    SlotPlace(s.bump, c, k - 1);
    if j == k - 1 {
    } else {
      CarveHeader(s, c, k - 1, j);
      SlotsApart(s.bump, c, j, k - 1);
    }
  }

  /** The slots before `k` end below slot `k`. */
  lemma FreshListBelow(page: nat, c: nat, k: nat)
    requires c < CLASSES
    ensures forall i :: 0 <= i < k ==> FreshList(page, c, k)[i] < SlotAt(page, c, k) - 1
  {
    forall i | 0 <= i < k ensures FreshList(page, c, k)[i] < SlotAt(page, c, k) - 1 {
      FreshListAt(page, c, k, i);
      SlotsApart(page, c, k - 1 - i, k);
    }
  }

  lemma NthSlot(pages: map<nat, nat>, page: nat, c: nat, k: nat)
    requires c < CLASSES && k < PerPage(c) && page in pages && pages[page] == c
    ensures IsSlot(pages, SlotAt(page, c, k), c) && SlotAt(page, c, k) < (page + 1) * PAGE_WORDS
  {
    SlotPlace(page, c, k);
    assert SlotWords(c) >= 4;
  }

  lemma {:induction false} CarveList(s: State, c: nat, k: nat, pages: map<nat, nat>)
    requires s.Shape() && s.HasRoom() && c < CLASSES && k <= PerPage(c)
    requires s.heads[c] == 0 && s.bump in pages && pages[s.bump] == c
    ensures ListOk(Carve(s, c, k).mem, Carve(s, c, k).heads[c], pages, FreshList(s.bump, c, k), c)
  {
    if k == 0 {
    } else {
      CarveList(s, c, k - 1, pages);
      CarveListStep(Carve(s, c, k - 1), s.bump, c, k, pages);
    }
  }

  lemma CarveListStep(t: State, page: nat, c: nat, k: nat, pages: map<nat, nat>)
    requires t.Shape() && (page + 1) * PAGE_WORDS <= |t.mem| && c < CLASSES && 0 < k <= PerPage(c)
    requires page in pages && pages[page] == c
    requires ListOk(t.mem, t.heads[c], pages, FreshList(page, c, k - 1), c)
    ensures var n := SlotAt(page, c, k - 1);
            0 < n < |t.mem| && Header(c) < TWO64 &&
            ListOk(t.mem[n - 1 := Header(c)][n := Address(t.heads[c])], n, pages, FreshList(page, c, k), c)
  {
    hide ListOk, IsSlot, Header;
    NthSlot(pages, page, c, k - 1);
    FreshListBelow(page, c, k - 1);
    HeaderRoundTrip(c);
    ExtendList(t.mem, t.heads[c], pages, FreshList(page, c, k - 1), c, SlotAt(page, c, k - 1));
  }

  lemma ExtendList(mem: seq<u64>, head: nat, pages: map<nat, nat>, list: seq<nat>, c: nat, n: nat)
    requires c < CLASSES && ListOk(mem, head, pages, list, c) && Header(c) < TWO64
    requires 0 < n < |mem| && IsSlot(pages, n, c) && Address(head) < TWO64
    requires forall i :: 0 <= i < |list| ==> list[i] < n - 1
    ensures ListOk(mem[n - 1 := Header(c)][n := Address(head)], n, pages, [n] + list, c)
  {
    ListFrame(mem, mem[n - 1 := Header(c)], head, pages, list, c);
    PushList(mem[n - 1 := Header(c)], head, pages, list, c, n);
  }

  /** The book after the next page is carved for class `c`. */
  function Refilled(b: Book, page: nat, c: nat): Book
    requires c < CLASSES && |b.free| == CLASSES
  {
    b.(pages := b.pages[page := c], free := b.free[c := FreshList(page, c, PerPage(c))])
  }

  lemma FreshMember(page: nat, c: nat, k: nat, j: nat)
    requires c < CLASSES && j < k
    ensures SlotAt(page, c, j) in FreshList(page, c, k)
  {
    FreshListAt(page, c, k, k - 1 - j);
  }

  lemma NewSlot(s: State, b: Book, c: nat, n: nat)
    requires Inv(s, b) && s.HasRoom() && c < CLASSES
    requires IsSlot(Refilled(b, s.bump, c).pages, n, c) && (n - 1) / PAGE_WORDS == s.bump
    ensures SlotOk(Carve(s, c, PerPage(c)).mem, Refilled(b, s.bump, c), n, c)
  {
    var page, k := PlaceOf(Refilled(b, s.bump, c).pages, n, c);
    SlotPlace(page, c, k);
    CarveHeader(s, c, PerPage(c), k);
    FreshMember(page, c, PerPage(c), k);
    assert n in b.live ==> Carved(b.pages, n);
  }

  lemma OldSlot(s: State, b: Book, c: nat, n: nat, d: nat)
    requires Inv(s, b) && s.HasRoom() && c < CLASSES && b.free[c] == []
    requires d < CLASSES && IsSlot(b.pages, n, d)
    ensures IsSlot(Refilled(b, s.bump, c).pages, n, d)
    ensures SlotOk(Carve(s, c, PerPage(c)).mem, Refilled(b, s.bump, c), n, d)
  {
    CarveElsewhere(s, c, PerPage(c));
    assert SlotOk(s.mem, b, n, d);
    SlotWordsInPage(b.pages, n, d);
    NotFresh(s.bump, c, n);
  }

  lemma NotFresh(page: nat, c: nat, n: nat)
    requires c < CLASSES && n > 0 && (n - 1) / PAGE_WORDS != page
    ensures n !in FreshList(page, c, PerPage(c))
  {
    forall i | 0 <= i < PerPage(c) ensures FreshList(page, c, PerPage(c))[i] != n {
      FreshListAt(page, c, PerPage(c), i);
      SlotPlace(page, c, PerPage(c) - 1 - i);
    }
  }

  lemma RefillStep(s: State, b: Book, c: nat)
    requires Inv(s, b) && s.HasRoom() && c < CLASSES && s.heads[c] == 0
    ensures Inv(Carve(s, c, PerPage(c)), Refilled(b, s.bump, c))
  {
    var t, b' := Carve(s, c, PerPage(c)), Refilled(b, s.bump, c);
    assert ListOk(s.mem, s.heads[c], b.pages, b.free[c], c);
    CarveElsewhere(s, c, PerPage(c));
    CarveList(s, c, PerPage(c), b'.pages);
    forall d | 0 <= d < CLASSES ensures ListOk(t.mem, t.heads[d], b'.pages, b'.free[d], d) {
      if d != c {
        OldList(s, b, c, d);
      }
    }
    forall n: nat, d: nat | d < CLASSES && IsSlot(b'.pages, n, d) ensures SlotOk(t.mem, b', n, d) {
      if (n - 1) / PAGE_WORDS == s.bump {
        NewSlot(s, b, c, n);
      } else {
        OldSlot(s, b, c, n, d);
      }
    }
    forall n | n in b'.live ensures Carved(b'.pages, n) {
      var d: nat :| d < CLASSES && IsSlot(b.pages, n, d);
      OldSlot(s, b, c, n, d);
    }
  }

  lemma OldList(s: State, b: Book, c: nat, d: nat)
    requires Inv(s, b) && s.HasRoom() && c < CLASSES && d < CLASSES && d != c && b.free[c] == []
    ensures ListOk(Carve(s, c, PerPage(c)).mem, s.heads[d], b.pages[s.bump := c], b.free[d], d)
  {
    var mem', list := Carve(s, c, PerPage(c)).mem, b.free[d];
    assert ListOk(s.mem, s.heads[d], b.pages, list, d);
    forall k | 0 <= k < |list|
      ensures mem'[list[k]] == s.mem[list[k]] && IsSlot(b.pages[s.bump := c], list[k], d)
    {
      OldWord(s, b, c, list[k], d);
    }
    ListFrame(s.mem, mem', s.heads[d], b.pages, list, d);
  }

  lemma OldWord(s: State, b: Book, c: nat, n: nat, d: nat)
    requires Inv(s, b) && s.HasRoom() && c < CLASSES && d < CLASSES && IsSlot(b.pages, n, d) && n < |s.mem|
    ensures Carve(s, c, PerPage(c)).mem[n] == s.mem[n] && IsSlot(b.pages[s.bump := c], n, d)
  {
    CarveElsewhere(s, c, PerPage(c));
    SlotWordsInPage(b.pages, n, d);
    assert n / PAGE_WORDS in b.pages;
  }

  // ----- allocation

  /** A slot holds the request unless the 64-bit sum of size and header wraps. */
  lemma RequestFits(size: u64)
    requires ClassFor(size) >= 0
    ensures size <= SlotBytes(ClassFor(size)) - 8 <==> size < TWO64 - 8
  {
  }

  lemma NoClassAbove1016(size: u64)
    requires size < TWO64 - 8
    ensures ClassFor(size) >= 0 <==> size <= 1016
  {
    if ClassFor(size) < 0 {
      assert SlotBytes(5) < size + 8;
    }
  }

  /** No page is lost: the pages of `b` keep their classes, and the pages carved since then are those taken. */
  ghost predicate KeepsPages(s: State, b: Book, t: State, b': Book)
  {
    && (forall p :: p in b.pages ==> p in b'.pages && b'.pages[p] == b.pages[p])
    && (forall p :: s.bump <= p < t.bump ==> p in b'.pages)
    && (forall p :: p in b'.pages && p !in b.pages ==> s.bump <= p)
  }

  lemma StockStep(s: State, b: Book, c: nat) returns (b': Book)
    requires Inv(s, b) && c < CLASSES && (s.heads[c] == 0 ==> s.HasRoom())
    ensures var t := Stocked(s, c);
            && Inv(t, b') && b'.free[c] != [] && b'.live == b.live
            && s.bump <= t.bump <= s.bump + 1 && |t.mem| == |s.mem|
            && (forall w :: 0 <= w < s.bump * PAGE_WORDS ==> t.mem[w] == s.mem[w])
            && (forall p :: p in b'.pages && p !in b.pages ==> p == s.bump)
            && KeepsPages(s, b, t, b')
  {
    assert s.Shape() && |b.free| == CLASSES && forall p :: p in b.pages ==> p < s.bump;
    hide Inv, Carve, Refilled;
    b' := b;
    if s.heads[c] == 0 {
      RefillStep(s, b, c);
      RefillFrame(s, b, c);
      b' := Refilled(b, s.bump, c);
    } else {
      StockedList(s, b, c);
    }
  }

  lemma StockedList(s: State, b: Book, c: nat)
    requires Inv(s, b) && c < CLASSES && s.heads[c] != 0
    ensures b.free[c] != []
  {
    assert ListOk(s.mem, s.heads[c], b.pages, b.free[c], c);
  }

  /** What carving leaves alone: every word below the page, every other page and every live slot. */
  lemma RefillFrame(s: State, b: Book, c: nat)
    requires s.Shape() && s.HasRoom() && c < CLASSES && |b.free| == CLASSES && forall p :: p in b.pages ==> p < s.bump
    ensures var t, b' := Carve(s, c, PerPage(c)), Refilled(b, s.bump, c);
            && |b'.free| == CLASSES && b'.free[c] != [] && b'.live == b.live
            && (forall w :: 0 <= w < s.bump * PAGE_WORDS ==> t.mem[w] == s.mem[w])
            && (forall p :: p in b'.pages && p !in b.pages ==> p == s.bump)
            && KeepsPages(s, b, t, b')
  {
    hide Carve, FreshList;
    CarveElsewhere(s, c, PerPage(c));
    assert forall w :: 0 <= w < s.bump * PAGE_WORDS ==> w / PAGE_WORDS != s.bump;
  }

  /** `slab_alloc` hands out a slot that was not live, of a class that fits, refilling an empty list first. */
  lemma AllocStep(s: State, b: Book, size: u64) returns (b': Book)
    requires Inv(s, b) && CanServe(s, size) && ClassFor(size) >= 0 && size < TWO64 - 8
    ensures var (t, n) := Alloc(s, size);
            && Inv(t, b') && n != 0 && IsSlot(b'.pages, n, ClassFor(size))
            && n !in b.live && b'.live == b.live[n := size]
            && s.bump <= t.bump <= s.bump + 1 && |t.mem| == |s.mem|
            && (forall w :: 0 <= w < s.bump * PAGE_WORDS ==> t.mem[w] == s.mem[w])
            && (forall p :: p in b'.pages && p !in b.pages ==> p == s.bump)
            && KeepsPages(s, b, t, b')
  {
    var c := ClassFor(size);
    RequestFits(size);
    var b1 := StockStep(s, b, c);
    var t := Stocked(s, c);
    PopStep(t, b1, c, size);
    b' := HandedOut(b1, c, size);
    assert Alloc(s, size) == (t.(heads := t.heads[c := t.mem[t.heads[c]] / 8]), t.heads[c]);
  }

  /** Live payloads share no word with each other or with any header. */
  lemma LiveSlotsDisjoint(s: State, b: Book, n: nat, m: nat)
    requires Inv(s, b) && n in b.live && m in b.live && n != m
    ensures n + (b.live[n] + 7) / 8 <= m - 1 || m + (b.live[m] + 7) / 8 <= n - 1
  {
    var c: nat :| c < CLASSES && IsSlot(b.pages, n, c);
    var d: nat :| d < CLASSES && IsSlot(b.pages, m, d);
    assert SlotOk(s.mem, b, n, c) && SlotOk(s.mem, b, m, d);
    SlotsDisjoint(b.pages, n, c, m, d);
    SlotRoom(c, b.live[n]);
    SlotRoom(d, b.live[m]);
  }

  lemma SlotRoom(c: nat, size: nat)
    requires c < CLASSES && size <= SlotBytes(c) - 8
    ensures (size + 7) / 8 + 1 <= SlotWords(c)
  {
  }
}
