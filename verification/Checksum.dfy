/**
 The Internet checksum of `net_checksum`, related to the ones'-complement sum
 of RFC 1071, sections 1 and 2.
 */
module Checksum {
  import opened Words

  /** The 16-bit words the x86 load `*addr++` sees; a trailing odd byte is a word of its own. */
  function LoadWords(data: seq<byte>): (ws: seq<u16>)
  {
    if |data| == 0 then []
    else if |data| == 1 then [data[0]]
    else [Le16(data[0], data[1])] + LoadWords(data[2..])
  }

  function Sum(ws: seq<u16>): (s: nat)
  {
    if |ws| == 0 then 0 else ws[0] + Sum(ws[1..])
  }

  /** Ones'-complement addition: the carry out of bit 15 is added back in. */
  function OnesAdd(a: u16, b: u16): u16
  {
    if a + b >= TWO16 then a + b - TWO16 + 1 else a + b
  }

  /** The ones'-complement sum of section 1 of RFC 1071. */
  function OnesSum(ws: seq<u16>): u16
  {
    if |ws| == 0 then 0 else OnesAdd(ws[0], OnesSum(ws[1..]))
  }

  /** The 16-bit representative of `s` modulo 65535 that is 0 only for `s == 0`. */
  function Residue(s: nat): (r: u16)
    ensures r == 0 ==> s == 0
  {
    if s < TWO16 then s else Residue(s - 65535)
  }

  function Swap(w: u16): u16
  {
    w % 256 * 256 + w / 256
  }

  function SwapWords(data: seq<byte>): (r: seq<byte>)
    requires |data| % 2 == 0
    ensures |r| == |data|
  {
    if |data| == 0 then [] else [data[1], data[0]] + SwapWords(data[2..])
  }

  lemma {:induction false} OnesSumIsResidue(ws: seq<u16>)
    ensures OnesSum(ws) == Residue(Sum(ws))
  {
    if |ws| == 0 {
    } else {
      OnesSumIsResidue(ws[1..]);
      ResidueStep(ws[0], Sum(ws[1..]));
    }
  }

  lemma {:induction false} ResidueUnique(s: nat, k: nat, r: u16)
    requires s == k * 65535 + r
    requires r == 0 ==> s == 0
    ensures Residue(s) == r
    decreases k
  {
    if k == 0 {
    } else {
      ResidueUnique(s - 65535, k - 1, r);
    }
  }

  lemma {:induction false} ResidueSplit(s: nat) returns (k: nat)
    ensures s == k * 65535 + Residue(s)
  {
    k := 0;
    if s < TWO16 {
    } else {
      k := ResidueSplit(s - 65535);
      k := k + 1;
    }
  }

  lemma ResidueStep(w: u16, s: nat)
    ensures OnesAdd(w, Residue(s)) == Residue(w + s)
  {
    var k := ResidueSplit(s);
    var r := Residue(s);
    ResidueUnique(w + s, if w + r >= TWO16 then k + 1 else k, OnesAdd(w, r));
  }

  /** One turn of the fold loop keeps the residue: 65536 is 1 modulo 65535. */
  lemma FoldStep(s: nat)
    requires s >= TWO16
    ensures s % TWO16 + s / TWO16 < s
    ensures Residue(s % TWO16 + s / TWO16) == Residue(s)
  {
    var q := s / TWO16;
    var t := s % TWO16 + q;
    assert s == t + q * 65535;
    var k := ResidueSplit(t);
    ResidueUnique(s, k + q, Residue(t));
  }

  lemma {:induction false} SumBound(data: seq<byte>)
    ensures Sum(LoadWords(data)) <= |data| / 2 * 65535 + |data| % 2 * 255
  {
    if |data| >= 2 {
      SumBound(data[2..]);
      assert LoadWords(data)[1..] == LoadWords(data[2..]);
    } else if |data| == 1 {
      assert LoadWords(data)[1..] == [];
    }
  }

  /** Losing the carry out of bit 31 `k` times lowers the residue by `k`. */
  lemma WrapChangesResidue(t: nat, k: nat)
    requires 1 <= k < 65535
    ensures Residue(t) != Residue(t + k * TWO32)
  {
    var s, r := t + k * TWO32, Residue(t);
    var j := ResidueSplit(t);
    if r + k <= 65535 {
      ResidueUnique(s, j + 65537 * k, r + k);
    } else {
      ResidueUnique(s, j + 65537 * k + 1, r + k - 65535);
    }
  }

  lemma FoldedSum(data: seq<byte>, folded: u16, sum: u32, wraps: nat)
    requires |data| < TWO32
    requires Sum(LoadWords(data)) == sum + wraps * TWO32
    requires folded == Residue(sum)
    ensures folded == OnesSum(LoadWords(data)) <==> Sum(LoadWords(data)) < TWO32
  {
    OnesSumIsResidue(LoadWords(data));
    SumBound(data);
    if wraps > 0 {
      WrapChangesResidue(sum, wraps);
    }
  }

  /** What `net_checksum` returns: the complement of the folded sum of the words modulo 2^32. */
  function Returned(data: seq<byte>): u16 { 0xFFFF - Residue(Sum(LoadWords(data)) % TWO32) }

  lemma ReturnedIs(data: seq<byte>, sum: u32, wraps: nat)
    requires Sum(LoadWords(data)) == sum + wraps * TWO32
    ensures Returned(data) == 0xFFFF - Residue(sum)
  {
    hide Sum, LoadWords, Residue;
    LowWord(Sum(LoadWords(data)), sum, wraps);
  }

  lemma LowWord(s: nat, sum: u32, wraps: nat)
    requires s == sum + wraps * TWO32
    ensures s % TWO32 == sum
  {
  }

  /** The carry a 32-bit addition loses. */
  ghost function Carry(sum: u32, w: u16): (c: nat)
    ensures (sum + w) % TWO32 + c * TWO32 == sum + w
  {
    if sum + w >= TWO32 then 1 else 0
  }

  lemma NextWord(data: seq<byte>, addr: nat)
    requires addr + 2 <= |data|
    ensures Sum(LoadWords(data[addr..])) ==
            Le16(data[addr], data[addr + 1]) + Sum(LoadWords(data[addr + 2..]))
  {
    assert data[addr..][2..] == data[addr + 2..];
    assert LoadWords(data[addr..])[1..] == LoadWords(data[addr + 2..]);
  }

  lemma LastWord(data: seq<byte>, addr: nat)
    requires addr <= |data| <= addr + 1
    ensures Sum(LoadWords(data[addr..])) == if addr < |data| then data[addr] else 0
  {
    if addr < |data| {
      assert LoadWords(data[addr..])[1..] == [];
    }
  }

  /**
   `net_checksum`. `sum` is a 32-bit accumulator, so each addition wraps. The
   result is the complement of the ones'-complement sum exactly when the plain
   sum of the words fits in 32 bits.
   */
  method NetChecksum(data: seq<byte>) returns (r: u16)
    requires |data| < TWO32
    ensures r == Returned(data)
    ensures r == 0xFFFF - OnesSum(LoadWords(data)) <==> Sum(LoadWords(data)) < TWO32
  {
    hide LoadWords, Sum, OnesSum, Residue, Returned;
    var sum: u32 := 0;
    var addr, count := 0, |data|;
    ghost var wraps: nat := 0;
    assert data[0..] == data;
    while count > 1
      invariant 0 <= addr && 0 <= count && addr + count == |data|
      invariant sum + wraps * TWO32 + Sum(LoadWords(data[addr..])) == Sum(LoadWords(data))
    {
      NextWord(data, addr);
      var w := Le16(data[addr], data[addr + 1]);
      wraps := wraps + Carry(sum, w);
      sum := (sum + w) % TWO32;
      addr, count := addr + 2, count - 2;
    }
    LastWord(data, addr);
    if count > 0 {
      wraps := wraps + Carry(sum, data[addr]);
      sum := (sum + data[addr]) % TWO32;
    }
    var folded := Fold(sum);
    FoldedSum(data, folded, sum, wraps);
    ReturnedIs(data, sum, wraps);
    r := 0xFFFF - folded;
  }

  /** The folding loop of `net_checksum`. */
  method Fold(total: u32) returns (sum: u16)
    ensures sum == Residue(total)
  {
    var s := total;
    while s / TWO16 != 0
      invariant 0 <= s < TWO32 && Residue(s) == Residue(total)
      decreases s
    {
      FoldStep(s);
      s := s % TWO16 + s / TWO16;
    }
    return s;
  }

  /** 131074 bytes is the longest input whose sum can never overflow. */
  lemma LongestSafeLength(data: seq<byte>)
    ensures |data| <= 131074 ==> Sum(LoadWords(data)) < TWO32
    ensures |data| > 131074 && (forall i :: 0 <= i < |data| ==> data[i] == 0xFF) ==>
              Sum(LoadWords(data)) >= TWO32
  {
    SumBound(data);
    if forall i :: 0 <= i < |data| ==> data[i] == 0xFF {
      SumOfOnes(data);
    }
  }

  lemma {:induction false} SumOfOnes(data: seq<byte>)
    requires forall i :: 0 <= i < |data| ==> data[i] == 0xFF
    ensures Sum(LoadWords(data)) == |data| / 2 * 65535 + |data| % 2 * 255
  {
    if |data| >= 2 {
      SumOfOnes(data[2..]);
      assert LoadWords(data)[1..] == LoadWords(data[2..]);
    } else if |data| == 1 {
      assert LoadWords(data)[1..] == [];
    }
  }

  lemma {:induction false} LoadConcat(a: seq<byte>, b: seq<byte>)
    requires |a| % 2 == 0
    ensures LoadWords(a + b) == LoadWords(a) + LoadWords(b)
  {
    if |a| == 0 {
      assert a + b == b;
    } else {
      assert (a + b)[2..] == a[2..] + b;
      LoadConcat(a[2..], b);
    }
  }

  lemma {:induction false} SumConcat(a: seq<u16>, b: seq<u16>)
    ensures Sum(a + b) == Sum(a) + Sum(b)
  {
    if |a| == 0 {
      assert a + b == b;
    } else {
      assert (a + b)[1..] == a[1..] + b;
      SumConcat(a[1..], b);
    }
  }

  lemma StoredWord(c: u16)
    ensures LoadWords([c % 256, c / 256]) == [c]
  {
    assert Le16(c % 256, c / 256) == c;
  }

  /** The sum of even-length data with a checksum stored behind it in memory order. */
  lemma StoredSum(data: seq<byte>, c: u16)
    requires |data| % 2 == 0
    ensures Sum(LoadWords(data + [c % 256, c / 256])) == Sum(LoadWords(data)) + c
  {
    LoadConcat(data, [c % 256, c / 256]);
    StoredWord(c);
    SumConcat(LoadWords(data), [c]);
    assert Sum([c]) == c + Sum([c][1..]) == c;
  }

  /**
   A receiver that runs `net_checksum` over even-length data and the checksum
   stored behind it, section 1 (3) of RFC 1071, gets zero, also when the sum of
   the data has lost carries: adding the checksum never loses another one.
   */
  lemma ChecksumVerifies(data: seq<byte>)
    requires |data| % 2 == 0
    ensures var c := Returned(data); Returned(data + [c % 256, c / 256]) == 0
  {
    hide LoadWords, Sum, Residue, Returned;
    var c, s := Returned(data), Sum(LoadWords(data));
    var k := s / TWO32;
    var low: u32 := s - k * TWO32;
    LowWord(s, low, k);
    ReturnedIs(data, low, k);
    StoredSum(data, c);
    ComplementAdded(low, c);
    ReturnedIs(data + [c % 256, c / 256], low + c, k);
  }

  /** Adding the complement gives 0xFFFF, and never overflows: 2^32 - 1 is a multiple of 65535. */
  lemma ComplementAdded(low: u32, c: u16)
    requires c == 0xFFFF - Residue(low)
    ensures low + c < TWO32 && Residue(low + c) == 0xFFFF
  {
    var k := ResidueSplit(low);
    assert low == 0 ==> Residue(low) == 0;
    hide Residue;
    ResidueUnique(low + c, k, 0xFFFF);
  }

  /** Swapping both bytes of a word multiplies it by 256 modulo 65535. */
  lemma {:induction false} SwappedSum(data: seq<byte>) returns (m: nat)
    requires |data| % 2 == 0
    ensures 256 * Sum(LoadWords(data)) == Sum(LoadWords(SwapWords(data))) + 65535 * m
    ensures Sum(LoadWords(SwapWords(data))) == 0 ==> Sum(LoadWords(data)) == 0
  {
    if |data| == 0 {
      m := 0;
    } else {
      var m' := SwappedSum(data[2..]);
      assert SwapWords(data)[2..] == SwapWords(data[2..]);
      assert LoadWords(data)[1..] == LoadWords(data[2..]);
      assert LoadWords(SwapWords(data))[1..] == LoadWords(SwapWords(data[2..]));
      m := m' + data[1];
    }
  }

  /** Byte order independence, section 2 (B) of RFC 1071. */
  lemma ByteOrderIndependence(data: seq<byte>)
    requires |data| % 2 == 0
    ensures OnesSum(LoadWords(SwapWords(data))) == Swap(OnesSum(LoadWords(data)))
  {
    var m := SwappedSum(data);
    var s, t := Sum(LoadWords(data)), Sum(LoadWords(SwapWords(data)));
    OnesSumIsResidue(LoadWords(data));
    OnesSumIsResidue(LoadWords(SwapWords(data)));
    SwappedResidue(s, t, m);
  }

  lemma Shifted(x: int, y: int, k: int)
    requires x == y + 65535 * k
    ensures x % 65535 == 0 <==> y % 65535 == 0
  {
  }

  lemma ResidueEqual(x: nat, y: nat)
    ensures Residue(x) == Residue(y) <==> (x - y) % 65535 == 0 && (x == 0 <==> y == 0)
  {
    var j := ResidueSplit(x);
    var k := ResidueSplit(y);
    hide Residue;
    Shifted(x - y, Residue(x) - Residue(y), j as int - k as int);
    if (x - y) % 65535 == 0 && (x == 0 <==> y == 0) {
      assert Residue(x) - Residue(y) == 0 || Residue(x) - Residue(y) == 65535 || Residue(y) - Residue(x) == 65535;
      ResidueOfZero();
    }
  }

  lemma ResidueOfZero()
    ensures Residue(0) == 0
  {
  }

  /** The low 32 bits of two sums, the second that of the swapped words: the carries lost decide. */
  lemma SwappedLow(s: nat, t: nat, m: nat, low: u32, low': u32, a: nat, b: nat)
    requires 256 * s == t + 65535 * m && s == low + a * TWO32 && t == low' + b * TWO32
    ensures Residue(low') == Swap(Residue(low)) <==> (256 * a - b) % 65535 == 0 && (low == 0 <==> low' == 0)
  {
    var r := Residue(low);
    var k := ResidueSplit(low);
    assert Residue(Swap(r)) == Swap(r) && (Swap(r) == 0 <==> low == 0);
    ResidueEqual(low', Swap(r));
    hide Residue;
    assert Swap(r) == 256 * r - 65535 * (r / 256);
    assert TWO32 == 65535 * 65537 + 1;
    Shifted(low' - Swap(r), 256 * a - b, r / 256 + 256 * k + (256 * a - b) * 65537 - m);
  }

  /**
   What `net_checksum` returns is independent of byte order, for every even
   length, if and only if the carries lost out of bit 31 agree: `a` in one order
   and `b` in the other with `256 * a` and `b` equal modulo 65535, and the low
   words zero together. Inputs that lose no carry are all covered.
   */
  lemma ReturnedByteOrder(data: seq<byte>)
    requires |data| % 2 == 0
    ensures var s, t := Sum(LoadWords(data)), Sum(LoadWords(SwapWords(data)));
            && (Returned(SwapWords(data)) == Swap(Returned(data)) <==>
                (256 * (s / TWO32) - t / TWO32) % 65535 == 0 && (s % TWO32 == 0 <==> t % TWO32 == 0))
            && (s < TWO32 && t < TWO32 ==> Returned(SwapWords(data)) == Swap(Returned(data)))
  {
    hide LoadWords, Sum, SwapWords, Residue, Swap;
    var m := SwappedSum(data);
    var s, t := Sum(LoadWords(data)), Sum(LoadWords(SwapWords(data)));
    SwapComplement(Residue(s % TWO32));
    SwappedLow(s, t, m, s % TWO32, t % TWO32, s / TWO32, t / TWO32);
  }

  /** `n` words of low byte `lo` and high byte `hi`. */
  function Repeated(lo: byte, hi: byte, n: nat): (data: seq<byte>)
    ensures |data| == 2 * n && |data| % 2 == 0
  {
    if n == 0 then [] else [lo, hi] + Repeated(lo, hi, n - 1)
  }

  lemma {:induction false} RepeatedSum(lo: byte, hi: byte, n: nat)
    ensures Sum(LoadWords(Repeated(lo, hi, n))) == n * Le16(lo, hi)
  {
    if n == 0 {
    } else {
      RepeatedSum(lo, hi, n - 1);
      assert Repeated(lo, hi, n)[2..] == Repeated(lo, hi, n - 1);
      assert LoadWords(Repeated(lo, hi, n))[1..] == LoadWords(Repeated(lo, hi, n - 1));
      hide Le16, Repeated, LoadWords;
    }
  }

  lemma {:induction false} RepeatedSwap(lo: byte, hi: byte, n: nat)
    ensures SwapWords(Repeated(lo, hi, n)) == Repeated(hi, lo, n)
  {
    if n == 0 {
    } else {
      RepeatedSwap(lo, hi, n - 1);
      assert Repeated(lo, hi, n)[2..] == Repeated(lo, hi, n - 1);
    }
  }

  /** An input that loses a carry in one byte order only: 65794 words of low byte 0xFF. */
  lemma ByteOrderMatters(n: nat)
    requires n == 65794
    ensures var data := Repeated(0xFF, 0, n); Returned(SwapWords(data)) != Swap(Returned(data))
  {
    hide LoadWords, Sum, SwapWords, Returned, Swap, Repeated;
    RepeatedSum(0xFF, 0, n);
    RepeatedSum(0, 0xFF, n);
    RepeatedSwap(0xFF, 0, n);
    ReturnedByteOrder(Repeated(0xFF, 0, n));
  }

  lemma SwapComplement(w: u16)
    ensures Swap(0xFFFF - w) == 0xFFFF - Swap(w)
  {
  }

  lemma SwappedResidue(s: nat, t: nat, m: nat)
    requires 256 * s == t + 65535 * m
    requires t == 0 ==> s == 0
    ensures Residue(t) == Swap(Residue(s))
  {
    if s != 0 {
      var k := ResidueSplit(s);
      var r := Residue(s);
      ResidueUnique(t, r / 256 + 256 * k - m, Swap(r));
    }
  }
}
