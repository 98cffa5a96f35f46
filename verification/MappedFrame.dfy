/** Which frame `vm_map_page` really maps: it ors the caller's flags into the physical address without masking them. */
module MappedFrame {
  import opened Words
  import opened PageTables
  import opened AddressSpace

  /** Bit `k` of `x`. */
  predicate Bit(x: nat, k: nat) { if k == 0 then x % 2 == 1 else Bit(x / 2, k - 1) }

  lemma {:induction false} NoBits(k: nat)
    ensures !Bit(0, k)
  {
    if k == 0 {
    } else {
      NoBits(k - 1);
    }
  }

  lemma {:induction false} HighBit(x: nat)
    requires x > 0
    ensures exists k: nat :: Bit(x, k)
  {
    if x % 2 == 1 {
      assert Bit(x, 0);
    } else {
      HighBit(x / 2);
      var k: nat :| Bit(x / 2, k);
      assert Bit(x, k + 1);
    }
  }

  lemma {:induction false} SmallHasNoBit(x: nat, n: nat, k: nat)
    requires x < Pow2(n) && n <= k
    ensures !Bit(x, k)
  {
    if n == 0 {
      NoBits(k);
    } else {
      SmallHasNoBit(x / 2, n - 1, k - 1);
    }
  }

  /** Every bit of `b` is a bit of `a`. */
  ghost predicate Within(b: nat, a: nat) { forall k: nat :: Bit(b, k) ==> Bit(a, k) }

  lemma WithinHalf(b: nat, a: nat)
    ensures Within(b, a) <==> (b % 2 == 1 ==> a % 2 == 1) && Within(b / 2, a / 2)
  {
    if Within(b, a) {
      assert Bit(b, 0) ==> Bit(a, 0);
      forall k: nat | Bit(b / 2, k) ensures Bit(a / 2, k) {
        assert Bit(b, k + 1);
      }
    }
    if (b % 2 == 1 ==> a % 2 == 1) && Within(b / 2, a / 2) {
      forall k: nat | Bit(b, k) ensures Bit(a, k) {
        if k > 0 {
          assert Bit(b / 2, k - 1);
        }
      }
    }
  }

  /** Oring adds nothing exactly when every bit is there already. */
  lemma {:induction false} OrAbsorbsIff(a: nat, b: nat)
    ensures BitOr(a, b) == a <==> Within(b, a)
    decreases a + b
  {
    if b == 0 {
      forall k: nat ensures !Bit(b, k) {
        NoBits(k);
      }
    } else if a == 0 {
      HighBit(b);
      var k: nat :| Bit(b, k);
      NoBits(k);
    } else {
      OrAbsorbsIff(a / 2, b / 2);
      hide Within;
      WithinHalf(b, a);
    }
  }

  lemma BitFromPage(x: nat, k: nat)
    ensures Bit(x, k + 12) == Bit(x / PAGE, k)
  {
    BitFrom8th(x, k + 9);
    BitFrom8th(x / 8, k + 6);
    BitFrom8th(x / 8 / 8, k + 3);
    BitFrom8th(x / 8 / 8 / 8, k);
    assert x / 8 / 8 / 8 / 8 == x / PAGE;
  }

  lemma BitFrom8th(x: nat, k: nat)
    ensures Bit(x, k + 3) == Bit(x / 8, k)
  {
    assert Bit(x, k + 3) == Bit(x / 2, k + 2) == Bit(x / 2 / 2, k + 1) == Bit(x / 2 / 2 / 2, k);
    assert x / 2 / 2 / 2 == x / 8;
  }

  lemma BitFromHugePage(x: nat, k: nat)
    ensures Bit(x, k + 21) == Bit(x / HUGE_PAGE, k)
  {
    hide Bit;
    BitFromPage(x, k + 9);
    BitFrom8th(x / PAGE, k + 6);
    BitFrom8th(x / PAGE / 8, k + 3);
    BitFrom8th(x / PAGE / 8 / 8, k);
    assert x / PAGE / 8 / 8 / 8 == x / HUGE_PAGE;
  }

  /** No flag bit from bit `from` up is clear in the physical address. */
  ghost predicate FlagsInside(phys: u64, flags: u64, from: nat)
  {
    forall k :: from <= k < 64 && Bit(flags, k) ==> Bit(phys, k)
  }

  lemma FlagsInsideIff(phys: u64, flags: u64)
    ensures FlagsInside(phys, flags, 12) <==> Within(flags / PAGE, phys / PAGE)
  {
    hide Bit;
    if FlagsInside(phys, flags, 12) {
      forall k: nat | Bit(flags / PAGE, k) ensures Bit(phys / PAGE, k) {
        BitFromPage(flags, k);
        BitFromPage(phys, k);
        WordBits(flags, k + 12);
      }
    }
    if Within(flags / PAGE, phys / PAGE) {
      forall k | 12 <= k < 64 && Bit(flags, k) ensures Bit(phys, k) {
        BitFromPage(flags, k - 12);
        BitFromPage(phys, k - 12);
      }
    }
  }

  lemma HugeFlagsInsideIff(phys: u64, flags: u64)
    ensures FlagsInside(phys, flags, 21) <==> Within(flags / HUGE_PAGE, phys / HUGE_PAGE)
  {
    hide Bit;
    if FlagsInside(phys, flags, 21) {
      forall k: nat | Bit(flags / HUGE_PAGE, k) ensures Bit(phys / HUGE_PAGE, k) {
        BitFromHugePage(flags, k);
        BitFromHugePage(phys, k);
        WordBits(flags, k + 21);
      }
    }
    if Within(flags / HUGE_PAGE, phys / HUGE_PAGE) {
      forall k | 21 <= k < 64 && Bit(flags, k) ensures Bit(phys, k) {
        BitFromHugePage(flags, k - 21);
        BitFromHugePage(phys, k - 21);
      }
    }
  }

  lemma WordBits(x: u64, k: nat)
    ensures Bit(x, k) ==> k < 64
  {
    if k >= 64 {
      var n := k - k;
      Pow2Word(n);
      Pow2Word(n + 32);
      assert Pow2(n) == 1;
      SmallHasNoBit(x, n + 64, k);
    }
  }

  /** The frame is the requested one exactly when no flag bit from 12 up is clear in the address. */
  lemma FlagsFit(phys: u64, flags: u64)
    requires phys % PAGE == 0
    ensures BitOr(phys / PAGE, flags / PAGE) * PAGE == phys <==> FlagsInside(phys, flags, 12)
  {
    hide Within, FlagsInside;
    OrAbsorbsIff(phys / PAGE, flags / PAGE);
    FlagsInsideIff(phys, flags);
  }

  /** A mapped page translates to the requested address exactly when its flags have no stray bit. */
  lemma MapsRequestedIff(s: Space, virt: u64, phys: u64, flags: u64)
    requires Inv(s) && CanMap(s.vm, virt, phys) && Mappable(virt, phys)
    ensures Translate(MapPage(s.vm, virt, phys, flags).0, virt) == Some(phys) <==> FlagsInside(phys, flags, 12)
  {
    hide FlagsInside, MapPage, Translate, Inv;
    var t := SuccessfulMap(s, virt, phys, flags);
    FlagsFit(phys, flags);
  }

  /** Calls that map another frame: flag 0x1000, and the no-execute flag, bit 63. */
  lemma StrayFlags(s: Space, virt: u64, phys: u64)
    requires Inv(s) && CanMap(s.vm, virt, phys) && Mappable(virt, phys) && phys < 0x8000_0000_0000_0000
    ensures Translate(MapPage(s.vm, virt, 0x2000, 0x1003).0, virt) == Some(0x3000)
    ensures Translate(MapPage(s.vm, virt, phys, 0x8000_0000_0000_0003).0, virt) != Some(phys)
  {
    hide FlagsInside, MapPage, Translate, Inv;
    var t := SuccessfulMap(s, virt, 0x2000, 0x1003);
    assert BitOr(2, 1) == 3;
    MapsRequestedIff(s, virt, phys, 0x8000_0000_0000_0003);
    NoExecute(phys, 31);
  }

  lemma TopPower(n: nat)
    requires n == 31
    ensures Pow2(n + 32) == 0x8000_0000_0000_0000
  {
    assert Pow2(n - 24) == 0x80 by { SmallPower(n - 24); }
    Pow2Byte(n - 24);
    Pow2Byte(n - 16);
    Pow2Byte(n - 8);
    Pow2Word(n);
  }

  lemma SmallPower(n: nat)
    requires n == 7
    ensures Pow2(n) == 0x80
  {
    assert Pow2(n - 6) == 2 && Pow2(n - 4) == 8 && Pow2(n - 2) == 32;
  }

  lemma NoExecute(phys: u64, n: nat)
    requires phys < 0x8000_0000_0000_0000 && n == 31
    ensures !FlagsInside(phys, 0x8000_0000_0000_0003, 12)
  {
    hide Bit;
    TopPower(n);
    SmallHasNoBit(phys, n + 32, n + 32);
    TopBit(0x8000_0000_0000_0003, n + 32);
  }

  lemma {:induction false} TopBit(x: nat, n: nat)
    requires Pow2(n) <= x < 2 * Pow2(n)
    ensures Bit(x, n)
  {
    if n == 0 {
    } else {
      TopBit(x / 2, n - 1);
    }
  }
}
