/** Machine words and little-endian byte encodings shared by every component. */
module Words {

  const TWO16: int := 0x1_0000
  const TWO32: int := 0x1_0000_0000
  const TWO64: int := 0x1_0000_0000_0000_0000

  type byte = x: int | 0 <= x < 0x100
  type u16 = x: int | 0 <= x < 0x1_0000
  type u32 = x: int | 0 <= x < 0x1_0000_0000
  type u64 = x: int | 0 <= x < 0x1_0000_0000_0000_0000

  datatype Option<+T> = None | Some(value: T)

  /** `dst` in front of a result, if there is one. */
  function Prepend<T>(dst: seq<T>, r: Option<seq<T>>): (p: Option<seq<T>>)
    ensures dst == [] ==> p == r
    ensures r == Some([]) ==> p == Some(dst)
  {
    match r
    case None => None
    case Some(rest) =>
      assert [] + rest == rest && dst + [] == dst;
      Some(dst + rest)
  }

  lemma PrependTwice<T>(dst: seq<T>, head: seq<T>, r: Option<seq<T>>)
    ensures Prepend(dst, Prepend(head, r)) == Prepend(dst + head, r)
  {
    if r.Some? {
      assert dst + (head + r.value) == (dst + head) + r.value;
    }
  }

  /** The value of a little-endian 16-bit load. */
  function Le16(lo: byte, hi: byte): u16 { lo + 0x100 * hi }

  /** The value of a little-endian 32-bit load. */
  function Le32(b0: byte, b1: byte, b2: byte, b3: byte): u32
  {
    b0 + 0x100 * b1 + 0x1_0000 * b2 + 0x100_0000 * b3
  }

  function BitOr(a: nat, b: nat): nat
  {
    if a == 0 then b
    else if b == 0 then a
    else (if a % 2 == 1 || b % 2 == 1 then 1 else 0) + 2 * BitOr(a / 2, b / 2)
  }

  // ----- products by repeated addition, for sizes counted in units

  /** `n * w`. */
  function Times(n: nat, w: nat): nat { if n == 0 then 0 else w + Times(n - 1, w) }

  lemma {:induction false} TimesIsProduct(n: nat, w: nat)
    ensures Times(n, w) == n * w
  {
    if n == 0 {
    } else {
      TimesIsProduct(n - 1, w);
      assert n * w == w + (n - 1) * w;
    }
  }

  lemma MulMono(a: nat, b: nat, k: nat)
    requires a <= b
    ensures a * k <= b * k
  {
  }
}
