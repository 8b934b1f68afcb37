/** Fixed-width words of the C sources, as bounded integers with explicit wrap-around. */
module Words {

  const TWO32: int := 0x1_0000_0000
  const TWO31: int := 0x8000_0000

  type byte = x: int | 0 <= x < 0x100
  type uint16 = x: int | 0 <= x < 0x1_0000
  type uint32 = x: int | 0 <= x < 0x1_0000_0000
  type int32 = x: int | -0x8000_0000 <= x < 0x8000_0000

  /** Truncation of an arithmetic result to an unsigned 32-bit word. */
  function Wrap32(x: int): (w: uint32)
    ensures 0 <= x < TWO32 ==> w == x
    ensures -TWO32 <= x < 0 ==> w == x + TWO32
    ensures TWO32 <= x < 2 * TWO32 ==> w == x - TWO32
  {
    x % TWO32
  }

  /** Reading a 32-bit word as a two's-complement signed value. */
  function ToInt32(w: uint32): (x: int32)
    ensures Wrap32(x) == w
    ensures x < 0 <==> w >= TWO31
  {
    if w < TWO31 then w else w - TWO32
  }

  /** Quotient and remainder are determined by any decomposition with a small remainder. */
  lemma DivModUnique(q: int, r: int, d: int)
    requires 0 <= r < d
    ensures (q * d + r) / d == q && (q * d + r) % d == r
  {
    var x := q * d + r;
    var gap := x / d - q;
    assert gap * d == r - x % d;
    assert gap >= 1 ==> gap * d >= d;
    assert gap <= -1 ==> gap * d <= -d;
  }

  lemma ProductAtLeast(q: nat, d: nat)
    requires d >= 1
    ensures q <= q * d
  {}

  lemma DivModFacts(n: nat, d: nat)
    requires d > 0
    ensures n == n / d * d + n % d
    ensures 0 <= n / d <= n
  {
    var q := n / d;
    assert n == q * d + n % d;
    ProductAtLeast(q, d);
  }

  lemma MulOrder(a: int, b: int, k: nat)
    requires a <= b
    ensures a * k <= b * k
  {}
}
