/** Go's `int` on a 64-bit platform: two's-complement arithmetic that wraps
    modulo 2^64 instead of failing. */
module GoInt {

  const Modulus: int := 0x1_0000_0000_0000_0000
  const MinInt: int := -0x8000_0000_0000_0000
  const MaxInt: int := 0x7FFF_FFFF_FFFF_FFFF

  predicate IsInt(x: int) {
    MinInt <= x <= MaxInt
  }

  /** The one 64-bit value congruent to x modulo 2^64. */
  function Wrap(x: int): (r: int)
    ensures IsInt(r)
    ensures IsInt(x) ==> r == x
    ensures (x - r) % Modulus == 0
  {
    (x - MinInt) % Modulus + MinInt
  }

  /** The operators `+`, `-` and `*` on Go ints. */
  function Add(a: int, b: int): int { Wrap(a + b) }
  function Sub(a: int, b: int): int { Wrap(a - b) }
  function Mul(a: int, b: int): int { Wrap(a * b) }

  /** The remainder modulo 2^64 is determined by any quotient-remainder split. */
  lemma ModOfSplit(n: int, q: int, r: int)
    requires n == q * Modulus + r && 0 <= r < Modulus
    ensures n % Modulus == r
  {
    var q', r' := n / Modulus, n % Modulus;
    assert n == q' * Modulus + r';
    assert (q - q') * Modulus == r' - r;
  }

  /** Values congruent modulo 2^64 wrap to the same 64-bit value. */
  lemma WrapCongruent(x: int, y: int)
    requires (x - y) % Modulus == 0
    ensures Wrap(x) == Wrap(y)
  {
    var k := (x - y) / Modulus;
    assert x - y == k * Modulus;
    var q, r := (y - MinInt) / Modulus, (y - MinInt) % Modulus;
    assert x - MinInt == (q + k) * Modulus + r;
    ModOfSplit(x - MinInt, q + k, r);
  }

  /** Wrapping an intermediate product before subtracting, as Go does in
      `limit*page - limit`, gives the wrapped value of the exact difference. */
  lemma SubOfMul(a: int, b: int, c: int)
    ensures Sub(Mul(a, b), c) == Wrap(a * b - c)
  {
    var m := Wrap(a * b);
    assert (a * b - m) % Modulus == 0;
    assert (m - c) - (a * b - c) == -(a * b - m);
    NegatedMultiple(a * b - m);
    WrapCongruent(m - c, a * b - c);
  }

  /** The negation of a multiple of 2^64 is one too. */
  lemma NegatedMultiple(d: int)
    requires d % Modulus == 0
    ensures (-d) % Modulus == 0
  {
    var k := d / Modulus;
    assert -d == (-k) * Modulus;
    ModOfSplit(-d, -k, 0);
  }
}
