/** The few facts about division, remainder and C integer conversions that the storage layout needs. */
module Arith {

  const TWO31: int := 0x8000_0000
  const TWO32: int := 0x1_0000_0000

  type u32 = x: int | 0 <= x < TWO32

  /** Conversion to `__u32`. */
  function U32(x: int): u32 {
    x % TWO32
  }

  /** Conversion to a two's-complement 32-bit `int`. */
  function I32(x: int): (r: int)
    ensures -TWO31 <= r < TWO31
  {
    var m := x % TWO32;
    if m < TWO31 then m else m - TWO32
  }

  lemma U32Small(x: u32)
    ensures U32(x) == x
  {
  }

  lemma U32Add(a: int, b: int)
    ensures U32(U32(a) + U32(b)) == U32(a + b)
  {
  }

  function Min(a: int, b: int): int {
    if a < b then a else b
  }

  function Max(a: int, b: int): int {
    if a > b then a else b
  }

  lemma DivModUnique(x: int, d: int, q: int, r: int)
    requires 0 <= r < d && x == q * d + r
    ensures x / d == q && x % d == r
  {
    var q' := x / d;
    assert x == q' * d + x % d;
    assert (q' - q) * d == r - x % d;
    if q' > q {
      assert (q' - q) * d >= d by { MulMono(1, q' - q, d); }
    } else if q' < q {
      assert (q - q') * d >= d by { MulMono(1, q - q', d); }
    }
  }

  lemma MulMono(a: int, b: int, d: int)
    requires a <= b && 0 <= d
    ensures a * d <= b * d
  {
  }

  lemma DivMono(x: int, y: int, d: int)
    requires 0 < d && x <= y
    ensures x / d <= y / d
  {
    if x / d > y / d {
      MulMono(y / d + 1, x / d, d);
    }
  }

  /** Two numbers less than `n` apart never share a remainder modulo `n`. */
  lemma ModDistinct(a: int, b: int, n: int)
    requires 0 < n && a < b < a + n
    ensures a % n != b % n
  {
    if a % n == b % n {
      assert b - a == (b / n - a / n) * n;
      if b / n - a / n >= 1 {
        MulMono(1, b / n - a / n, n);
      } else {
        MulMono(b / n - a / n, 0, n);
      }
    }
  }

  /** Adding a multiple of the modulus changes nothing. */
  lemma ModShift(a: int, n: int)
    requires 0 < n
    ensures (a + n) % n == a % n
  {
    DivModUnique(a + n, n, a / n + 1, a % n);
  }
}
