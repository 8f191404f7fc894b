/**
 * C integer arithmetic as the status bar's probes evaluate it: 64-bit
 * unsigned arithmetic (`unsigned long long`, and `unsigned long` on a
 * 64-bit Linux), which wraps modulo 2^64, and the signed `/` and `%` of C,
 * which truncate toward zero.
 */
module CInts {

  /** 2^64, the modulus of `unsigned long long`. */
  const U64: int := 0x1_0000_0000_0000_0000
  /** `ULLONG_MAX`. */
  const U64Max: int := U64 - 1

  type u64 = x: int | 0 <= x < U64

  /** Reduction of a mathematical integer to the `unsigned long long` it becomes. */
  function Wrap(x: int): (r: u64)
    ensures 0 <= x < U64 ==> r == x
  {
    x % U64
  }

  /** Unsigned addition: a carry out of bit 63 is lost. */
  function Add(a: u64, b: u64): (r: u64)
    ensures r == a + b - Carry(a, b) * U64
  {
    if a + b < U64 then a + b else a + b - U64
  }

  function Carry(a: u64, b: u64): (c: nat)
    ensures c <= 1
  {
    if a + b < U64 then 0 else 1
  }

  /** Unsigned subtraction: a borrow wraps around instead of going negative. */
  function Sub(a: u64, b: u64): (r: u64)
    ensures r == a - b + Borrow(a, b) * U64
  {
    if b <= a then a - b else a - b + U64
  }

  function Borrow(a: u64, b: u64): (c: nat)
    ensures c <= 1
    ensures c == 0 <==> b <= a
  {
    if b <= a then 0 else 1
  }

  /** Two `unsigned long long` values congruent modulo 2^64 are equal. */
  lemma SameResidue(x: u64, y: u64, k: int)
    requires x == y + k * U64
    ensures x == y
  {
  }

  function Abs(x: int): nat
  {
    if x < 0 then -x else x
  }

  /** C's signed `/`: the quotient truncated toward zero. */
  function CDiv(a: int, b: int): int
    requires b != 0
  {
    if (a < 0) == (b < 0) then Abs(a) / Abs(b) else -(Abs(a) / Abs(b))
  }

  /** C's signed `%`: the remainder that goes with `CDiv`. */
  function CMod(a: int, b: int): int
    requires b != 0
  {
    if a < 0 then -(Abs(a) % Abs(b)) else Abs(a) % Abs(b)
  }

  /**
   * `CDiv` and `CMod` are C's division: the quotient and remainder
   * recompose the dividend, the remainder is smaller than the divisor in
   * magnitude and has the sign of the dividend.
   */
  lemma CDivMod(a: int, b: int)
    requires b != 0
    ensures b * CDiv(a, b) + CMod(a, b) == a
    ensures Abs(CMod(a, b)) < Abs(b)
    ensures CMod(a, b) == 0 || (CMod(a, b) < 0 <==> a < 0)
  {
    var q, r := Abs(a) / Abs(b), Abs(a) % Abs(b);
    EuclidBounds(Abs(a), Abs(b));
    if b < 0 {
      NegateFactor(Abs(b), q);
    }
    if (a < 0) != (b < 0) {
      NegateFactor(b, q);
    }
  }

  /** Negating one factor negates the product. */
  lemma NegateFactor(x: int, y: int)
    ensures (-x) * y == -(x * y) && x * (-y) == -(x * y)
  {
  }

  /** A positive factor can be cancelled from both sides of `<=`. */
  lemma CancelFactor(a: int, b: int, p: int)
    requires 0 < p && a * p <= b * p
    ensures a <= b
  {
    assert (b - a) * p >= 0;
  }

  /** A positive factor can be cancelled from both sides of `<`. */
  lemma CancelFactorStrict(a: int, b: int, p: int)
    requires 0 < p && a * p < b * p
    ensures a < b
  {
    assert (b - a) * p > 0;
  }

  /** Euclid's quotient and remainder bracket the dividend between two multiples of the divisor. */
  lemma EuclidBounds(a: int, b: int)
    requires 0 <= a && 0 < b
    ensures (a / b) * b + a % b == a && 0 <= a % b < b
    ensures (a / b) * b <= a < (a / b + 1) * b
  {
  }

  /** Dividing a non-negative number by a positive one never makes it larger. */
  lemma DivAtMost(a: int, b: int)
    requires 0 <= a && 0 < b
    ensures 0 <= a / b <= a
  {
    var q, r := a / b, a % b;
    assert a == q * b + r && 0 <= r;
    if q > 0 {
      MultipleAtLeast(b, q);
      assert q <= b * q;
    }
  }

  /** On a non-negative dividend and a positive divisor C's `/` and `%` are Euclid's. */
  lemma CDivModNatural(a: int, b: int)
    requires 0 <= a && 0 < b
    ensures CDiv(a, b) == a / b && CMod(a, b) == a % b
  {
  }

  /** Adding in `unsigned long long` after reducing is reducing after adding. */
  lemma WrapAdd(a: int, s: int, c: u64)
    ensures Add(Wrap(a + s), c) == Wrap(a + s + c)
  {
    var w := Wrap(a + s);
    var q := (a + s) / U64;
    assert a + s == q * U64 + w;
    assert a + s + c == q * U64 + (w + c);
    if w + c < U64 {
      ModOf(a + s + c, U64, q, w + c);
    } else {
      ModOf(a + s + c, U64, q + 1, w + c - U64);
    }
  }

  /** Quotient and remainder are unique: `q * d + r` with `0 <= r < d` divides into `q` and `r`. */
  lemma ModOf(x: int, d: int, q: int, r: int)
    requires 0 <= r < d && x == q * d + r
    ensures x / d == q && x % d == r
  {
    var p, w := x / d, x % d;
    assert (q - p) * d == w - r;
    if q > p {
      MultipleAtLeast(q - p, d);
    } else if q < p {
      MultipleAtLeast(p - q, d);
    }
  }

  /** A positive multiple of a positive number is at least that number. */
  lemma MultipleAtLeast(k: int, d: int)
    requires 1 <= k && 0 < d
    ensures d <= k * d
  {
    assert k * d == d + (k - 1) * d;
  }
}
