/** Machine integer widths used by the tool, and the two integer macros/helpers it defines. */
module Ints {

  const TWO_8: int := 0x100
  const TWO_16: int := 0x1_0000
  const TWO_32: int := 0x1_0000_0000
  const TWO_63: int := 0x8000_0000_0000_0000
  const TWO_64: int := 0x1_0000_0000_0000_0000

  type Byte = x: int | 0 <= x < 0x100
  type U16 = x: int | 0 <= x < 0x1_0000
  type U32 = x: int | 0 <= x < 0x1_0000_0000
  type U64 = x: int | 0 <= x < 0x1_0000_0000_0000_0000
  /** off64_t */
  type Int64 = x: int | -0x8000_0000_0000_0000 <= x < 0x8000_0000_0000_0000

  const MAX_U32: U32 := 0xFFFF_FFFF
  const MAX_U64: U64 := 0xFFFF_FFFF_FFFF_FFFF

  /** Reinterpret an unsigned 64-bit pattern (any int, reduced mod 2^64) as off64_t. */
  function Signed64(x: int): (r: Int64)
    ensures (r - x) % TWO_64 == 0
    ensures -TWO_63 <= x < TWO_63 ==> r == x
    ensures TWO_63 <= x < TWO_64 ==> r == x - TWO_64
  {
    var u := x % TWO_64;
    if u < TWO_63 then u else u - TWO_64
  }

  /** Distinct 64-bit patterns are distinct `off64_t` values. */
  lemma Signed64Injective(a: int, b: int)
    requires 0 <= a < TWO_64 && 0 <= b < TWO_64
    ensures Signed64(a) == Signed64(b) <==> a == b
  {
  }

  /** `(uint64_t)x` for an off64_t value. */
  function Unsigned64(x: Int64): (r: U64)
    ensures Signed64(r) == x
    ensures x >= 0 ==> r == x
    ensures x != 0 ==> r != 0
  {
    if x >= 0 then x else x + TWO_64
  }

  /** `round_up(what, on)`: `(((what) + (on) - 1) / (on)) * (on)` (vhdtool.c:68). */
  function RoundUp(what: nat, on: nat): nat
    requires on > 0
  {
    ((what + on - 1) / on) * on
  }

  /** round_up yields the least multiple of `on` that is not below `what`. */
  lemma RoundUpIsLeastMultiple(what: nat, on: nat)
    requires on > 0
    ensures RoundUp(what, on) % on == 0
    ensures what <= RoundUp(what, on) < what + on
  {
    var q := (what + on - 1) / on;
    var m := (what + on - 1) % on;
    assert what + on - 1 == q * on + m;
    MulModZero(q, on);
  }

  lemma MulModZero(q: nat, on: nat)
    requires on > 0
    ensures (q * on) % on == 0
  {
    DivModUnique(q * on, on, q, 0);
  }

  /** The quotient and remainder of Euclidean division are unique. */
  lemma DivModUnique(n: int, d: int, q: int, x: int)
    requires d > 0 && 0 <= x < d && n == q * d + x
    ensures n / d == q && n % d == x
  {
    var q' := n / d;
    var x' := n % d;
    assert n == q' * d + x';
    if q' < q {
      MulMonotone(q' + 1, q, d);
    } else if q' > q {
      MulMonotone(q + 1, q', d);
    }
  }

  /** Two distinct multiples of `m` are at least `m` apart. */
  lemma MultiplesApart(p: int, q: int, m: int)
    requires m > 0 && p % m == 0 && q % m == 0 && p < q
    ensures p + m <= q
  {
    DivModUnique(p, m, p / m, 0);
    DivModUnique(q, m, q / m, 0);
    if p / m >= q / m {
      MulMonotone(q / m, p / m, m);
    } else {
      MulMonotone(p / m + 1, q / m, m);
    }
  }

  /** Reducing a summand first does not change the sum's remainder. */
  lemma AddMod(x: int, y: int, m: int)
    requires m > 0
    ensures (x % m + y) % m == (x + y) % m
  {
    var r := (x % m + y) % m;
    var q := (x % m + y) / m;
    assert x + y == (x / m + q) * m + r;
    DivModUnique(x + y, m, x / m + q, r);
  }

  /** Splitting off the low byte, then dividing what is left by `p`: a number in base `256 * p`. */
  lemma ByteThenDigit(n: nat, p: nat)
    requires p > 0
    ensures n == ((n / 256) / p) * (256 * p) + (((n / 256) % p) * 256 + n % 256)
  {
    var q := n / 256;
    var a := q / p;
    var b := q % p;
    assert q == a * p + b;
    assert n == 256 * q + n % 256;
    assert 256 * q == 256 * (a * p) + 256 * b;
    assert 256 * (a * p) == a * (256 * p);
  }

  lemma DivNonneg(a: nat, b: nat)
    requires b > 0
    ensures a / b >= 0
  {
  }

  lemma MulMonotone(a: int, b: int, c: int)
    requires a <= b && c >= 0
    ensures a * c <= b * c
  {
  }

  /** a / b < k when a < b * k. */
  lemma DivLess(a: nat, b: nat, k: nat)
    requires b > 0 && a < b * k
    ensures a / b < k
  {
    if a / b >= k {
      MulMonotone(k, a / b, b);
    }
  }

  /** a / b <= k when a < b * (k + 1). */
  lemma DivAtMost(a: nat, b: nat, k: nat)
    requires b > 0 && a < b * (k + 1)
    ensures a / b <= k
  {
    DivLess(a, b, k + 1);
  }

  /** `min_nz(a, b)`: `a` when it is nonzero and below `b`, otherwise `b` (vhdtool.c:285-288). */
  function MinNz(a: nat, b: nat): (r: nat)
    ensures r == a || r == b
    ensures b != 0 ==> r != 0 && r <= b && (a != 0 ==> r <= a)
    ensures b == 0 ==> r == 0
  {
    if a < b && a != 0 then a else b
  }
}
