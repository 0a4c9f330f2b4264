/** Facts about alignment: every address in the flash driver is cut at multiples of 8 and of the page size. */
module Arith {

  /** The Align_down macro, for a boundary n. */
  function AlignDown(a: int, n: int): int
    requires 0 < n
  {
    a - a % n
  }

  lemma ProductBounds(k: int, n: int)
    requires 0 < n
    ensures k >= 1 ==> k * n >= n
    ensures k <= 0 ==> k * n <= 0
    ensures k <= -1 ==> k * n <= -n
  {
  }

  lemma ScaledOrder(d: nat, x: int, y: int)
    ensures x > y ==> d * x >= d * y + d
    ensures x <= y ==> d * x <= d * y
  {
    var k := x - y;
    assert d * x == d * (y + k) == d * y + d * k;
    NonNegativeProduct(d, if k > 0 then k - 1 else -k);
    assert k > 0 ==> d * k == d * (k - 1) + d;
    assert k <= 0 ==> d * k == -(d * -k);
  }

  lemma NonNegativeProduct(a: nat, b: nat)
    ensures 0 <= a * b
  {
  }

  lemma ModOfSum(a: int, k: int, n: int)
    requires 0 < n
    ensures (a + k * n) % n == a % n
  {
    var q, r := a / n, a % n;
    var q', r' := (a + k * n) / n, (a + k * n) % n;
    assert (q' - q - k) * n == r - r' by {
      assert q' * n + r' == q * n + r + k * n;
    }
    ProductBounds(q' - q - k, n);
  }

  lemma AlignDownIsAligned(a: int, n: int)
    requires 0 < n
    ensures AlignDown(a, n) % n == 0
    ensures AlignDown(a, n) <= a < AlignDown(a, n) + n
  {
    ModOfSum(0, a / n, n);
    assert AlignDown(a, n) == (a / n) * n;
  }

  /** Two different multiples of n are at least n apart. */
  lemma MultiplesApart(x: int, y: int, n: int)
    requires 0 < n && x % n == 0 && y % n == 0 && x < y
    ensures x + n <= y
  {
    var i, j := x / n, y / n;
    assert x == i * n && y == j * n;
    ProductBounds(j - i, n);
    assert y - x == (j - i) * n;
  }

  lemma SumOfMultiples(x: int, y: int, n: int)
    requires 0 < n && x % n == 0 && y % n == 0
    ensures (x + y) % n == 0 && (x - y) % n == 0
  {
    var i, j := x / n, y / n;
    assert x + y == 0 + (i + j) * n;
    assert x - y == 0 + (i - j) * n;
    ModOfSum(0, i + j, n);
    ModOfSum(0, i - j, n);
  }

  /** A multiple of n is a multiple of every divisor of n. */
  lemma MultipleOfDivisor(x: int, n: int, d: int)
    requires 0 < n && 0 < d && n % d == 0 && x % n == 0
    ensures x % d == 0
  {
    var i, j := x / n, n / d;
    assert x == i * (j * d) == (i * j) * d;
    ModOfSum(0, i * j, d);
  }

  /** The multiple of n at or below a is unique. */
  lemma AlignDownUnique(a: int, b: int, n: int)
    requires 0 < n && b % n == 0 && b <= a < b + n
    ensures AlignDown(a, n) == b
  {
    AlignDownIsAligned(a, n);
    if AlignDown(a, n) < b {
      MultiplesApart(AlignDown(a, n), b, n);
    } else if b < AlignDown(a, n) {
      MultiplesApart(b, AlignDown(a, n), n);
    }
  }

  /** Quotient and remainder are unique. */
  lemma ModUnique(v: int, d: int, q: int, r: int)
    requires 0 < d && v == d * q + r && 0 <= r < d
    ensures v % d == r && v / d == q
  {
    var q', r' := v / d, v % d;
    assert d * (q - q') == r' - r;
    SmallProduct(d, q - q');
  }

  lemma SmallProduct(d: int, k: int)
    requires 0 < d && -d < d * k < d
    ensures k == 0
  {
  }
}
