/** `encodePriceSqrt` of scripts/deploy.js: the starting price of a pool as a "64x96"
    fixed-point square root, floor(sqrt(reserve1 / reserve0) * 2^96).

    The source computes it with bignumber.js, dividing and taking the square root to
    40 decimal places. The model computes the exact value instead: the largest n with
    n * n * reserve0 <= reserve1 * 2^192. The two agree wherever the library's
    arithmetic is exact, which includes every ratio k*k : 1; for ratios below about
    10^-22 the library's rounding can move the result by many units. */
module PriceEncoder {
  import opened Results

  /** 2^96, the fixed-point scale (`new bn(2).pow(96)`). */
  const Q96: nat := 0x1_0000_0000_0000_0000_0000_0000

  /** Why `BigNumber.from` rejects the string the bignumber.js chain produces. */
  datatype PriceError =
    | NotFinite      // reserve0 is zero: the quotient is Infinity (or NaN for 0 / 0)
    | NegativeRatio  // the quotient is negative: its square root is NaN

  function Abs(x: int): nat { if x < 0 then -x else x }

  /** 2^192, the square of the fixed-point scale. */
  const Q192: nat := Q96 * Q96

  /** `n` is floor(sqrt(x / d)): n^2 * d <= x < (n + 1)^2 * d. */
  ghost predicate SqrtBounds(n: nat, x: nat, d: nat)
  {
    n * n * d <= x < (n + 1) * (n + 1) * d
  }

  /** `n` is floor(sqrt(num / den) * 2^96), that is floor(sqrt(num * 2^192 / den)). */
  ghost predicate IsSqrtPrice(n: nat, num: nat, den: nat)
  {
    SqrtBounds(n, num * Q192, den)
  }

  /** The integer square root, digit by digit in base 4. */
  function FloorSqrt(m: nat): (r: nat)
    ensures r * r <= m < (r + 1) * (r + 1)
    decreases m
  {
    if m == 0 then 0
    else
      var s := FloorSqrt(m / 4);
      var h := 2 * s;
      DoubleSquare(s);
      DoubleSquare(s + 1);
      assert h * h <= m;
      assert m < (h + 2) * (h + 2);
      if (h + 1) * (h + 1) <= m then h + 1 else h
  }

  lemma DoubleSquare(s: nat)
    ensures (2 * s) * (2 * s) == 4 * (s * s)
  {
  }

  lemma MulMonotone(a: nat, b: nat, c: nat)
    requires a <= b
    ensures a * c <= b * c && c * a <= c * b
  {
  }

  lemma MulStrictMonotone(a: nat, b: nat, c: nat)
    requires a < b && c > 0
    ensures c * a < c * b
  {
  }

  lemma MulSucc(a: nat, c: nat)
    ensures (a + 1) * c == a * c + c
  {
  }

  lemma MulRotate(a: nat, b: nat, c: nat)
    ensures a * (b * c) == b * (a * c) == (a * c) * b
  {
  }

  lemma MulAssoc(a: nat, b: nat, c: nat)
    ensures (a * b) * c == a * (b * c)
  {
  }

  lemma MulSquare(a: nat, b: nat)
    ensures (a * b) * (a * b) == (a * a) * (b * b)
  {
  }

  lemma ProductSign(a: nat, c: int)
    ensures a * c == 0 || a == 0 || (a * c > 0 <==> c > 0)
  {
    if a > 0 && c > 0 {
      MulStrictMonotone(0, c, a);
    } else if a > 0 && c < 0 {
      MulStrictMonotone(0, -c, a);
      assert a * c == -(a * -c);
    }
  }

  lemma MulSign(c: int, x: int)
    ensures c * x == 0 <==> c == 0 || x == 0
    ensures c * x > 0 <==> (c > 0 && x > 0) || (c < 0 && x < 0)
  {
    if c != 0 && x != 0 {
      ProductSign(Abs(c), x);
      assert c * x == Abs(c) * x || c * x == -(Abs(c) * x);
    }
  }

  lemma AbsMul(a: int, b: int)
    ensures Abs(a * b) == Abs(a) * Abs(b)
  {
    if a < 0 && b < 0 {
      assert a * b == Abs(a) * Abs(b);
    } else if a < 0 {
      assert a * b == -(Abs(a) * b);
    } else if b < 0 {
      assert a * b == -(a * Abs(b));
    }
  }

  /** x <= y implies x * x * d <= y * y * d for a non-negative d. */
  lemma SquareScaleMonotone(x: nat, y: nat, d: nat)
    requires x <= y
    ensures x * x * d <= y * y * d
  {
    MulMonotone(x, y, x);
    MulMonotone(x, y, y);
    assert x * x <= y * y;
    MulMonotone(x * x, y * y, d);
  }

  /** Bounds on a floor quotient carry over to the exact quotient. */
  lemma QuotientBounds(x: nat, d: nat, lo: nat, hi: nat)
    requires d > 0 && lo <= x / d < hi
    ensures lo * d <= x < hi * d
  {
    var q := x / d;
    assert q * d <= x;
    MulMonotone(lo, q, d);
    MulMonotone(q + 1, hi, d);
  }

  /** The floor square root of a floor quotient is the floor square root of the exact quotient. */
  lemma FloorSqrtOfQuotient(x: nat, d: nat)
    requires d > 0
    ensures SqrtBounds(FloorSqrt(x / d), x, d)
  {
    var n := FloorSqrt(x / d);
    QuotientBounds(x, d, n * n, (n + 1) * (n + 1));
  }

  /** encodePriceSqrt(reserve1, reserve0). */
  function EncodePriceSqrt(reserve1: int, reserve0: int): (r: Result<nat, PriceError>)
    ensures r.Ok? <==> reserve0 != 0 && (reserve1 == 0 || (reserve1 > 0 <==> reserve0 > 0))
    ensures r == Err(NotFinite) <==> reserve0 == 0
    ensures r.Ok? ==> IsSqrtPrice(r.value, Abs(reserve1), Abs(reserve0))
  {
    if reserve0 == 0 then Err(NotFinite)
    else if reserve1 != 0 && (reserve1 > 0 <==> reserve0 < 0) then Err(NegativeRatio)
    else
      var x := Abs(reserve1) * Q192;
      FloorSqrtOfQuotient(x, Abs(reserve0));
      Ok(FloorSqrt(x / Abs(reserve0)))
  }

  /** At most one n is the floor of a square root. */
  lemma SqrtBoundsUnique(n: nat, m: nat, x: nat, d: nat)
    requires SqrtBounds(n, x, d) && SqrtBounds(m, x, d)
    ensures n == m
  {
    if n < m {
      SquareScaleMonotone(n + 1, m, d);
    } else if m < n {
      SquareScaleMonotone(m + 1, n, d);
    }
  }

  /** Scaling numerator and denominator by the same positive c keeps the floor square root. */
  lemma SqrtBoundsScale(n: nat, x: nat, d: nat, c: nat)
    requires c > 0 && SqrtBounds(n, x, d)
    ensures SqrtBounds(n, c * x, c * d)
  {
    MulRotate(n * n, c, d);
    MulRotate((n + 1) * (n + 1), c, d);
    MulMonotone(n * n * d, x, c);
    MulStrictMonotone(x, (n + 1) * (n + 1) * d, c);
  }

  /** The price the deployment initialises its pool with: a 1:1 ratio encodes as exactly 2^96. */
  lemma EncodeOneToOne()
    ensures EncodePriceSqrt(1, 1) == Ok(Q96)
  {
    MulSucc(Q96, Q96 + 1);
    assert SqrtBounds(Q96, Q192, 1);
    SqrtBoundsUnique(EncodePriceSqrt(1, 1).value, Q96, Q192, 1);
  }

  /** n is the floor square root of n*n*d : d. */
  lemma SquareSqrt(n: nat, d: nat)
    requires d > 0
    ensures SqrtBounds(n, d * (n * n), d)
  {
    MulSucc(n, n + 1);
    assert SqrtBounds(n, n * n, 1);
    SqrtBoundsScale(n, n * n, 1, d);
  }

  /** k * 2^96 is the floor square-root price of k*k*d : d. */
  lemma PerfectSquarePrice(k: nat, d: nat)
    requires d > 0
    ensures IsSqrtPrice(k * Q96, k * k * d, d)
  {
    var n := k * Q96;
    SquareSqrt(n, d);
    assert k * k * d * Q192 == d * (n * n) by {
      MulSquare(k, Q96);
      MulRotate(k * k, d, Q192);
    }
  }

  /** A perfect-square ratio k*k : 1, scaled by any non-zero c, encodes as exactly k * 2^96. */
  lemma EncodePerfectSquare(k: nat, c: int)
    requires c != 0
    ensures EncodePriceSqrt(k * k * c, c) == Ok(k * Q96)
  {
    var num := k * k * c;
    assert Abs(num) == k * k * Abs(c) && (num == 0 || (num > 0 <==> c > 0)) by {
      AbsMul(k * k, c);
      ProductSign(k * k, c);
    }
    PerfectSquarePrice(k, Abs(c));
    SqrtBoundsUnique(EncodePriceSqrt(num, c).value, k * Q96, Abs(num) * Q192, Abs(c));
  }

  /** The floor square root of x / d is that of c*x / c*d. */
  lemma SqrtBoundsScaleUnique(n: nat, m: nat, x: nat, d: nat, c: nat)
    requires c > 0 && SqrtBounds(n, x, d) && SqrtBounds(m, c * x, c * d)
    ensures n == m
  {
    SqrtBoundsScale(n, x, d, c);
    SqrtBoundsUnique(m, n, c * x, c * d);
  }

  /** Only the ratio matters: scaling both reserves by the same non-zero factor keeps the price. */
  lemma EncodeScaleInvariant(reserve1: int, reserve0: int, c: int)
    requires c != 0
    ensures EncodePriceSqrt(c * reserve1, c * reserve0) == EncodePriceSqrt(reserve1, reserve0)
  {
    var a, b := c * reserve1, c * reserve0;
    assert (a == 0 <==> reserve1 == 0) && (b == 0 <==> reserve0 == 0) &&
           (a > 0 <==> reserve1 != 0 && (c > 0 <==> reserve1 > 0)) &&
           (b > 0 <==> reserve0 != 0 && (c > 0 <==> reserve0 > 0)) by {
      MulSign(c, reserve1);
      MulSign(c, reserve0);
    }
    var r, s := EncodePriceSqrt(reserve1, reserve0), EncodePriceSqrt(a, b);
    if r.Ok? {
      assert Abs(a) == Abs(c) * Abs(reserve1) && Abs(b) == Abs(c) * Abs(reserve0) by {
        AbsMul(c, reserve1);
        AbsMul(c, reserve0);
      }
      MulAssoc(Abs(c), Abs(reserve1), Q192);
      SqrtBoundsScaleUnique(r.value, s.value, Abs(reserve1) * Q192, Abs(reserve0), Abs(c));
    }
  }

  /** A larger denominator never gives a larger floor square root. */
  lemma SqrtBoundsAntitone(n: nat, m: nat, x: nat, a: nat, b: nat)
    requires 0 < a <= b && SqrtBounds(n, x, a) && SqrtBounds(m, x, b)
    ensures m <= n
  {
    if n < m {
      assert (n + 1) * (n + 1) * a <= m * m * a by {
        SquareScaleMonotone(n + 1, m, a);
      }
      MulMonotone(a, b, m * m);
    }
  }

  /** A larger numerator never gives a smaller floor square root. */
  lemma SqrtBoundsMonotone(n: nat, m: nat, x: nat, y: nat, d: nat)
    requires x <= y && SqrtBounds(n, x, d) && SqrtBounds(m, y, d)
    ensures n <= m
  {
    if m < n {
      SquareScaleMonotone(m + 1, n, d);
    }
  }

  /** For a fixed positive reserve0, the price never decreases as reserve1 grows. */
  lemma EncodeMonotoneInReserve1(a: nat, b: nat, reserve0: int)
    requires a <= b && reserve0 > 0
    ensures EncodePriceSqrt(a, reserve0).Ok? && EncodePriceSqrt(b, reserve0).Ok?
    ensures EncodePriceSqrt(a, reserve0).value <= EncodePriceSqrt(b, reserve0).value
  {
    MulMonotone(a, b, Q192);
    SqrtBoundsMonotone(EncodePriceSqrt(a, reserve0).value, EncodePriceSqrt(b, reserve0).value,
                       a * Q192, b * Q192, reserve0);
  }

  /** For a fixed non-negative reserve1, the price never increases as reserve0 grows. */
  lemma EncodeAntitoneInReserve0(reserve1: nat, a: int, b: int)
    requires 0 < a <= b
    ensures EncodePriceSqrt(reserve1, a).Ok? && EncodePriceSqrt(reserve1, b).Ok?
    ensures EncodePriceSqrt(reserve1, b).value <= EncodePriceSqrt(reserve1, a).value
  {
    SqrtBoundsAntitone(EncodePriceSqrt(reserve1, a).value, EncodePriceSqrt(reserve1, b).value,
                       reserve1 * Q192, a, b);
  }
}
