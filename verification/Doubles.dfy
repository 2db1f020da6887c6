/** The numbers the converters decide about: integers as doubles, and the ranges of the scalar kinds,
    from powers of two alone. */
module Doubles {
  import opened Semantics
  import opened Conversion

  // ---------------------------------------------------------------------- powers of two

  lemma {:induction false} PowersAdd(a: nat, b: nat)
    ensures Pow2(a + b) == Pow2(a) * Pow2(b)
    decreases a
  {
    if a > 0 {
      PowersAdd(a - 1, b);
      assert Pow2(a + b) == 2 * Pow2(a - 1 + b);
    }
  }

  lemma PowersGrow(a: nat, b: nat)
    requires a < b
    ensures 2 * Pow2(a) <= Pow2(b)
  {
    PowersAdd(a + 1, b - a - 1);
    assert Pow2(a + 1) == 2 * Pow2(a);
    Scaled(Pow2(a + 1), 1, Pow2(b - a - 1));
  }

  lemma Scaled(q: nat, a: int, b: int)
    requires a <= b
    ensures q * a <= q * b
  {
  }

  lemma SmallPowers()
    ensures Pow2(1) == 2 && Pow2(8) == 256 && Pow2(24) == 0x100_0000
    ensures Pow2(31) == 0x8000_0000 && Pow2(52) == 0x10_0000_0000_0000
  {
    assert Pow2(2) == 4 && Pow2(4) == 4 * Pow2(2) == 16 && Pow2(8) == 16 * Pow2(4);
    PowersAdd(8, 8);
    PowersAdd(16, 8);
    PowersAdd(24, 8);
    assert Pow2(32) == 2 * Pow2(31);
    PowersAdd(24, 24);
    PowersAdd(48, 4);
  }

  /** The integer limits the converters compare with. */
  lemma IntegerLimitsArePowers()
    ensures INT32_MIN + Pow2(31) == 0 && INT32_MAX == Pow2(31) - 1
    ensures INT64_MIN + Pow2(63) == 0 && INT64_MAX == Pow2(63) - 1 && MAX_COUNTER == Pow2(63) - 1
  {
    SmallPowers();
    PowersAdd(31, 31);
    PowersAdd(62, 1);
    assert Pow2(1) == 2;
  }

  lemma SignificandIsAPower()
    ensures SIGNIFICAND == Pow2(53)
  {
    SmallPowers();
    PowersAdd(52, 1);
  }

  /** And the floating ones: doubles stop below 2 to the 1024th ... */
  lemma DoubleLimitIsAPower(e: nat)
    requires e == 971
    ensures DOUBLE_LIMIT == Pow2(53 + e)
  {
    SignificandIsAPower();
    PowersAdd(53, e);
  }

  /** ... and floats 24 bits below 2 to the 128th. */
  lemma FloatLimitIsAPower(e: nat)
    requires e == 104
    ensures FLOAT32_MAX == Pow2(24 + e) as real - Pow2(e) as real
  {
    SmallPowers();
    PowersAdd(52, 52);
    PowersAdd(24, e);
    LargestFloat(Pow2(e), Pow2(24 + e));
  }

  lemma LargestFloat(step: nat, limit: nat)
    requires step == 0x10_0000_0000_0000 * 0x10_0000_0000_0000 && limit == 0x100_0000 * step
    ensures FLOAT32_MAX == limit as real - step as real
  {
    assert limit - step == 340282346638528859811704183484516925440;
  }

  // ----------------------------------------------------------------------- representable

  /** A whole number a double can hold: 53 significant bits and an exponent, magnitude aside. */
  predicate HasBits(n: nat, k: nat, e: nat) {
    k < SIGNIFICAND && n == k * Pow2(e)
  }

  ghost predicate Representable(n: nat) {
    exists k: nat, e: nat :: HasBits(n, k, e)
  }

  /** The spacing around a number is the power of two that leaves it 53 significant bits. */
  lemma {:induction false} SpacingIs(n: nat) returns (e: nat)
    requires n >= SIGNIFICAND
    ensures Spacing(n) == Pow2(e) && e > 0 && SIGNIFICAND / 2 <= n / Pow2(e) < SIGNIFICAND
    decreases n
  {
    if n / 2 >= SIGNIFICAND {
      var half := SpacingIs(n / 2);
      e := half + 1;
      HalfThenDivide(n, Pow2(half));
    } else {
      e := 1;
      assert Spacing(n / 2) == 1;
    }
  }

  lemma HalfThenDivide(n: nat, q: nat)
    requires q > 0
    ensures n / 2 / q == n / (2 * q)
  {
    var k, r := n / (2 * q), n % (2 * q);
    assert n == 2 * q * k + r;
    Associates(2, q, k);
    assert n / 2 == q * k + r / 2;
    Quotient(n / 2, q, k, r / 2);
  }

  lemma Associates(a: int, b: int, c: int)
    ensures a * b * c == a * (b * c)
  {
  }

  lemma Quotient(n: nat, q: nat, k: nat, r: nat)
    requires q > 0 && r < q && n == q * k + r
    ensures n / q == k && n % q == r
  {
    var d := n / q - k;
    assert n == q * (n / q) + n % q;
    assert q * d == r - n % q;
    if d >= 1 {
      Scaled(q, 1, d);
    } else if d <= -1 {
      Scaled(q, d, -1);
    }
  }

  lemma BelowTheGrid(c: nat, d: nat, k: nat, e: nat, half: nat)
    requires c <= 2 * half && 2 * d <= e && half <= k
    ensures c * d <= k * e
  {
    Scaled(d, c, 2 * half);
    Associates(2, half, d);
    Scaled(half, 2 * d, e);
    Scaled(e, half, k);
  }

  /** Between two neighbours of the grid there is nothing representable. */
  lemma NothingBetween(j: nat, k: nat, e: nat)
    requires Representable(j) && SIGNIFICAND / 2 <= k
    ensures j <= k * Pow2(e) || (k + 1) * Pow2(e) <= j
  {
    var c: nat, d: nat :| HasBits(j, c, d);
    if d >= e {
      PowersAdd(d - e, e);
      OnTheGrid(c, Pow2(d - e), Pow2(e), k);
    } else {
      PowersGrow(d, e);
      BelowTheGrid(c, Pow2(d), k, Pow2(e), SIGNIFICAND / 2);
    }
  }

  lemma OnTheGrid(c: nat, m: nat, q: nat, k: nat)
    ensures c * (m * q) <= k * q || (k + 1) * q <= c * (m * q)
  {
    Associates(c, m, q);
    if c * m <= k {
      Scaled(q, c * m, k);
    } else {
      Scaled(q, k + 1, c * m);
    }
  }

  lemma GridIsRepresentable(k: nat, e: nat)
    requires k <= SIGNIFICAND
    ensures Representable(k * Pow2(e))
  {
    if k < SIGNIFICAND {
      assert HasBits(k * Pow2(e), k, e);
    } else {
      Associates(SIGNIFICAND / 2, 2, Pow2(e));
      assert HasBits(k * Pow2(e), SIGNIFICAND / 2, e + 1);
    }
  }

  function Distance(a: int, b: int): nat {
    if a <= b then b - a else a - b
  }

  /** Rounding picks a neighbour on the grid: the nearer one, and of two equally near the one with the
      even significand. */
  lemma RoundsOnTheGrid(n: nat, q: nat)
    requires q > 0 && Spacing(n) == q
    ensures var k := n / q;
      && k * q <= n < (k + 1) * q
      && (RoundMagnitude(n) == k * q || RoundMagnitude(n) == (k + 1) * q)
      && Distance(n, RoundMagnitude(n)) <= Distance(n, k * q)
      && Distance(n, RoundMagnitude(n)) <= Distance(n, (k + 1) * q)
      && (2 * (n % q) == q ==> RoundMagnitude(n) == (if k % 2 == 0 then k else k + 1) * q)
  {
    var k, low, high := n / q, n / q * q, (n / q + 1) * q;
    Neighbours(n, q);
    assert RoundMagnitude(n)
        == if 2 * (n % q) > q || (2 * (n % q) == q && k % 2 == 1) then high else low;
  }

  lemma Neighbours(n: nat, q: nat)
    requires q > 0
    ensures n == n / q * q + n % q && (n / q + 1) * q == n / q * q + q
  {
    assert n == q * (n / q) + n % q;
  }

  /** Rounding to a double gives the nearest number a double can hold. */
  lemma RoundingIsNearest(n: nat)
    ensures Representable(RoundMagnitude(n))
    ensures forall j: nat :: Representable(j) ==> Distance(n, RoundMagnitude(n)) <= Distance(n, j)
  {
    if n < SIGNIFICAND {
      RoundingIsClose(n);
      assert HasBits(n, n, 0);
    } else {
      var e := SpacingIs(n);
      RoundsOnTheGrid(n, Pow2(e));
      GridIsRepresentable(n / Pow2(e), e);
      GridIsRepresentable(n / Pow2(e) + 1, e);
      forall j: nat | Representable(j)
        ensures Distance(n, RoundMagnitude(n)) <= Distance(n, j)
      {
        NothingBetween(j, n / Pow2(e), e);
        NearerThan(n, RoundMagnitude(n), n / Pow2(e) * Pow2(e), (n / Pow2(e) + 1) * Pow2(e), j);
      }
    }
  }

  lemma NearerThan(n: nat, r: nat, low: nat, high: nat, j: nat)
    requires low <= n < high && (r == low || r == high) && (j <= low || high <= j)
    requires Distance(n, r) <= Distance(n, low) && Distance(n, r) <= Distance(n, high)
    ensures Distance(n, r) <= Distance(n, j)
  {
  }

  /** Halfway between two of them, to the even one. */
  lemma TiesGoToEven(n: nat, e: nat)
    requires n >= SIGNIFICAND && SIGNIFICAND / 2 <= n / Pow2(e) < SIGNIFICAND && 2 * (n % Pow2(e)) == Pow2(e)
    ensures RoundMagnitude(n) == (if n / Pow2(e) % 2 == 0 then n / Pow2(e) else n / Pow2(e) + 1) * Pow2(e)
  {
    var found := SpacingIs(n);
    OneSpacing(n, e, found);
    RoundsOnTheGrid(n, Pow2(e));
  }

  lemma OneSpacing(n: nat, a: nat, b: nat)
    requires SIGNIFICAND / 2 <= n / Pow2(a) < SIGNIFICAND && SIGNIFICAND / 2 <= n / Pow2(b) < SIGNIFICAND
    ensures a == b
  {
    if a < b {
      Finer(n, a, b);
    } else if b < a {
      Finer(n, b, a);
    }
  }

  lemma Finer(n: nat, a: nat, b: nat)
    requires a < b && SIGNIFICAND / 2 <= n / Pow2(b)
    ensures SIGNIFICAND <= n / Pow2(a)
  {
    PowersGrow(a, b);
    Neighbours(n, Pow2(b));
    BelowTheGrid(SIGNIFICAND, Pow2(a), n / Pow2(b), Pow2(b), SIGNIFICAND / 2);
    AtLeast(n, Pow2(a), SIGNIFICAND);
  }

  lemma AtLeast(n: nat, q: nat, k: nat)
    requires q > 0 && k * q <= n
    ensures k <= n / q
  {
    Neighbours(n, q);
    if n / q < k {
      Scaled(q, n / q + 1, k);
    }
  }
}
