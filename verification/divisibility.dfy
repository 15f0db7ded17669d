/**
 * Integer divisibility facts needed by fraction reduction: absolute value,
 * Euclid's greatest common divisor and the two properties the reduction
 * proofs rest on (the gcd divides both arguments, and scaling both arguments
 * scales the gcd).
 */
module Divisibility {

  /** Absolute value over unbounded integers (Java's Math.abs without overflow). */
  function Abs(x: int): (r: nat)
    ensures r == x || r == -x
  {
    if x < 0 then -x else x
  }

  /** `t` is a positive common divisor of `x` and `y`. */
  predicate IsCommonDivisor(t: int, x: int, y: int)
  {
    t > 0 && x % t == 0 && y % t == 0
  }

  /** Greatest common divisor by Euclid's algorithm; Gcd(a, 0) == a. */
  function Gcd(a: nat, b: nat): (g: nat)
    ensures (a > 0 || b > 0) <==> g > 0
    decreases b
  {
    if b == 0 then a else Gcd(b, a % b)
  }

  /** A positive number is its own greatest common divisor. */
  lemma GcdSelf(a: int)
    requires a > 0
    ensures Gcd(a, a) == a
  {
    MultipleMod(1, a);
    assert Gcd(a, a) == Gcd(a, 0);
  }

  /** Euclidean division by a positive modulus is determined by any quotient/remainder pair. */
  lemma DivModUnique(x: int, m: int, q: int, r: int)
    requires m > 0 && 0 <= r < m && x == q * m + r
    ensures x / m == q && x % m == r
  {
    var q', r' := x / m, x % m;
    assert (q - q') * m == r' - r;
    MultipleBound(q - q', m);
  }

  /** A non-zero multiple of a positive `m` is at least `m` away from zero. */
  lemma MultipleBound(d: int, m: int)
    requires m > 0
    ensures d >= 1 ==> d * m >= m
    ensures d <= -1 ==> d * m <= -m
  {
  }

  /** A multiple of `t` leaves no remainder and divides back exactly. */
  lemma MultipleMod(k: int, t: int)
    requires t > 0
    ensures (k * t) % t == 0 && (k * t) / t == k
  {
    DivModUnique(k * t, t, k, 0);
  }

  /** Divisibility is closed under integer linear combinations. */
  lemma CombinationMod(x: int, y: int, q: int, t: int)
    requires t > 0 && x % t == 0 && y % t == 0
    ensures (q * x + y) % t == 0
  {
    var a, b := x / t, y / t;
    assert x == a * t && y == b * t;
    assert q * x + y == (q * a + b) * t;
    MultipleMod(q * a + b, t);
  }

  /** Divisibility does not depend on the sign of the dividend. */
  lemma NegMod(x: int, t: int)
    requires t > 0
    ensures (x % t == 0) == ((-x) % t == 0)
  {
    if x % t == 0 {
      CombinationMod(x, 0, -1, t);
    }
    if (-x) % t == 0 {
      CombinationMod(-x, 0, -1, t);
    }
  }

  /** Scaling both operands scales Euclid's remainder. */
  lemma ModScale(a: nat, b: nat, k: nat)
    requires b > 0 && k > 0
    ensures (k * a) % (k * b) == k * (a % b)
  {
    var q, r := a / b, a % b;
    assert a == q * b + r;
    assert k * a == q * (k * b) + k * r;
    assert k * r < k * b;
    DivModUnique(k * a, k * b, q, k * r);
  }

  /** The gcd divides both arguments, and is positive unless both are zero. */
  lemma {:induction false} GcdDivides(a: nat, b: nat)
    decreases b
    ensures Gcd(a, b) > 0 ==> a % Gcd(a, b) == 0 && b % Gcd(a, b) == 0
  {
    if b == 0 {
      if a > 0 {
        MultipleMod(1, a);
        MultipleMod(0, a);
      }
    } else {
      var g := Gcd(b, a % b);
      GcdDivides(b, a % b);
      assert a == (a / b) * b + a % b;
      CombinationMod(b, a % b, a / b, g);
    }
  }

  /** A positive divisor of a positive `a` is no larger than `a`. */
  lemma DivisorBound(t: int, a: int)
    requires t > 0 && a > 0 && a % t == 0
    ensures t <= a
  {
    var q := a / t;
    assert a == q * t;
    MultipleBound(q, t);
  }

  /** Gcd(k*a, k*b) == k * Gcd(a, b) for positive k. */
  lemma {:induction false} GcdScale(a: nat, b: nat, k: nat)
    requires k > 0
    decreases b
    ensures Gcd(k * a, k * b) == k * Gcd(a, b)
  {
    if b == 0 {
      assert k * b == 0;
    } else {
      ModScale(a, b, k);
      GcdScale(b, a % b, k);
    }
  }

  /** When `a` is positive and no t in [2, a] divides both `a` and `b`, the gcd is 1. */
  lemma NoSmallCommonDivisorGcdOne(a: nat, b: nat)
    requires a > 0
    requires forall t :: 2 <= t <= a ==> !IsCommonDivisor(t, a, b)
    ensures Gcd(a, b) == 1
  {
    GcdDivides(a, b);
    var g := Gcd(a, b);
    DivisorBound(g, a);
    assert !IsCommonDivisor(g, a, b) || g < 2;
  }

  /** Absolute value commutes with multiplication by a positive factor. */
  lemma AbsScale(x: int, g: int)
    requires g > 0
    ensures Abs(x * g) == g * Abs(x)
  {
    if x < 0 {
      assert x * g == -((-x) * g);
    }
  }

  /** If (fn, fd) is (rn, rd) scaled by g, possibly negated, the two pairs cross-multiply equal. */
  lemma CrossOfScaled(rn: int, rd: int, g: int, fn: int, fd: int)
    requires (fn == rn * g && fd == rd * g) || (fn == -(rn * g) && fd == -(rd * g))
    ensures rn * fd == fn * rd
  {
    if fn == rn * g && fd == rd * g {
      calc {
        rn * fd;
        rn * (rd * g);
        (rn * g) * rd;
      }
    } else {
      calc {
        rn * fd;
        -(rn * (rd * g));
        -(rn * g) * rd;
      }
    }
  }

  /** Multiplication by a positive number can be cancelled. */
  lemma CancelPositive(x: int, y: int, d: int)
    requires d > 0 && x * d == y * d
    ensures x == y
  {
    assert (x - y) * d == 0;
    MultipleBound(x - y, d);
  }

  /**
   * Two coprime pairs (x, p) and (y, q) with positive second parts that
   * cross-multiply equal are the same pair.
   */
  lemma CoprimeCrossEqual(x: nat, p: nat, y: nat, q: nat)
    requires p > 0 && q > 0 && Gcd(x, p) == 1 && Gcd(y, q) == 1
    requires x * q == y * p
    ensures x == y && p == q
  {
    GcdScale(x, p, q);
    GcdScale(y, q, p);
    assert q * x == p * y && q * p == p * q;
    assert q == p;
    CancelPositive(x, y, q);
  }

  /** An exact division multiplies back. */
  lemma DivExact(x: int, t: int)
    requires t > 0 && x % t == 0
    ensures x == (x / t) * t
  {
  }

  /** A factor that leaves a positive number unchanged is 1. */
  lemma UnitFactor(g: int, x: int)
    requires g > 0 && g * x == g
    ensures x == 1
  {
    assert (x - 1) * g == 0;
    MultipleBound(x - 1, g);
  }

  /** The sign of a product with a positive factor is the sign of the other factor. */
  lemma ProductSign(x: int, g: int)
    requires g > 0
    ensures (x * g == 0) == (x == 0) && (x * g >= 0) == (x >= 0)
  {
    MultipleBound(x, g);
  }

  /** Reassociation of a triple product, kept apart so that callers stay linear. */
  lemma Regroup(q: int, i: int, c: int)
    ensures (q * i) * c == q * (c * i)
  {
  }

  /** Multiplying a positive number by at least 2 makes it larger. */
  lemma ScaleGrows(a: int, i: int)
    requires a >= 1 && i >= 2
    ensures i * a > a
  {
    MultipleBound(i - 1, a);
    assert i * a == (i - 1) * a + a;
  }
}
