/**
 * The exact fraction of the elimination program: a mutable pair of a signed
 * numerator and a signed denominator (src/main/java/gauss/domain/Fraction.java).
 *
 * `Frac` is the value held in a Fraction object's two fields at one moment;
 * the class `Fraction` is the object itself, whose `Reduction` and `Multiple`
 * rewrite those fields in place. Integers are unbounded here.
 */
module Fractions {
  import opened Divisibility
  import opened Decimal

  /** Numerator and denominator as stored; a zero denominator is representable. */
  datatype Frac = Frac(num: int, den: int)

  /** The rational number a fraction with a non-zero denominator stands for. */
  function Val(f: Frac): real
    requires f.den != 0
  {
    f.num as real / f.den as real
  }

  /** Equality of the two fractions as rationals, by cross-multiplication. */
  predicate SameValue(a: Frac, b: Frac)
  {
    a.num * b.den == b.num * a.den
  }

  /** Cross-multiplication agrees with equality of the rational values. */
  lemma SameValueIsEqualVal(a: Frac, b: Frac)
    requires a.den != 0 && b.den != 0
    ensures SameValue(a, b) <==> Val(a) == Val(b)
  {
    var an, ad, bn, bd := a.num as real, a.den as real, b.num as real, b.den as real;
    assert Val(a) == an / ad && Val(b) == bn / bd;
    assert (a.num * b.den) as real == an * bd;
    assert (b.num * a.den) as real == bn * ad;
    if Val(a) == Val(b) {
      assert an * bd == (an / ad) * ad * bd;
      assert bn * ad == (bn / bd) * bd * ad;
    }
  }

  /**
   * The form `reduction` leaves a fraction in: a zero numerator (which it
   * never touches), or a non-negative denominator sharing no factor with the
   * numerator.
   */
  predicate IsReduced(f: Frac)
  {
    f.num == 0 || (f.den >= 0 && Gcd(Abs(f.num), f.den) == 1)
  }

  /**
   * The sign step of `reduction`: both signs flip exactly when the numerator
   * is non-zero and the denominator negative.
   */
  function SignNormalized(f: Frac): Frac
  {
    if (f.num < 0 && f.den < 0) || (f.num > 0 && f.den < 0) then Frac(-f.num, -f.den) else f
  }

  /**
   * Closed form of `Fraction.reduction`: a zero numerator leaves the fraction
   * as it is; otherwise the signs are normalised and both parts divided by
   * their greatest common divisor.
   */
  function Reduced(f: Frac): Frac
  {
    if f.num == 0 then f
    else
      var s := SignNormalized(f);
      var g := Gcd(Abs(s.num), Abs(s.den));
      Frac(s.num / g, s.den / g)
  }

  /** The parts of a non-zero-numerator fraction are its reduced parts times the gcd. */
  lemma ReducedFactors(f: Frac)
    requires f.num != 0
    ensures var s := SignNormalized(f);
            var g := Gcd(Abs(s.num), Abs(s.den));
            g > 0 && s.den >= 0 && s.num == Reduced(f).num * g && s.den == Reduced(f).den * g
  {
    var s := SignNormalized(f);
    assert s.num != 0 && s.den >= 0;
    var g := Gcd(Abs(s.num), Abs(s.den));
    GcdDivides(Abs(s.num), Abs(s.den));
    NegMod(s.num, g);
    DivExact(s.num, g);
    DivExact(s.den, g);
  }

  /**
   * `reduction` preserves the value: cross-multiplication holds between the
   * old and the new fields, and for a non-zero denominator the rational
   * value is the same and the denominator stays non-zero.
   */
  lemma ReducedPreservesValue(f: Frac)
    ensures Reduced(f).num * f.den == f.num * Reduced(f).den
    ensures f.den != 0 ==> Reduced(f).den != 0 && Val(Reduced(f)) == Val(f)
  {
    var r := Reduced(f);
    if f.num != 0 {
      ReducedFactors(f);
      var s := SignNormalized(f);
      var g := Gcd(Abs(s.num), Abs(s.den));
      CrossOfScaled(r.num, r.den, g, f.num, f.den);
    }
    if f.den != 0 {
      SameValueIsEqualVal(r, f);
    }
  }

  /** With a non-zero numerator and denominator, `reduction` makes the denominator positive. */
  lemma ReducedDenominatorPositive(f: Frac)
    requires f.num != 0 && f.den != 0
    ensures Reduced(f).den > 0
  {
    ReducedFactors(f);
  }

  /** With a non-zero numerator, `reduction` leaves numerator and denominator coprime. */
  lemma ReducedLowestTerms(f: Frac)
    requires f.num != 0
    ensures Reduced(f).num != 0 && Reduced(f).den >= 0
    ensures Gcd(Abs(Reduced(f).num), Reduced(f).den) == 1
  {
    ReducedFactors(f);
    var s := SignNormalized(f);
    var g := Gcd(Abs(s.num), Abs(s.den));
    var rn, rd := Reduced(f).num, Reduced(f).den;
    ProductSign(rn, g);
    ProductSign(rd, g);
    AbsScale(rn, g);
    AbsScale(rd, g);
    GcdScale(Abs(rn), rd, g);
    UnitFactor(g, Gcd(Abs(rn), rd));
  }

  /** Every result of `reduction` is in reduced form. */
  lemma ReducedIsReduced(f: Frac)
    ensures IsReduced(Reduced(f))
  {
    if f.num != 0 {
      ReducedLowestTerms(f);
    }
  }

  /** A fraction already in reduced form is a fixed point of `reduction`. */
  lemma ReducedFixesReduced(f: Frac)
    requires IsReduced(f)
    ensures Reduced(f) == f
  {
    if f.num != 0 {
      assert SignNormalized(f) == f;
      assert Gcd(Abs(f.num), Abs(f.den)) == 1;
    }
  }

  /** `reduction` is idempotent. */
  lemma ReducedIdempotent(f: Frac)
    ensures Reduced(Reduced(f)) == Reduced(f)
  {
    ReducedIsReduced(f);
    ReducedFixesReduced(Reduced(f));
  }

  /**
   * Reduced form is canonical: two fractions with non-zero numerators and
   * denominators and the same value reduce to the same fields.
   */
  lemma ReducedCanonical(a: Frac, b: Frac)
    requires a.num != 0 && a.den != 0 && b.num != 0 && b.den != 0
    requires SameValue(a, b)
    ensures Reduced(a) == Reduced(b)
  {
    var ra, rb := Reduced(a), Reduced(b);
    ReducedPreservesValue(a);
    ReducedPreservesValue(b);
    ReducedLowestTerms(a);
    ReducedLowestTerms(b);
    ReducedDenominatorPositive(a);
    ReducedDenominatorPositive(b);
    SameValueIsEqualVal(a, b);
    SameValueIsEqualVal(ra, rb);
    assert ra.num * rb.den == rb.num * ra.den;
    AbsScale(ra.num, rb.den);
    AbsScale(rb.num, ra.den);
    CoprimeCrossEqual(Abs(ra.num), ra.den, Abs(rb.num), rb.den);
    CancelPositive(ra.num, rb.num, ra.den);
  }

  /** A fraction with a non-zero denominator is worth zero exactly when its numerator is zero. */
  lemma ValZero(f: Frac)
    requires f.den != 0
    ensures Val(f) == 0.0 <==> f.num == 0
  {
    SameValueIsEqualVal(f, Frac(0, 1));
  }

  /** The only reduced fraction worth one is 1/1. */
  lemma ReducedValueOne(f: Frac)
    requires f.den != 0 && IsReduced(f) && Val(f) == 1.0
    ensures f == Frac(1, 1)
  {
    RatioOne(f.num as real, f.den as real);
    GcdSelf(f.den);
  }

  lemma RatioOne(n: real, d: real)
    requires d != 0.0 && n / d == 1.0
    ensures n == d
  {
  }

  /** `multiple(i)`: both parts scaled by `i`. */
  function Scaled(f: Frac, i: int): Frac
  {
    Frac(f.num * i, f.den * i)
  }

  /** Scaling by a non-zero factor keeps a fraction's value and its denominator non-zero. */
  lemma ScaledPreservesValue(f: Frac, i: int)
    requires f.den != 0 && i != 0
    ensures Scaled(f, i).den != 0 && Val(Scaled(f, i)) == Val(f)
  {
    SameValueIsEqualVal(Scaled(f, i), f);
  }

  /** `abs()`: the absolute value of the numerator over the unchanged denominator. */
  function AbsOf(f: Frac): Frac
  {
    Frac(Abs(f.num), f.den)
  }

  /**
   * `abs()` is the absolute value of the rational only for a positive
   * denominator; a negative denominator is not normalised, and then the value
   * is the negated absolute value.
   */
  lemma AbsOfValue(f: Frac)
    requires f.den != 0
    ensures f.den > 0 ==> Val(AbsOf(f)) >= 0.0 && (Val(AbsOf(f)) == Val(f) || Val(AbsOf(f)) == -Val(f))
    ensures f.den < 0 ==> Val(AbsOf(f)) <= 0.0 && (Val(AbsOf(f)) == Val(f) || Val(AbsOf(f)) == -Val(f))
  {
    var n, d := f.num as real, f.den as real;
    if f.num < 0 {
      assert Val(AbsOf(f)) == -n / d == -(n / d);
    }
  }

  /** `toString()`: "0", the bare numerator when the denominator is 1, else "num/den". */
  function Show(f: Frac): string
  {
    if f.num == 0 then "0"
    else if f.den == 1 then IntToString(f.num)
    else IntToString(f.num) + "/" + IntToString(f.den)
  }

  /** Index of the first '/' in `s`, or |s| when there is none. */
  function SlashIndex(s: string): (k: nat)
    ensures k <= |s|
    ensures forall t :: 0 <= t < k ==> s[t] != '/'
    ensures k < |s| ==> s[k] == '/'
  {
    if s == [] then 0 else if s[0] == '/' then 0 else 1 + SlashIndex(s[1..])
  }

  /** Reads the "num/den" or "num" form back into a fraction. */
  function ParseFraction(s: string): Frac
  {
    var k := SlashIndex(s);
    if k < |s| then Frac(ParseInt(s[..k]), ParseInt(s[k + 1..])) else Frac(ParseInt(s), 1)
  }

  /**
   * The rendering loses only the denominator of a zero: a non-zero fraction
   * reads back exactly, a zero reads back as 0/1.
   */
  lemma ShowRoundTrip(f: Frac)
    ensures ParseFraction(Show(f)) == if f.num == 0 then Frac(0, 1) else f
  {
    var s := Show(f);
    if f.num == 0 {
      assert SlashIndex(s) == 1;
      assert ParseNat(s[..0]) == 0;
      assert ParseFraction(s) == Frac(ParseNat(s), 1);
      assert s[..|s| - 1] == [];
    } else if f.den == 1 {
      assert SlashIndex(s) == |s|;
      IntRoundTrip(f.num);
    } else {
      var a, b := IntToString(f.num), IntToString(f.den);
      assert s == a + "/" + b;
      assert s[|a|] == '/';
      assert SlashIndex(s) == |a|;
      assert s[..|a|] == a && s[|a| + 1..] == b;
      IntRoundTrip(f.num);
      IntRoundTrip(f.den);
    }
  }

  /** A zero renders as "0" and reads back with the same value whatever its denominator. */
  lemma ShowPreservesValue(f: Frac)
    requires f.den != 0
    ensures ParseFraction(Show(f)).den != 0 && Val(ParseFraction(Show(f))) == Val(f)
  {
    ShowRoundTrip(f);
  }

  /** A mutable fraction, as the program's Fraction objects are. */
  class Fraction {
    var numerator: int
    var denominator: int

    constructor (numerator: int, denominator: int)
      ensures this.numerator == numerator && this.denominator == denominator
    {
      this.numerator := numerator;
      this.denominator := denominator;
    }

    /** The current field values. */
    function Value(): Frac
      reads this
    {
      Frac(numerator, denominator)
    }

    function GetNumerator(): int
      reads this
    {
      numerator
    }

    function GetDenominator(): int
      reads this
    {
      denominator
    }

    method SetNumerator(numerator: int)
      modifies this
      ensures this.numerator == numerator && denominator == old(denominator)
    {
      this.numerator := numerator;
    }

    method SetDenominator(denominator: int)
      modifies this
      ensures this.denominator == denominator && numerator == old(numerator)
    {
      this.denominator := denominator;
    }

    /**
     * Normalises the fraction in place: moves the sign to the numerator, then
     * divides out common factors by trial division, restarting the scan at 2
     * after every factor found.
     *
     * The divisibility tests and divisions below use a positive divisor that
     * divides exactly, where Java's truncating operators and Dafny's
     * Euclidean ones agree.
     */
    method Reduction()
      modifies this
      ensures Value() == Reduced(old(Value()))
      ensures old(numerator) == 0 ==> numerator == old(numerator) && denominator == old(denominator)
    {
      if (numerator < 0 && denominator < 0) || (numerator > 0 && denominator < 0) {
        numerator := numerator * -1;
        denominator := denominator * -1;
      }
      ghost var n0, d0 := numerator, denominator;
      assert Frac(n0, d0) == SignNormalized(old(Value()));
      ghost var c := 1;
      var i := 2;
      while i <= Divisibility.Abs(numerator)
        invariant c > 0 && n0 == numerator * c && d0 == denominator * c
        invariant (n0 == 0) == (numerator == 0)
        invariant n0 == 0 ==> c == 1
        invariant 2 <= i && (numerator != 0 ==> i <= Divisibility.Abs(numerator) + 1)
        invariant forall t :: 2 <= t < i ==> !IsCommonDivisor(t, numerator, denominator)
        decreases Divisibility.Abs(numerator), Divisibility.Abs(numerator) + 1 - i
      {
        if numerator % i == 0 && denominator % i == 0 {
          DivideOutFactor(numerator, denominator, i, c, n0, d0);
          numerator := numerator / i;
          denominator := denominator / i;
          c := c * i;
          i := 1;
        }
        i := i + 1;
      }
      if n0 != 0 {
        TrialDivisionEndsAtGcd(old(Value()), numerator, denominator, c);
      }
    }

    /** Multiplies numerator and denominator by `i`. */
    method Multiple(i: int)
      modifies this
      ensures Value() == Scaled(old(Value()), i)
    {
      numerator := numerator * i;
      denominator := denominator * i;
    }

    /** A new fraction holding |numerator| over the same denominator; this one is untouched. */
    method Abs() returns (r: Fraction)
      ensures fresh(r) && r.Value() == AbsOf(Value())
    {
      r := new Fraction(Divisibility.Abs(numerator), denominator);
    }

    /** The text form of the current value. */
    function ToString(): string
      reads this
    {
      Show(Value())
    }
  }

  /**
   * One hit of the trial-division scan: dividing the common factor `i` out of
   * (num, den) and into the accumulated factor `c` keeps (n0, d0) equal to the
   * new pair times the new factor, and shrinks the numerator.
   */
  lemma DivideOutFactor(num: int, den: int, i: int, c: int, n0: int, d0: int)
    requires i >= 2 && num != 0 && num % i == 0 && den % i == 0
    requires c > 0 && n0 == num * c && d0 == den * c
    ensures c * i > 0 && n0 == (num / i) * (c * i) && d0 == (den / i) * (c * i)
    ensures num / i != 0 && Abs(num / i) < Abs(num)
  {
    var q, e := num / i, den / i;
    assert num == q * i && den == e * i;
    Regroup(q, i, c);
    Regroup(e, i, c);
    MultipleBound(c, i);
    AbsScale(q, i);
    ScaleGrows(Abs(q), i);
  }

  /**
   * When the trial-division scan stops, the factor `c` it has divided out of
   * the sign-normalised fraction is the gcd, so the fields are the closed form.
   */
  lemma TrialDivisionEndsAtGcd(f: Frac, num: int, den: int, c: int)
    requires f.num != 0
    requires c > 0 && SignNormalized(f).num == num * c && SignNormalized(f).den == den * c
    requires forall t :: 2 <= t <= Abs(num) ==> !IsCommonDivisor(t, num, den)
    ensures Frac(num, den) == Reduced(f)
  {
    var s := SignNormalized(f);
    ReducedFactors(f);
    var g := Gcd(Abs(s.num), Abs(s.den));
    var r := Reduced(f);
    MultipleBound(den, c);
    assert num != 0 && den >= 0;
    forall t | 2 <= t <= Abs(num)
      ensures !IsCommonDivisor(t, Abs(num), den)
    {
      NegMod(num, t);
    }
    NoSmallCommonDivisorGcdOne(Abs(num), den);
    AbsScale(num, c);
    assert Abs(s.num) == c * Abs(num) && Abs(s.den) == c * den;
    GcdScale(Abs(num), den, c);
    assert g == c;
    CancelPositive(r.num, num, c);
    CancelPositive(r.den, den, c);
  }
}
