/**
 * Arithmetic on fractions (src/main/java/gauss/utils/FractionUtils.java).
 *
 * Addition and subtraction first bring both operands to a common
 * denominator by rescaling the operand objects themselves, so they change
 * their arguments' fields (not their values); multiplication and division
 * only read their arguments. No result is reduced.
 *
 * The functions give the field values each operation produces; the methods
 * are the operations on Fraction objects, with their side effects.
 */
module FractionUtils {
  import opened Divisibility
  import opened Fractions

  /**
   * `toCommonDenominator` on field values: when the denominators differ, the
   * first operand is scaled by the second's denominator and the second by the
   * first's original denominator; equal denominators leave both alone.
   */
  function Align(a: Frac, b: Frac): (r: (Frac, Frac))
    ensures r.0.den == r.1.den
    ensures a.den == b.den ==> r == (a, b)
    ensures a.den != 0 && b.den != 0 ==>
              r.0.den != 0 && Val(r.0) == Val(a) && Val(r.1) == Val(b)
  {
    if a.den != b.den then
      AlignedValues(a, b);
      (Scaled(a, b.den), Scaled(b, a.den))
    else
      (a, b)
  }

  lemma AlignedValues(a: Frac, b: Frac)
    ensures a.den != 0 && b.den != 0 ==>
              Scaled(a, b.den).den != 0 && Val(Scaled(a, b.den)) == Val(a) &&
              Val(Scaled(b, a.den)) == Val(b)
  {
    if a.den != 0 && b.den != 0 {
      ScaledPreservesValue(a, b.den);
      ScaledPreservesValue(b, a.den);
    }
  }

  /** `amount`: the aligned numerators added over the common denominator. */
  function Sum(a: Frac, b: Frac): Frac
  {
    var (x, y) := Align(a, b);
    Frac(x.num + y.num, x.den)
  }

  /** `difference`: the aligned numerators subtracted over the common denominator. */
  function Diff(a: Frac, b: Frac): Frac
  {
    var (x, y) := Align(a, b);
    Frac(x.num - y.num, x.den)
  }

  /** `multiplication`: numerators and denominators multiplied, nothing else. */
  function Product(a: Frac, b: Frac): Frac
  {
    Frac(a.num * b.num, a.den * b.den)
  }

  /**
   * `division`: multiplication by the reciprocal; a divisor with a zero
   * numerator gives a zero denominator rather than an error.
   */
  function Quotient(a: Frac, b: Frac): (r: Frac)
    ensures b.num == 0 ==> r.den == 0
  {
    Frac(a.num * b.den, a.den * b.num)
  }

  /** Two fractions over the same non-zero denominator add and subtract through their numerators. */
  lemma CommonDenominatorArithmetic(x: Frac, y: Frac)
    requires x.den == y.den && x.den != 0
    ensures Val(Frac(x.num + y.num, x.den)) == Val(x) + Val(y)
    ensures Val(Frac(x.num - y.num, x.den)) == Val(x) - Val(y)
  {
    var d := x.den as real;
    assert (x.num + y.num) as real / d == x.num as real / d + y.num as real / d;
    assert (x.num - y.num) as real / d == x.num as real / d - y.num as real / d;
  }

  /** `amount` is rational addition. */
  lemma SumValue(a: Frac, b: Frac)
    requires a.den != 0 && b.den != 0
    ensures Sum(a, b).den != 0 && Val(Sum(a, b)) == Val(a) + Val(b)
  {
    var (x, y) := Align(a, b);
    CommonDenominatorArithmetic(x, y);
  }

  /** `difference` is rational subtraction. */
  lemma DiffValue(a: Frac, b: Frac)
    requires a.den != 0 && b.den != 0
    ensures Diff(a, b).den != 0 && Val(Diff(a, b)) == Val(a) - Val(b)
  {
    var (x, y) := Align(a, b);
    CommonDenominatorArithmetic(x, y);
  }

  /**
   * Subtracting again what was added gives back the value added to: after
   * `amount(a, b)` the object b holds its aligned fields, and
   * `difference(amount(a, b), b)` has the value of the original a.
   */
  lemma SumThenDiff(a: Frac, b: Frac)
    requires a.den != 0 && b.den != 0
    ensures var b' := Align(a, b).1;
            b'.den != 0 && Diff(Sum(a, b), b').den != 0 && Val(Diff(Sum(a, b), b')) == Val(a)
  {
    var b' := Align(a, b).1;
    SumValue(a, b);
    assert b'.den != 0;
    DiffValue(Sum(a, b), b');
  }

  /** `multiplication` is rational multiplication. */
  lemma ProductValue(a: Frac, b: Frac)
    requires a.den != 0 && b.den != 0
    ensures Product(a, b).den != 0 && Val(Product(a, b)) == Val(a) * Val(b)
  {
    var an, ad, bn, bd := a.num as real, a.den as real, b.num as real, b.den as real;
    assert (a.num * b.num) as real == an * bn;
    assert (a.den * b.den) as real == ad * bd;
    RealProduct(an, ad, bn, bd);
  }

  lemma RealProduct(an: real, ad: real, bn: real, bd: real)
    requires ad != 0.0 && bd != 0.0
    ensures ad * bd != 0.0
    ensures (an * bn) / (ad * bd) == (an / ad) * (bn / bd)
  {
    var x, y := an / ad, bn / bd;
    assert an == x * ad && bn == y * bd;
    assert an * bn == (x * y) * (ad * bd);
  }

  /** `division` by a fraction with a non-zero numerator is rational division. */
  lemma QuotientValue(a: Frac, b: Frac)
    requires a.den != 0 && b.den != 0 && b.num != 0
    ensures Quotient(a, b).den != 0 && Val(b) != 0.0 && Val(Quotient(a, b)) == Val(a) / Val(b)
  {
    var an, ad, bn, bd := a.num as real, a.den as real, b.num as real, b.den as real;
    assert (a.num * b.den) as real == an * bd;
    assert (a.den * b.num) as real == ad * bn;
    RealQuotient(an, ad, bn, bd);
  }

  lemma RealQuotient(an: real, ad: real, bn: real, bd: real)
    requires ad != 0.0 && bd != 0.0 && bn != 0.0
    ensures bn / bd != 0.0
    ensures (an * bd) / (ad * bn) == (an / ad) / (bn / bd)
  {
    var x, y := an / ad, bn / bd;
    assert an == x * ad && bn == y * bd;
    assert an * bd == x * (ad * bd) && ad * bn == y * (ad * bd);
  }

  /** Multiplying and then dividing by the same non-zero value gives the original value back. */
  lemma ProductThenQuotient(a: Frac, b: Frac)
    requires a.den != 0 && b.den != 0 && b.num != 0
    ensures Quotient(Product(a, b), b).den != 0 && Val(Quotient(Product(a, b), b)) == Val(a)
  {
    ProductValue(a, b);
    QuotientValue(Product(a, b), b);
  }

  /** The four operations return raw fields: 1/2 + 1/2 is 2/2 and 1/2 - 1/4 is 2/8, neither reduced. */
  lemma ResultsAreNotReduced()
    ensures Sum(Frac(1, 2), Frac(1, 2)) == Frac(2, 2)
    ensures Diff(Frac(1, 2), Frac(1, 4)) == Frac(2, 8)
    ensures Product(Frac(1, 2), Frac(2, 1)) == Frac(2, 2)
    ensures Quotient(Frac(1, 2), Frac(1, 2)) == Frac(2, 2)
    ensures !IsReduced(Frac(2, 2)) && !IsReduced(Frac(2, 8))
  {
    assert Gcd(2, 2) == 2;
    assert Gcd(2, 8) == 2;
  }

  /** Aligns the two objects to a common denominator, rescaling them in place. */
  method ToCommonDenominator(a: Fraction, b: Fraction)
    modifies a, b
    ensures (a.Value(), b.Value()) == Align(old(a.Value()), old(b.Value()))
  {
    if a.GetDenominator() != b.GetDenominator() {
      var temp := a.GetDenominator();
      a.Multiple(b.GetDenominator());
      b.Multiple(temp);
    }
  }

  /** A new fraction holding a + b; both operands are left aligned. */
  method Amount(a: Fraction, b: Fraction) returns (r: Fraction)
    modifies a, b
    ensures fresh(r) && r.Value() == Sum(old(a.Value()), old(b.Value()))
    ensures (a.Value(), b.Value()) == Align(old(a.Value()), old(b.Value()))
  {
    ToCommonDenominator(a, b);
    r := new Fraction(a.GetNumerator() + b.GetNumerator(), a.GetDenominator());
  }

  /** A new fraction holding a - b; both operands are left aligned. */
  method Difference(a: Fraction, b: Fraction) returns (r: Fraction)
    modifies a, b
    ensures fresh(r) && r.Value() == Diff(old(a.Value()), old(b.Value()))
    ensures (a.Value(), b.Value()) == Align(old(a.Value()), old(b.Value()))
  {
    ToCommonDenominator(a, b);
    r := new Fraction(a.GetNumerator() - b.GetNumerator(), a.GetDenominator());
  }

  /** A new fraction holding a * b; the operands are only read. */
  method Multiplication(a: Fraction, b: Fraction) returns (r: Fraction)
    ensures fresh(r) && r.Value() == Product(a.Value(), b.Value())
  {
    r := new Fraction(a.GetNumerator() * b.GetNumerator(), a.GetDenominator() * b.GetDenominator());
  }

  /** A new fraction holding a / b; the operands are only read. */
  method Division(a: Fraction, b: Fraction) returns (r: Fraction)
    ensures fresh(r) && r.Value() == Quotient(a.Value(), b.Value())
  {
    r := new Fraction(a.GetNumerator() * b.GetDenominator(), a.GetDenominator() * b.GetNumerator());
  }
}
