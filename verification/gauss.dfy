/**
 * Gauss-Jordan elimination with caller-chosen pivots
 * (src/main/java/gauss/Main.java, method `gauss`).
 *
 * For each row i in order, with base = bases[i] - 1, the pivot is the
 * fraction at (i, base): row i is divided through by it and reduced (or left
 * alone when the pivot's numerator is 0), then for every other row k the
 * multiple matrix[k][base] of row i is subtracted from row k, each result
 * reduced.
 *
 * The functions below describe the field values the program computes,
 * including the one aliasing effect in it: the `factor` of row k is the very
 * object stored at (k, base), and when column base is processed `difference`
 * rescales that object to a common denominator, so the later columns of row k
 * are multiplied by the rescaled fields (same value, other fields).
 */
module GaussSpec {
  import opened Divisibility
  import opened Fractions
  import opened FractionUtils

  /** Field values of a matrix of fractions, row by row. */
  type Matrix = seq<seq<Frac>>

  predicate Rectangular(M: Matrix, cols: nat)
  {
    forall p :: 0 <= p < |M| ==> |M[p]| == cols
  }

  /**
   * What the program's input checks guarantee before elimination: at least
   * one row, a rectangular matrix, one basis index per row and each index at
   * most the column count; an index is also taken to be at least 1, which the
   * program itself never checks.
   */
  predicate ValidInput(M: Matrix, bases: seq<int>)
  {
    |M| >= 1 && Rectangular(M, |M[0]|) && |bases| == |M| &&
    forall i :: 0 <= i < |bases| ==> 1 <= bases[i] <= |M[0]|
  }

  predicate NonZeroDenominators(M: Matrix)
  {
    forall p, q :: 0 <= p < |M| && 0 <= q < |M[p]| ==> M[p][q].den != 0
  }

  /**
   * The normalisation of a row by its pivot: every entry divided by the pivot
   * as it was before the loop, then reduced; nothing happens when the pivot's
   * numerator is 0.
   */
  function Normalized(row: seq<Frac>, base: nat): (r: seq<Frac>)
    requires base < |row|
    ensures |r| == |row|
    ensures row[base].num == 0 ==> r == row
  {
    var pivot := row[base];
    if pivot.num != 0 then
      seq(|row|, j requires 0 <= j < |row| => Reduced(Quotient(row[j], pivot)))
    else
      row
  }

  /**
   * The fields of row k's `factor` object when column j is processed: the
   * entry at column base as read, until column base itself, where
   * `difference` aligns that object with the product it is subtracting.
   */
  function FactorAt(rowK: seq<Frac>, rowI: seq<Frac>, base: nat, j: nat): Frac
    requires base < |rowK| == |rowI|
  {
    var f := rowK[base];
    if j <= base then f else Align(f, Product(f, rowI[base])).0
  }

  /** Row k after subtracting `factor` times the pivot row i from it, entry by entry, each reduced. */
  function Eliminated(rowK: seq<Frac>, rowI: seq<Frac>, base: nat): (r: seq<Frac>)
    requires base < |rowK| == |rowI|
    ensures |r| == |rowK|
  {
    seq(|rowK|, j requires 0 <= j < |rowK| =>
      Reduced(Diff(rowK[j], Product(FactorAt(rowK, rowI, base, j), rowI[j]))))
  }

  /** The elimination loop of a pass: every row k != i has row i eliminated from it; row i stays. */
  function Cleared(M: Matrix, i: nat, base: nat): (r: Matrix)
    requires i < |M| && Rectangular(M, |M[i]|) && base < |M[i]|
    ensures |r| == |M| && Rectangular(r, |M[i]|)
  {
    seq(|M|, k requires 0 <= k < |M| => if k == i then M[i] else Eliminated(M[k], M[i], base))
  }

  /** One pass of the outer loop, for row i with basis column base: normalisation, then elimination. */
  function Step(M: Matrix, i: nat, base: nat): (r: Matrix)
    requires i < |M| && Rectangular(M, |M[i]|) && base < |M[i]|
    ensures |r| == |M| && Rectangular(r, |M[i]|)
  {
    Cleared(M[i := Normalized(M[i], base)], i, base)
  }

  /** The matrix after the first n passes of the outer loop. */
  function GaussUpTo(M: Matrix, bases: seq<int>, n: nat): (r: Matrix)
    requires ValidInput(M, bases) && n <= |M|
    ensures |r| == |M| && Rectangular(r, |M[0]|)
    decreases n
  {
    if n == 0 then M
    else
      var N := GaussUpTo(M, bases, n - 1);
      Step(N, n - 1, bases[n - 1] - 1)
  }

  /** A matrix one step past the first n passes is the matrix after n + 1 passes. */
  lemma GaussUpToNext(M: Matrix, bases: seq<int>, n: nat, N: Matrix, N': Matrix)
    requires ValidInput(M, bases) && n < |M|
    requires N == GaussUpTo(M, bases, n) && bases[n] - 1 < |N[n]|
    requires N' == Step(N, n, bases[n] - 1)
    ensures N' == GaussUpTo(M, bases, n + 1)
  {
  }

  /** The matrix `gauss` leaves behind. */
  function GaussResult(M: Matrix, bases: seq<int>): Matrix
    requires ValidInput(M, bases)
  {
    GaussUpTo(M, bases, |M|)
  }

  // ---------------------------------------------------------------------
  // Properties of one pass

  /**
   * With a non-zero pivot, every entry of the pivot row becomes the old entry
   * divided by the pivot, in reduced form, and the pivot itself becomes 1/1.
   */
  lemma NormalizedEntries(row: seq<Frac>, base: nat)
    requires base < |row| && row[base].num != 0
    requires forall j :: 0 <= j < |row| ==> row[j].den != 0
    ensures var r := Normalized(row, base);
            (forall j :: 0 <= j < |row| ==>
               r[j].den != 0 && IsReduced(r[j]) && Val(r[j]) == Val(row[j]) / Val(row[base])) &&
            r[base] == Frac(1, 1)
  {
    var r := Normalized(row, base);
    var p := row[base];
    forall j | 0 <= j < |row|
      ensures r[j].den != 0 && IsReduced(r[j]) && Val(r[j]) == Val(row[j]) / Val(p)
    {
      QuotientEntry(row[j], p, r[j]);
    }
    PivotBecomesOne(p, r[base]);
  }

  /** The pivot divided by itself and reduced is 1/1. */
  lemma PivotBecomesOne(p: Frac, e: Frac)
    requires p.den != 0 && p.num != 0
    requires e == Reduced(Quotient(p, p))
    ensures e == Frac(1, 1)
  {
    QuotientEntry(p, p, e);
    UnitQuotient(e, p);
  }

  /** A reduced fraction worth p / p, for a non-zero p, is 1/1. */
  lemma UnitQuotient(e: Frac, p: Frac)
    requires e.den != 0 && p.den != 0 && IsReduced(e) && Val(p) != 0.0 && Val(e) == Val(p) / Val(p)
    ensures e == Frac(1, 1)
  {
    ReducedValueOne(e);
  }

  /** An entry divided by the pivot and reduced holds the rational quotient. */
  lemma QuotientEntry(x: Frac, p: Frac, e: Frac)
    requires x.den != 0 && p.den != 0 && p.num != 0
    requires e == Reduced(Quotient(x, p))
    ensures e.den != 0 && IsReduced(e) && Val(p) != 0.0 && Val(e) == Val(x) / Val(p)
  {
    QuotientValue(x, p);
    ReducedPreservesValue(Quotient(x, p));
    ReducedIsReduced(Quotient(x, p));
  }

  /** The factor keeps the value of the entry at (k, base) even after it is rescaled. */
  lemma FactorValue(rowK: seq<Frac>, rowI: seq<Frac>, base: nat, j: nat)
    requires base < |rowK| == |rowI| && rowK[base].den != 0 && rowI[base].den != 0
    ensures FactorAt(rowK, rowI, base, j).den != 0
    ensures Val(FactorAt(rowK, rowI, base, j)) == Val(rowK[base])
  {
    ProductValue(rowK[base], rowI[base]);
  }

  /**
   * For k != i, each new entry of row k is, in value, the old entry minus the
   * old (k, base) entry times the entry of row i, in reduced form; when row
   * i's pivot is 1/1 the entry at column base becomes 0.
   */
  lemma EliminatedEntries(rowK: seq<Frac>, rowI: seq<Frac>, base: nat)
    requires base < |rowK| == |rowI|
    requires forall j :: 0 <= j < |rowK| ==> rowK[j].den != 0 && rowI[j].den != 0
    ensures var r := Eliminated(rowK, rowI, base);
            (forall j :: 0 <= j < |rowK| ==>
               r[j].den != 0 && IsReduced(r[j]) && IsDifference(r[j], rowK[j], rowK[base], rowI[j])) &&
            (rowI[base] == Frac(1, 1) ==> r[base].num == 0)
  {
    var r := Eliminated(rowK, rowI, base);
    forall j | 0 <= j < |rowK|
      ensures r[j].den != 0 && IsReduced(r[j]) && IsDifference(r[j], rowK[j], rowK[base], rowI[j])
    {
      EliminatedEntry(rowK, rowI, base, j);
    }
    if rowI[base] == Frac(1, 1) {
      assert Val(rowI[base]) == 1.0;
      ValZero(r[base]);
    }
  }

  /** One entry of an eliminated row: its value, and that it is reduced. */
  lemma EliminatedEntry(rowK: seq<Frac>, rowI: seq<Frac>, base: nat, j: nat)
    requires base < |rowK| == |rowI| && j < |rowK|
    requires rowK[j].den != 0 && rowK[base].den != 0 && rowI[j].den != 0 && rowI[base].den != 0
    ensures var e := Eliminated(rowK, rowI, base)[j];
            e.den != 0 && IsReduced(e) && IsDifference(e, rowK[j], rowK[base], rowI[j])
  {
    var f := FactorAt(rowK, rowI, base, j);
    var e := Eliminated(rowK, rowI, base)[j];
    assert e == Reduced(Diff(rowK[j], Product(f, rowI[j])));
    FactorValue(rowK, rowI, base, j);
    SubtractedProduct(rowK[j], f, rowI[j], e);
    EqualFactor(e, rowK[j], f, rowK[base], rowI[j]);
  }

  /** e holds, as a rational, x - b * y. */
  predicate IsDifference(e: Frac, x: Frac, b: Frac, y: Frac)
    requires e.den != 0 && x.den != 0 && b.den != 0 && y.den != 0
  {
    Val(e) == Val(x) - Val(b) * Val(y)
  }

  /** Subtracting a multiple of a zero leaves the value alone. */
  lemma DifferenceByZero(e: Frac, x: Frac, b: Frac, y: Frac)
    requires e.den != 0 && x.den != 0 && b.den != 0 && y.den != 0
    requires IsDifference(e, x, b, y) && y.num == 0
    ensures Val(e) == Val(x)
  {
    ValZero(y);
  }

  /** x - f * y with f replaced by a factor b of the same value. */
  lemma EqualFactor(e: Frac, x: Frac, f: Frac, b: Frac, y: Frac)
    requires e.den != 0 && x.den != 0 && f.den != 0 && b.den != 0 && y.den != 0
    requires IsDifference(e, x, f, y) && Val(f) == Val(b)
    ensures IsDifference(e, x, b, y)
  {
  }

  /** x - f * y, computed as the elimination loop does, has the rational value of x - f * y. */
  lemma SubtractedProduct(x: Frac, f: Frac, y: Frac, e: Frac)
    requires x.den != 0 && f.den != 0 && y.den != 0
    requires e == Reduced(Diff(x, Product(f, y)))
    ensures e.den != 0 && IsReduced(e) && IsDifference(e, x, f, y)
  {
    var p := Product(f, y);
    var d := Diff(x, p);
    ProductValue(f, y);
    DiffValue(x, p);
    ReducedPreservesValue(d);
    ReducedIsReduced(d);
  }

  // ---------------------------------------------------------------------
  // The end state: the basis columns form an identity sub-matrix

  predicate DistinctBases(bases: seq<int>)
  {
    forall a, b :: 0 <= a < b < |bases| ==> bases[a] != bases[b]
  }

  /** The pivot of row n's pass, read when that pass begins. */
  function Pivot(M: Matrix, bases: seq<int>, n: nat): Frac
    requires ValidInput(M, bases) && n < |M|
  {
    GaussUpTo(M, bases, n)[n][bases[n] - 1]
  }

  /** Every row's pivot has a non-zero numerator. */
  predicate PivotsNonZero(M: Matrix, bases: seq<int>)
    requires ValidInput(M, bases)
  {
    forall n :: 0 <= n < |M| ==> Pivot(M, bases, n).num != 0
  }

  /** Column c is the i-th unit column: 1/1 in row i and a zero numerator in every other row. */
  predicate UnitColumn(N: Matrix, c: nat, i: nat)
    requires i < |N| && Rectangular(N, |N[0]|) && c < |N[0]|
  {
    N[i][c] == Frac(1, 1) &&
    forall k :: 0 <= k < |N| && k != i ==> N[k][c].num == 0
  }

  /**
   * After n passes: denominators are non-zero, and for each row i < n the
   * basis column of row i is the i-th unit column.
   */
  predicate IdentityUpTo(N: Matrix, bases: seq<int>, n: nat)
    requires ValidInput(N, bases) && n <= |N|
  {
    NonZeroDenominators(N) &&
    forall i :: 0 <= i < n ==> UnitColumn(N, bases[i] - 1, i)
  }

  /**
   * Row k fits the identity pattern of the first n + 1 basis columns: its
   * denominators are non-zero, it holds 1/1 in the basis column of its own
   * row (when k <= n) and a zero numerator in the other n basis columns.
   */
  predicate RowInPattern(row: seq<Frac>, bases: seq<int>, n: nat, k: nat)
    requires n < |bases| && forall i :: 0 <= i < |bases| ==> 1 <= bases[i] <= |row|
  {
    (forall q :: 0 <= q < |row| ==> row[q].den != 0) &&
    forall i :: 0 <= i <= n ==>
      (k == i ==> row[bases[i] - 1] == Frac(1, 1)) &&
      (k != i ==> row[bases[i] - 1].num == 0)
  }

  /**
   * The pivot row of a pass with a non-zero pivot: denominators stay
   * non-zero, its own basis column becomes 1/1 and the zeros it already held
   * in earlier basis columns stay zeros.
   */
  lemma PivotRowStep(N: Matrix, bases: seq<int>, n: nat)
    requires ValidInput(N, bases) && n < |N| && DistinctBases(bases)
    requires IdentityUpTo(N, bases, n)
    requires N[n][bases[n] - 1].num != 0
    ensures RowInPattern(Normalized(N[n], bases[n] - 1), bases, n, n)
  {
    var base := bases[n] - 1;
    var row: seq<Frac> := N[n];
    var r := Normalized(row, base);
    NormalizedEntries(row, base);
    forall i | 0 <= i < n
      ensures r[bases[i] - 1].num == 0
    {
      var c := bases[i] - 1;
      assert row[c].num == 0;
      ValZero(row[c]);
      ValZero(r[c]);
    }
  }

  /**
   * Any other row k of a pass with a non-zero pivot: denominators stay
   * non-zero, the pass's basis column becomes 0 and the earlier basis
   * columns keep their 1/1 or 0.
   */
  lemma OtherRowStep(N: Matrix, bases: seq<int>, n: nat, k: nat)
    requires ValidInput(N, bases) && n < |N| && DistinctBases(bases)
    requires IdentityUpTo(N, bases, n)
    requires N[n][bases[n] - 1].num != 0
    requires k < |N| && k != n
    ensures RowInPattern(Eliminated(N[k], Normalized(N[n], bases[n] - 1), bases[n] - 1), bases, n, k)
  {
    var base := bases[n] - 1;
    var rowK: seq<Frac> := N[k];
    var pivotRow: seq<Frac> := Normalized(N[n], base);
    var r := Eliminated(rowK, pivotRow, base);
    PivotRowStep(N, bases, n);
    EliminatedEntries(rowK, pivotRow, base);
    forall i | 0 <= i < n
      ensures k == i ==> r[bases[i] - 1] == Frac(1, 1)
      ensures k != i ==> r[bases[i] - 1].num == 0
    {
      var c := bases[i] - 1;
      assert c != base;
      assert pivotRow[c].num == 0;
      ZeroColumnKept(r[c], rowK[c], rowK[base], pivotRow[c]);
      if k == i {
        assert rowK[c] == Frac(1, 1);
      } else {
        assert rowK[c].num == 0;
      }
    }
  }

  /**
   * An entry of a column where the pivot row holds 0 keeps its value through
   * the elimination: a 1/1 stays 1/1 and a zero stays zero.
   */
  lemma ZeroColumnKept(e: Frac, x: Frac, b: Frac, y: Frac)
    requires e.den != 0 && x.den != 0 && b.den != 0 && y.den != 0
    requires IsReduced(e) && IsDifference(e, x, b, y) && y.num == 0
    ensures x == Frac(1, 1) ==> e == Frac(1, 1)
    ensures x.num == 0 ==> e.num == 0
  {
    DifferenceByZero(e, x, b, y);
    ValZero(x);
    ValZero(e);
    if x == Frac(1, 1) {
      ReducedValueOne(e);
    }
  }

  /** One pass with a non-zero pivot extends the identity pattern by the pass's own basis column. */
  lemma StepExtendsIdentity(N: Matrix, bases: seq<int>, n: nat)
    requires ValidInput(N, bases) && n < |N| && DistinctBases(bases)
    requires IdentityUpTo(N, bases, n)
    requires N[n][bases[n] - 1].num != 0
    ensures ValidInput(Step(N, n, bases[n] - 1), bases)
    ensures IdentityUpTo(Step(N, n, bases[n] - 1), bases, n + 1)
  {
    var base := bases[n] - 1;
    var pivotRow: seq<Frac> := Normalized(N[n], base);
    var R: Matrix := Step(N, n, base);
    assert R == Cleared(N[n := pivotRow], n, base);
    assert |R[0]| == |N[0]|;
    forall k | 0 <= k < |R|
      ensures RowInPattern(R[k], bases, n, k) == true
    {
      if k == n {
        PivotRowStep(N, bases, n);
      } else {
        assert R[k] == Eliminated(N[k], pivotRow, base);
        OtherRowStep(N, bases, n, k);
      }
    }
    RowsFormPattern(R, bases, n);
  }

  /** When every row fits the pattern of the first n + 1 basis columns, so does the matrix. */
  lemma RowsFormPattern(R: Matrix, bases: seq<int>, n: nat)
    requires ValidInput(R, bases) && n < |R|
    requires forall k :: 0 <= k < |R| ==> RowInPattern(R[k], bases, n, k)
    ensures IdentityUpTo(R, bases, n + 1)
  {
    forall i | 0 <= i < n + 1
      ensures UnitColumn(R, bases[i] - 1, i)
    {
      assert RowInPattern(R[i], bases, n, i);
    }
  }

  /** Every intermediate matrix satisfies the same input conditions. */
  lemma GaussUpToValid(M: Matrix, bases: seq<int>, n: nat)
    requires ValidInput(M, bases) && n <= |M|
    ensures ValidInput(GaussUpTo(M, bases, n), bases)
  {
    var N := GaussUpTo(M, bases, n);
    assert |N[0]| == |M[0]|;
  }

  /** After n passes the intermediate matrix shows the identity pattern in the first n basis columns. */
  predicate IdentityAfter(M: Matrix, bases: seq<int>, n: nat)
    requires ValidInput(M, bases) && n <= |M|
  {
    ValidInput(GaussUpTo(M, bases, n), bases) && IdentityUpTo(GaussUpTo(M, bases, n), bases, n)
  }

  /** Before any pass the matrix is the input, and the identity pattern is empty. */
  lemma NoPassesNoChange(M: Matrix, bases: seq<int>)
    requires ValidInput(M, bases) && NonZeroDenominators(M)
    ensures GaussUpTo(M, bases, 0) == M
    ensures IdentityAfter(M, bases, 0)
  {
  }

  /** The pass for row n - 1, seen through GaussUpTo. */
  lemma PassExtendsIdentity(M: Matrix, bases: seq<int>, n: nat)
    requires ValidInput(M, bases) && 0 < n <= |M| && DistinctBases(bases)
    requires IdentityAfter(M, bases, n - 1) == true
    requires Pivot(M, bases, n - 1).num != 0
    ensures IdentityAfter(M, bases, n)
  {
    var N := GaussUpTo(M, bases, n - 1);
    assert ValidInput(N, bases) && IdentityUpTo(N, bases, n - 1) && N[n - 1][bases[n - 1] - 1].num != 0;
    StepExtendsIdentity(N, bases, n - 1);
    assert GaussUpTo(M, bases, n) == Step(N, n - 1, bases[n - 1] - 1);
  }

  /**
   * By induction on the passes: the identity pattern holds for every row
   * processed so far. (`IdentityAfter(...) == true` is passed between the
   * induction steps as a single fact; written without `== true` the verifier
   * would unfold the predicate into its conjuncts at every step.)
   */
  lemma {:induction false} GaussIdentityUpTo(M: Matrix, bases: seq<int>, n: nat)
    requires ValidInput(M, bases) && n <= |M| && DistinctBases(bases)
    requires NonZeroDenominators(M) && PivotsNonZero(M, bases)
    ensures IdentityAfter(M, bases, n) == true
  {
    if n == 0 {
      NoPassesNoChange(M, bases);
    } else {
      GaussIdentityUpTo(M, bases, n - 1);
      PassExtendsIdentity(M, bases, n);
    }
  }

  /**
   * With distinct basis columns, non-zero denominators and a non-zero pivot
   * at every pass, `gauss` brings the minor of the basis columns to diagonal
   * form: 1/1 at (i, bases[i]-1) and a zero at (k, bases[i]-1) for k != i.
   */
  lemma BasisColumnsFormIdentity(M: Matrix, bases: seq<int>)
    requires ValidInput(M, bases) && DistinctBases(bases)
    requires NonZeroDenominators(M) && PivotsNonZero(M, bases)
    ensures var R := GaussResult(M, bases);
            forall i, k :: 0 <= i < |M| && 0 <= k < |M| ==>
              (k == i ==> R[k][bases[i] - 1] == Frac(1, 1)) &&
              (k != i ==> R[k][bases[i] - 1].num == 0 && R[k][bases[i] - 1].den != 0)
  {
    GaussIdentityUpTo(M, bases, |M|);
  }

  /**
   * A worked example: the system x + y = 3, x - y = 1 with basis columns 1
   * and 2. The result holds the solution x = 2, y = 1 in the last column; the
   * zero left below the first pivot keeps the denominator -2 it got from the
   * division by the second pivot, since reduction leaves a zero numerator
   * alone.
   */
  lemma TwoByTwoExample()
    ensures GaussResult([[Frac(1, 1), Frac(1, 1), Frac(3, 1)], [Frac(1, 1), Frac(-1, 1), Frac(1, 1)]], [1, 2]) ==
            [[Frac(1, 1), Frac(0, 1), Frac(2, 1)], [Frac(0, -2), Frac(1, 1), Frac(1, 1)]]
  {
    var M := [[Frac(1, 1), Frac(1, 1), Frac(3, 1)], [Frac(1, 1), Frac(-1, 1), Frac(1, 1)]];
    var N := [[Frac(1, 1), Frac(1, 1), Frac(3, 1)], [Frac(0, 1), Frac(-2, 1), Frac(-2, 1)]];
    ExampleFirstPass();
    ExampleSecondPass();
    assert GaussUpTo(M, [1, 2], 1) == N;
  }

  /** The first pass of the example: the pivot is 1/1, so only the second row changes. */
  lemma ExampleFirstPass()
    ensures Step([[Frac(1, 1), Frac(1, 1), Frac(3, 1)], [Frac(1, 1), Frac(-1, 1), Frac(1, 1)]], 0, 0) ==
            [[Frac(1, 1), Frac(1, 1), Frac(3, 1)], [Frac(0, 1), Frac(-2, 1), Frac(-2, 1)]]
  {
    var row0 := [Frac(1, 1), Frac(1, 1), Frac(3, 1)];
    assert Gcd(1, 1) == 1 && Gcd(3, 1) == 1 && Gcd(2, 1) == 1;
    assert Normalized(row0, 0) == row0;
    assert Eliminated([Frac(1, 1), Frac(-1, 1), Frac(1, 1)], row0, 0) == [Frac(0, 1), Frac(-2, 1), Frac(-2, 1)];
  }

  /** The second pass of the example: the pivot is -2/1. */
  lemma ExampleSecondPass()
    ensures Step([[Frac(1, 1), Frac(1, 1), Frac(3, 1)], [Frac(0, 1), Frac(-2, 1), Frac(-2, 1)]], 1, 1) ==
            [[Frac(1, 1), Frac(0, 1), Frac(2, 1)], [Frac(0, -2), Frac(1, 1), Frac(1, 1)]]
  {
    ExampleSecondNormalized();
    ExampleSecondEliminated();
  }

  /** Dividing by -2/1: the zero keeps the denominator -2, and -2/-2 reduces to 1/1. */
  lemma ExampleSecondNormalized()
    ensures Normalized([Frac(0, 1), Frac(-2, 1), Frac(-2, 1)], 1) == [Frac(0, -2), Frac(1, 1), Frac(1, 1)]
  {
    assert Gcd(2, 2) == 2;
    assert Reduced(Frac(-2, -2)) == Frac(1, 1);
  }

  /** Eliminating the second row from the first: its first entry goes through -2/-2 back to 1/1. */
  lemma ExampleSecondEliminated()
    ensures Eliminated([Frac(1, 1), Frac(1, 1), Frac(3, 1)], [Frac(0, -2), Frac(1, 1), Frac(1, 1)], 1) ==
            [Frac(1, 1), Frac(0, 1), Frac(2, 1)]
  {
    assert Gcd(2, 2) == 2 && Gcd(2, 1) == 1;
    assert Reduced(Frac(-2, -2)) == Frac(1, 1);
  }
}
