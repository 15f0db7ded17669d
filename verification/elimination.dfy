/**
 * The `gauss` routine of src/main/java/gauss/Main.java on the program's own
 * data: a rectangular matrix of Fraction objects that it overwrites cell by
 * cell. Each pass stores new objects in the matrix, and the subtraction
 * rescales the objects it is given, among them the `factor` object read from
 * the matrix; the methods below do the same, and their contracts tie the
 * values left in the matrix to the functions of module GaussSpec.
 *
 * The matrix is an `array2`: the program only ever builds rectangular
 * matrices (every row is checked to have the column count), and every cell
 * holds its own object (each one is created by a separate `new`), which is
 * what `DistinctCells` states.
 */
module Elimination {
  import opened Fractions
  import opened FractionUtils
  import opened GaussSpec

  /** The objects held in the matrix. */
  ghost function Cells(m: array2<Fraction>): set<Fraction>
    reads m
  {
    set p, q | 0 <= p < m.Length0 && 0 <= q < m.Length1 :: m[p, q]
  }

  /** The objects held in row k. */
  ghost function RowCells(m: array2<Fraction>, k: nat): set<Fraction>
    requires k < m.Length0
    reads m
  {
    set q | 0 <= q < m.Length1 :: m[k, q]
  }

  /** No object is stored in two cells. */
  ghost predicate DistinctCells(m: array2<Fraction>)
    reads m
  {
    forall p, q, p', q' ::
      0 <= p < m.Length0 && 0 <= q < m.Length1 &&
      0 <= p' < m.Length0 && 0 <= q' < m.Length1 && (p != p' || q != q') ==>
        m[p, q] != m[p', q']
  }

  /** The field values held in row p. */
  ghost function RowValues(m: array2<Fraction>, p: nat): (r: seq<Frac>)
    requires p < m.Length0
    reads m, Cells(m)
    ensures |r| == m.Length1
    ensures forall q :: 0 <= q < m.Length1 ==> r[q] == m[p, q].Value()
  {
    seq(m.Length1, q requires 0 <= q < m.Length1 reads m, Cells(m) => m[p, q].Value())
  }

  /** The field values held in the matrix, row by row. */
  ghost function Rows(m: array2<Fraction>): (r: Matrix)
    reads m, Cells(m)
    ensures |r| == m.Length0 && Rectangular(r, m.Length1)
    ensures forall p, q :: 0 <= p < m.Length0 && 0 <= q < m.Length1 ==> r[p][q] == m[p, q].Value()
  {
    seq(m.Length0, p requires 0 <= p < m.Length0 reads m, Cells(m) => RowValues(m, p))
  }

  /** Two matrices with the same shape and the same entries are equal. */
  lemma SameMatrix(A: Matrix, B: Matrix, cols: nat)
    requires |A| == |B| && Rectangular(A, cols) && Rectangular(B, cols)
    requires forall p, q :: 0 <= p < |A| && 0 <= q < cols ==> A[p][q] == B[p][q]
    ensures A == B
  {
    forall p | 0 <= p < |A|
      ensures A[p] == B[p]
    {
    }
  }

  /**
   * The normalisation loop of one pass: with the pivot read once before the
   * loop, every cell of row i is replaced by a new object holding the old
   * entry divided by the pivot, reduced, unless the pivot's numerator is 0.
   */
  method NormalizeRow(m: array2<Fraction>, i: nat, base: nat)
    requires i < m.Length0 && base < m.Length1 && DistinctCells(m)
    modifies m
    ensures DistinctCells(m)
    ensures forall p, q :: 0 <= p < m.Length0 && 0 <= q < m.Length1 ==>
              (p != i ==> m[p, q] == old(m[p, q])) && (p == i ==> m[p, q] == old(m[p, q]) || fresh(m[p, q]))
    ensures Rows(m) == old(Rows(m))[i := Normalized(old(Rows(m))[i], base)]
  {
    ghost var R := Rows(m);
    ghost var row := R[i];
    ghost var target := Normalized(row, base);
    var cols := m.Length1;
    var pivot := m[i, base];
    var j := 0;
    while j < cols
      invariant 0 <= j <= cols
      invariant DistinctCells(m)
      invariant pivot.Value() == row[base]
      invariant forall p, q :: 0 <= p < m.Length0 && 0 <= q < cols ==>
                  (p != i || q >= j ==> m[p, q] == old(m[p, q])) &&
                  (p == i && q < j ==> m[p, q] == old(m[p, q]) || fresh(m[p, q]))
      invariant forall p, q :: 0 <= p < m.Length0 && 0 <= q < cols ==>
                  m[p, q].Value() == if p == i && q < j then target[q] else R[p][q]
    {
      if pivot.GetNumerator() != 0 {
        var r := Division(m[i, j], pivot);
        r.Reduction();
        m[i, j] := r;
      }
      j := j + 1;
    }
    SameMatrix(Rows(m), R[i := target], cols);
  }

  /**
   * One cell of the elimination loop: a new object holding a - factor * b,
   * reduced. The subtraction aligns `a` with the product, so `a` (which may be
   * `factor` itself) is left rescaled; `b` and, when it is not `a`, `factor`
   * are only read.
   */
  method SubtractMultiple(a: Fraction, factor: Fraction, b: Fraction) returns (d: Fraction)
    requires a != b && factor != b
    modifies a
    ensures fresh(d)
    ensures d.Value() == Reduced(Diff(old(a.Value()), Product(old(factor.Value()), b.Value())))
    ensures a.Value() == Align(old(a.Value()), Product(old(factor.Value()), b.Value())).0
  {
    var product := Multiplication(factor, b);
    d := Difference(a, product);
    d.Reduction();
  }

  /**
   * The elimination loop for one row k != i: `factor` is the object stored at
   * (k, base) before the loop, and every cell of row k is replaced by a new
   * object holding the entry minus factor times the entry of row i, reduced.
   * The subtraction rescales the object at (k, j) it is given; at j == base
   * that object is `factor` itself.
   */
  method EliminateRow(m: array2<Fraction>, i: nat, k: nat, base: nat)
    requires i < m.Length0 && k < m.Length0 && i != k && base < m.Length1 && DistinctCells(m)
    modifies m, RowCells(m, k)
    ensures DistinctCells(m)
    ensures forall p, q :: 0 <= p < m.Length0 && 0 <= q < m.Length1 ==>
              (p != k ==> m[p, q] == old(m[p, q])) && (p == k ==> fresh(m[p, q]))
    ensures Rows(m) == old(Rows(m))[k := Eliminated(old(Rows(m))[k], old(Rows(m))[i], base)]
  {
    ghost var R := Rows(m);
    ghost var target := Eliminated(R[k], R[i], base);
    var cols := m.Length1;
    var factor := m[k, base];
    var j := 0;
    while j < cols
      invariant 0 <= j <= cols
      invariant DistinctCells(m)
      invariant factor == old(m[k, base])
      invariant factor.Value() == FactorAt(R[k], R[i], base, j)
      invariant forall p, q :: 0 <= p < m.Length0 && 0 <= q < cols && p != k ==> m[p, q] == old(m[p, q])
      invariant forall q :: 0 <= q < cols ==> m[i, q].Value() == R[i][q]
      invariant forall q :: 0 <= q < cols ==>
                  if q < j then fresh(m[k, q]) && m[k, q].Value() == target[q]
                  else m[k, q] == old(m[k, q]) && (q != base ==> m[k, q].Value() == R[k][q])
    {
      assert m[k, j] in old(RowCells(m, k));
      var d := SubtractMultiple(m[k, j], factor, m[i, j]);
      m[k, j] := d;
      j := j + 1;
    }
    forall p, q | 0 <= p < m.Length0 && 0 <= q < cols && p != k
      ensures m[p, q].Value() == R[p][q]
    {
      assert m[p, q] !in old(RowCells(m, k));
    }
    SameMatrix(Rows(m), R[k := target], cols);
  }

  /** The elimination loop of one pass: row i is eliminated from every other row, in row order. */
  method EliminateOthers(m: array2<Fraction>, i: nat, base: nat)
    requires i < m.Length0 && base < m.Length1 && DistinctCells(m)
    modifies m, Cells(m)
    ensures DistinctCells(m)
    ensures forall p, q :: 0 <= p < m.Length0 && 0 <= q < m.Length1 ==>
              (p == i ==> m[p, q] == old(m[p, q])) && (p != i ==> fresh(m[p, q]))
    ensures Rows(m) == Cleared(old(Rows(m)), i, base)
  {
    ghost var R := Rows(m);
    ghost var target := Cleared(R, i, base);
    var rows := m.Length0;
    var k := 0;
    while k < rows
      invariant 0 <= k <= rows
      invariant DistinctCells(m)
      invariant forall p, q :: 0 <= p < m.Length0 && 0 <= q < m.Length1 ==>
                  (p == i || p >= k ==> m[p, q] == old(m[p, q])) && (p != i && p < k ==> fresh(m[p, q]))
      invariant forall p, q :: 0 <= p < m.Length0 && 0 <= q < m.Length1 ==>
                  m[p, q].Value() == if p < k then target[p][q] else R[p][q]
    {
      if k != i {
        assert RowCells(m, k) <= old(Cells(m));
        EliminateRow(m, i, k, base);
      }
      k := k + 1;
    }
    SameMatrix(Rows(m), target, m.Length1);
  }

  /**
   * One pass of the outer loop of `gauss`, for row i: the normalisation loop
   * and then the elimination loop, with the basis column baseIndex.
   */
  method Pass(m: array2<Fraction>, i: nat, baseIndex: nat)
    requires i < m.Length0 && baseIndex < m.Length1 && DistinctCells(m)
    modifies m, Cells(m)
    ensures DistinctCells(m)
    ensures forall c :: c in Cells(m) ==> c in old(Cells(m)) || fresh(c)
    ensures Rows(m) == Step(old(Rows(m)), i, baseIndex)
  {
    NormalizeRow(m, i, baseIndex);
    assert forall c :: c in Cells(m) ==> c in old(Cells(m)) || fresh(c);
    EliminateOthers(m, i, baseIndex);
  }

  /** The matrix holds distinct objects with the values of the first i passes. */
  ghost predicate Progress(m: array2<Fraction>, M: Matrix, bases: seq<int>, i: nat)
    requires ValidInput(M, bases) && i <= |M|
    reads m, Cells(m)
  {
    DistinctCells(m) && Rows(m) == GaussUpTo(M, bases, i)
  }

  /**
   * `gauss`: for each row i in order, with the basis column bases[i] - 1, the
   * normalisation loop and then the elimination loop. The values left in
   * the matrix are those of `GaussResult`.
   */
  method Gauss(m: array2<Fraction>, bases: seq<int>)
    requires m.Length0 >= 1 && |bases| == m.Length0
    requires forall i :: 0 <= i < |bases| ==> 1 <= bases[i] <= m.Length1
    requires DistinctCells(m)
    modifies m, Cells(m)
    ensures DistinctCells(m)
    ensures ValidInput(old(Rows(m)), bases) && Rows(m) == GaussResult(old(Rows(m)), bases)
  {
    ghost var M := Rows(m);
    assert ValidInput(M, bases) && |M| == m.Length0 && |M[0]| == m.Length1;
    var rows := m.Length0;
    var i := 0;
    while i < rows
      invariant 0 <= i <= rows
      invariant forall c :: c in Cells(m) ==> c in old(Cells(m)) || fresh(c)
      invariant Progress(m, M, bases, i)
    {
      OuterPass(m, bases, i, M);
      i := i + 1;
    }
  }

  /**
   * The body of the outer loop of `gauss`: pass i, after which the matrix
   * holds the values of the first i + 1 passes.
   */
  method OuterPass(m: array2<Fraction>, bases: seq<int>, i: nat, ghost M: Matrix)
    requires ValidInput(M, bases) && i < |M| && |M| == m.Length0 && |M[0]| == m.Length1
    requires Progress(m, M, bases, i)
    modifies m, Cells(m)
    ensures forall c :: c in Cells(m) ==> c in old(Cells(m)) || fresh(c)
    ensures Progress(m, M, bases, i + 1)
  {
    ghost var N := Rows(m);
    Pass(m, i, bases[i] - 1);
    GaussUpToNext(M, bases, i, N, Rows(m));
  }
}
