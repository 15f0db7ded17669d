# The Gauss Method, modelled in Dafny

This project models the core of *The Gauss Method*, a small Java program. The program
brings a system of linear equations to diagonal form by Gauss-Jordan elimination over
exact fractions. The caller picks the basis column of every row.

The model has three parts.

- **Fractions** (`fractions.dfy`, module `Fractions`).
  - The datatype `Frac` holds the numerator and denominator fields of a `Fraction` as
    they are at one moment.
  - The class `Fraction` is the mutable object itself.
  - `Reduction` is the program's trial-division loop. It restarts the scan at 2 after
    every factor it finds. It is proved to leave the fields equal to the closed form
    `Reduced`: first the sign step, then division by the greatest common divisor.
  - Properties of `Reduced` are proved as lemmas: it keeps the value, gives lowest terms
    and a positive denominator, is idempotent, is canonical, and leaves a zero alone.
  - The module also covers `multiple`, `abs` and `toString`, along with a parser that
    proves what the rendering preserves.
  - Two helper modules support it. `divisibility.dfy` holds Euclid's gcd and
    divisibility lemmas; `decimal.dfy` holds the decimal rendering of integers and its
    parser.
- **Fraction arithmetic** (`fraction_utils.dfy`, module `FractionUtils`).
  - `toCommonDenominator` works in place. `amount`, `difference`, `multiplication` and
    `division` each return a new object.
  - They are modelled twice: as functions on field values, and as methods on objects
    that have the same side effects.
  - Lemmas state that the operations are rational addition, subtraction,
    multiplication and division, and that their results are not reduced.
- **Elimination** (`gauss.dfy`, module `GaussSpec`, and `elimination.dfy`, module
  `Elimination`).
  - `GaussSpec` describes, on matrices of field values, what each pass of `gauss`
    computes. This includes the one aliasing effect in the loop. The `factor` of row k
    is the object stored at (k, base). When column base is processed, `difference`
    rescales that object, so later columns are multiplied by the rescaled fields.
  - It proves the end-state property: with distinct basis columns and a non-zero pivot
    at every pass, the basis columns form an identity sub-matrix.
  - `Elimination` is the imperative `gauss`, over an `array2<Fraction>` of distinct
    objects. Its loops overwrite cells with new objects and rescale the objects they
    subtract from. Their contracts tie the values left in the matrix to the functions
    of `GaussSpec`.

A worked example is proved: the system x + y = 3, x - y = 1 with basis columns 1 and 2.
It ends with the fields `[[1/1, 0/1, 2/1], [0/-2, 1/1, 1/1]]`, which `toString` prints
as `[[1, 0, 2], [0, 1, 1]]`. The zero below the first pivot keeps the denominator -2 it
got from the division by the second pivot, because `reduction` never touches a zero
numerator.

## Model

| member | source | states |
|---|---|---|
| Decimal.NatRoundTrip | src/main/java/gauss/domain/Fraction.java:37 | Reading back the decimal digits of a natural number gives the number. |
| Decimal.IntRoundTrip | src/main/java/gauss/domain/Fraction.java:37-39 | The `String.valueOf` rendering of any integer, sign included, reads back as that integer. |
| Fractions.ReducedPreservesValue | src/main/java/gauss/domain/Fraction.java:13-25 | `reduction` keeps the cross products equal (new.num * old.den == old.num * new.den). With a non-zero denominator the rational value is unchanged. |
| Fractions.ReducedDenominatorPositive | src/main/java/gauss/domain/Fraction.java:14-17 | With a non-zero numerator and a non-zero denominator, the reduced denominator is positive. |
| Fractions.ReducedLowestTerms | src/main/java/gauss/domain/Fraction.java:18-24 | With a non-zero numerator, the result has a non-zero numerator, a non-negative denominator, and gcd(abs(num), den) == 1. |
| Fractions.ReducedIsReduced | src/main/java/gauss/domain/Fraction.java:13-25 | Every result of `reduction` is in reduced form: a zero numerator, or coprime parts with a non-negative denominator. |
| Fractions.ReducedFixesReduced | src/main/java/gauss/domain/Fraction.java:13-25 | A fraction already in reduced form is left as it is. |
| Fractions.ReducedIdempotent | src/main/java/gauss/domain/Fraction.java:13-25 | Reducing twice gives the same fields as reducing once. |
| Fractions.ReducedCanonical | src/main/java/gauss/domain/Fraction.java:13-25 | Two fractions with non-zero parts and the same rational value reduce to identical fields. |
| Fractions.ValZero | src/main/java/gauss/Main.java:149 | A fraction with a non-zero denominator is worth zero exactly when its numerator is zero, so the pivot test on the numerator is a test on the value. |
| Fractions.ReducedValueOne | src/main/java/gauss/domain/Fraction.java:13-25 | The only reduced fraction worth one is 1/1. |
| Fractions.DivideOutFactor | src/main/java/gauss/domain/Fraction.java:19-22 | One hit of the scan: dividing out a common factor i >= 2 keeps the original fields equal to the new ones times the accumulated factor, and strictly shrinks abs(numerator), which is what makes the restarting loop terminate. |
| Fractions.TrialDivisionEndsAtGcd | src/main/java/gauss/domain/Fraction.java:18-24 | When the scan finds no common divisor in 2..abs(num), the factor it has divided out is the gcd, so the fields are the closed form `Reduced`. |
| Fractions.ScaledPreservesValue | src/main/java/gauss/domain/Fraction.java:27-30 | `multiple(i)` with i != 0 keeps the value and a non-zero denominator. |
| Fractions.AbsOfValue | src/main/java/gauss/domain/Fraction.java:59-61 | `abs()` gives plus or minus the value. It is non-negative for a positive denominator and non-positive for a negative one, since the denominator keeps its sign. |
| Fractions.ShowRoundTrip | src/main/java/gauss/domain/Fraction.java:33-41 | Parsing `toString`'s text gives the fraction back exactly when its numerator is non-zero, and 0/1 for a zero. |
| Fractions.ShowPreservesValue | src/main/java/gauss/domain/Fraction.java:33-41 | With a non-zero denominator, the text of `toString` reads back with the same rational value. |
| Fractions.Fraction.constructor | src/main/java/gauss/domain/Fraction.java:8-11 | The new object holds the given numerator and denominator. |
| Fractions.Fraction.SetNumerator | src/main/java/gauss/domain/Fraction.java:47-49 | Sets the numerator and leaves the denominator. |
| Fractions.Fraction.SetDenominator | src/main/java/gauss/domain/Fraction.java:55-57 | Sets the denominator and leaves the numerator. |
| Fractions.Fraction.Reduction | src/main/java/gauss/domain/Fraction.java:13-25 | The trial-division loop terminates and leaves the fields equal to `Reduced` of the old fields. A zero numerator leaves both fields untouched, even with a negative denominator. |
| Fractions.Fraction.Multiple | src/main/java/gauss/domain/Fraction.java:27-30 | Both fields are multiplied by i. |
| Fractions.Fraction.Abs | src/main/java/gauss/domain/Fraction.java:59-61 | Returns a new object holding abs(num) over the same denominator, and leaves the receiver unchanged. |
| FractionUtils.Align | src/main/java/gauss/utils/FractionUtils.java:10-16 | Afterwards the denominators are equal. Equal denominators are left alone. With non-zero denominators, both values are kept. |
| FractionUtils.Quotient | src/main/java/gauss/utils/FractionUtils.java:33-36 | A divisor with a zero numerator gives a zero denominator. |
| FractionUtils.SumValue | src/main/java/gauss/utils/FractionUtils.java:18-21 | `amount` is rational addition, with a non-zero denominator. |
| FractionUtils.DiffValue | src/main/java/gauss/utils/FractionUtils.java:23-26 | `difference` is rational subtraction, with a non-zero denominator. |
| FractionUtils.SumThenDiff | src/main/java/gauss/utils/FractionUtils.java:18-26 | `difference(amount(a, b), b)`, with b as `amount` left it, has the value of the original a. |
| FractionUtils.ProductValue | src/main/java/gauss/utils/FractionUtils.java:28-31 | `multiplication` is rational multiplication, with a non-zero denominator. |
| FractionUtils.QuotientValue | src/main/java/gauss/utils/FractionUtils.java:33-36 | `division` by a divisor with a non-zero numerator is rational division, with a non-zero denominator. |
| FractionUtils.ProductThenQuotient | src/main/java/gauss/utils/FractionUtils.java:28-36 | Multiplying and then dividing by the same non-zero fraction gives back the original value. |
| FractionUtils.ResultsAreNotReduced | src/main/java/gauss/utils/FractionUtils.java:18-36 | The results are raw fields: 1/2 + 1/2 is 2/2, 1/2 - 1/4 is 2/8, and neither is reduced. |
| FractionUtils.ToCommonDenominator | src/main/java/gauss/utils/FractionUtils.java:10-16 | Both objects are rescaled in place to `Align` of their old fields. |
| FractionUtils.Amount | src/main/java/gauss/utils/FractionUtils.java:18-21 | Returns a new object holding `Sum` of the old fields, and leaves both operands aligned. |
| FractionUtils.Difference | src/main/java/gauss/utils/FractionUtils.java:23-26 | Returns a new object holding `Diff` of the old fields, and leaves both operands aligned. |
| FractionUtils.Multiplication | src/main/java/gauss/utils/FractionUtils.java:28-31 | Returns a new object holding the raw product fields. The operands are not modified. |
| FractionUtils.Division | src/main/java/gauss/utils/FractionUtils.java:33-36 | Returns a new object holding the raw quotient fields. The operands are not modified. |
| GaussSpec.Normalized | src/main/java/gauss/Main.java:148-153 | The normalised row has the row's length. A pivot with a zero numerator leaves the row unchanged. |
| GaussSpec.Eliminated | src/main/java/gauss/Main.java:158-162 | Row k after the elimination loop has its old length. |
| GaussSpec.Cleared | src/main/java/gauss/Main.java:156-164 | The elimination phase keeps the row count and every row's length. |
| GaussSpec.Step | src/main/java/gauss/Main.java:145-164 | One pass keeps the row count and every row's length. |
| GaussSpec.GaussUpTo | src/main/java/gauss/Main.java:144-166 | Any number of passes keeps the row count and every row's length. |
| GaussSpec.GaussUpToNext | src/main/java/gauss/Main.java:144-166 | One more pass on the matrix after n passes gives the matrix after n + 1 passes. |
| GaussSpec.NormalizedEntries | src/main/java/gauss/Main.java:146-152 | With a non-zero pivot, every entry becomes, in reduced form, the old entry divided by the pivot read before the loop, and the pivot's own entry becomes 1/1. |
| GaussSpec.QuotientEntry | src/main/java/gauss/Main.java:150-151 | One cell of the normalisation loop is reduced and holds the rational quotient. |
| GaussSpec.PivotBecomesOne | src/main/java/gauss/Main.java:146-151 | The pivot divided by itself and reduced is exactly 1/1. |
| GaussSpec.FactorValue | src/main/java/gauss/Main.java:158-160 | The `factor` object keeps the value of the old (k, base) entry, also after `difference` has rescaled it. |
| GaussSpec.EliminatedEntries | src/main/java/gauss/Main.java:156-163 | For k != i, every new entry of row k is reduced and equals in value the old entry minus the old (k, base) entry times the entry of row i. When row i's pivot is 1/1, column base of row k becomes 0. |
| GaussSpec.EliminatedEntry | src/main/java/gauss/Main.java:160-161 | One cell of the elimination loop: reduced, non-zero denominator, and the difference above in value. |
| GaussSpec.SubtractedProduct | src/main/java/gauss/Main.java:160-161 | `difference(x, multiplication(f, y))` followed by `reduction` is reduced and holds x - f * y. |
| GaussSpec.ZeroColumnKept | src/main/java/gauss/Main.java:160-161 | In a column where row i holds 0, the elimination keeps a 1/1 as 1/1 and a zero as a zero. |
| GaussSpec.PivotRowStep | src/main/java/gauss/Main.java:148-153 | After normalisation with a non-zero pivot, the pivot row fits the identity pattern: 1/1 in its basis column, zeros in the earlier basis columns, non-zero denominators. |
| GaussSpec.OtherRowStep | src/main/java/gauss/Main.java:156-164 | After the elimination, every other row fits the identity pattern of the first n + 1 basis columns. |
| GaussSpec.StepExtendsIdentity | src/main/java/gauss/Main.java:144-166 | A pass with a non-zero pivot extends the identity sub-matrix by the pass's own basis column. |
| GaussSpec.GaussUpToValid | src/main/java/gauss/Main.java:144-166 | Every intermediate matrix keeps the shape and the basis-index conditions. |
| GaussSpec.NoPassesNoChange | src/main/java/gauss/Main.java:139-144 | Before the first pass the matrix is the input, and the identity pattern is empty. |
| GaussSpec.PassExtendsIdentity | src/main/java/gauss/Main.java:144-166 | If the identity pattern holds after n - 1 passes and pass n - 1 has a non-zero pivot, it holds after n passes. |
| GaussSpec.GaussIdentityUpTo | src/main/java/gauss/Main.java:144-166 | By induction on the passes, the identity pattern holds for every row processed so far. |
| GaussSpec.BasisColumnsFormIdentity | src/main/java/gauss/Main.java:131-167 | With distinct basis columns, non-zero denominators and a non-zero pivot at every pass, the result has 1/1 at (i, bases[i]-1) and a zero with a non-zero denominator at (k, bases[i]-1) for k != i. |
| GaussSpec.TwoByTwoExample | src/main/java/gauss/Main.java:139-167 | [[1, 1, 3], [1, -1, 1]] with basis columns [1, 2] ends as the fields [[1/1, 0/1, 2/1], [0/-2, 1/1, 1/1]]. |
| Elimination.NormalizeRow | src/main/java/gauss/Main.java:145-153 | The normalisation loop changes only row i, filling it with new objects. The values become `Normalized` of the old row, with the pivot object read once before the loop. |
| Elimination.SubtractMultiple | src/main/java/gauss/Main.java:160-161 | One elimination cell: a new object holding the reduced difference. The operand `a` (possibly `factor` itself) is left rescaled by the alignment. |
| Elimination.EliminateRow | src/main/java/gauss/Main.java:158-162 | The loop over row k replaces every cell of row k with a new object and touches no other row. The values become `Eliminated`, including the rescaled `factor` after column base. |
| Elimination.EliminateOthers | src/main/java/gauss/Main.java:156-164 | The loop over k != i leaves row i's objects in place, fills every other row with new objects, and leaves the values `Cleared`. |
| Elimination.Pass | src/main/java/gauss/Main.java:145-164 | One pass: the matrix values become `Step` of the old ones, and every object now held is an old cell or new. |
| Elimination.OuterPass | src/main/java/gauss/Main.java:144-166 | The body of the outer loop takes the matrix from the values after i passes to the values after i + 1 passes. |
| Elimination.Gauss | src/main/java/gauss/Main.java:139-167 | Under the basis-index conditions checked at lines 40 and 44, `gauss` keeps the cells distinct and leaves the values `GaussResult` of the input. |

## Left out

- Console and file I/O: `readFile`, `printFile`, `printMatrix`, `printResult`, `main`, and the `printMatrix` calls inside `gauss` (src/main/java/gauss/Main.java:18-62, 71-89, 124-129, 142, 154, 165, 175-203). None of them changes the matrix.
- Parsing: `createMatrix`, the dimension and basis parsing, and `Integer.parseInt`. `Gauss` receives an already-built rectangular matrix. The exception classes under `gauss.exceptions` are not part of this model; their checks appear only as the preconditions they enforce (each basis index at most the column count, one basis index per row).
- The program never checks that a basis index is at least 1. A smaller index makes Java throw an index exception, so the model requires 1 <= bases[i].
- Java's 32-bit `int`: every integer here is unbounded, so overflow in products and `Math.abs(Integer.MIN_VALUE)` are not modelled.
- Value claims are stated only for non-zero denominators. A zero denominator is representable and every operation computes its fields, but its rational value is undefined.
- Elimination.Gauss: the matrix's cells are assumed to be distinct objects. `createMatrix` creates each cell with its own `new`; a matrix sharing objects between cells is outside the contract.
- The getters and `toString` (src/main/java/gauss/domain/Fraction.java:33-57) are modelled as functions that read the fields, with `Show` as the text form; they carry no contract of their own, and their properties are the lemmas about `Show` above.
