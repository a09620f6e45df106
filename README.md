# utilities-calculus polynomials and root finding, modelled in Dafny

This project models the polynomial core of the `zeno.util.calc` utilities.

- **Polynomial.** A polynomial keeps its terms in a sorted map from degree to coefficient. A private
  writer keeps that map sparse: zeros are dropped, except at degree 0.
- **Operations on polynomials.**
  - the queries `Coefficient`, `Coefficients`, `Degree` and `Term`;
  - `copy`;
  - arithmetic with polynomials and with scalars;
  - Horner evaluation;
  - the text parser and the coefficient-list constructor.
- **Rational.** A `Rational` divides one polynomial by another with long division. It keeps the
  quotient, the remainder and the divisor.
- **RootFinder.** Solves degrees 1 and 2 in closed form. For higher degrees it uses Bairstow's
  method: it splits off a quadratic factor with the two coefficient arrays `bArr` and `fArr`, then
  deflates. It also filters the roots down to the real ones in place and copies them into arrays.

The model takes the source's form:

- `Polynomial`, `Rational` and `RootFinder` are classes whose methods update their fields, with loops
  where the source loops.
- The term map is a `map<nat, real>`.
- Every method is proved against specification functions on those maps: `Coeff`, `Deg`, `Eval`,
  `SumTerms`, `ProductTerms`, `QuadraticRoots`, `RealOnly`, and so on. `Pass` and `Run` give one
  Bairstow pass and the whole outer loop, and `RootsOf` gives the complete list `findRoots` finds.
- The algebra of the operations is proved about those functions:
  - value laws: the value of a sum or product is the sum or product of the values;
  - inverses: `plus` then `minus`, `times` then `over`;
  - the division identity and its uniqueness;
  - the closed-form roots solve their equations;
  - one Bairstow correction is the Newton step for the remainder;
  - an exact quadratic split only finds true zeros.

Modules:

- `Numerics`: multiplication, powers, sign, division, complex numbers.
- `Terms`: the term map and the writer.
- `Series`: evaluation and convolution sums.
- `Algebra`: the operations as functions on maps, with their laws.
- `Polynomials`: the `Polynomial` class.
- `PolynomialText`: the parser's string steps.
- `Rationals`: long division.
- `Quadratics`: the closed forms.
- `Bairstow`: the synthetic-division recurrence and the Newton correction.
- `RootFinders`: the `RootFinder` class.

## Model

| member | source | states |
|---|---|---|
| Terms.Put | src/zeno/util/calc/variables/functions/Polynomial.java:309-317 | the private set: a non-zero value is stored, a zero value removes the degree except degree 0, which is kept with 0; sparseness and a stored degree 0 are preserved and no other degree changes |
| Terms.Accumulate | src/zeno/util/calc/variables/functions/Polynomial.java:300-307 | the private add: the coefficient at d grows by v, every other coefficient is unchanged, sparseness and a stored degree 0 are preserved |
| Terms.Deg | src/zeno/util/calc/variables/functions/Polynomial.java:292-297 | Degree(): the largest stored degree, -1 exactly for an empty store |
| Terms.CoeffAboveDeg | src/zeno/util/calc/variables/functions/Polynomial.java:239-248 | above the degree every coefficient reads as 0 |
| Terms.LeadingNonZero | src/zeno/util/calc/variables/functions/Polynomial.java:309-317 | because the writer never stores a zero above degree 0, the coefficient at a positive degree is non-zero |
| Terms.NormalDegree | src/zeno/util/calc/variables/functions/Polynomial.java:111-114 | a store built from new Polynomial() always has degree at least 0 |
| Terms.Extensionality | src/zeno/util/calc/variables/functions/Polynomial.java:309-317 | two stores written through set with the same coefficients (and both holding degree 0 or neither) are the same map: the representation is canonical |
| Terms.Dense | src/zeno/util/calc/variables/functions/Polynomial.java:99-106 | the normalised store holding cs[k] at degree k, degree 0 stored exactly when cs is non-empty |
| Terms.ScaleTerms | src/zeno/util/calc/variables/functions/Polynomial.java:339-348 | every coefficient multiplied by v, normalised as set does it |
| Terms.CoeffSeq | src/zeno/util/calc/variables/functions/Polynomial.java:266-275 | the dense coefficient list of length Degree()+1 with entry k the coefficient at k |
| Terms.DenseOfCoeffSeq | src/zeno/util/calc/variables/functions/Polynomial.java:266-275 | re-reading the dense coefficient list gives the polynomial back |
| Series.HornerIsEval | src/zeno/util/calc/variables/functions/Polynomial.java:321-336 | Horner's form over the stored degrees equals the power sum of c_d x^d |
| Series.HornerGap | src/zeno/util/calc/variables/functions/Polynomial.java:324-332 | across unstored degrees the Horner accumulator is multiplied by the whole power x^(deg-cur), as evaluate does |
| Series.HornerCompletes | src/zeno/util/calc/variables/functions/Polynomial.java:321-336 | the power sum below n plus x^n times Horner's form from n is the value |
| Series.EvalCongruent | src/zeno/util/calc/variables/functions/Polynomial.java:321-336 | two stores with the same coefficients have the same value |
| Series.ConvLead | src/zeno/util/calc/variables/functions/Polynomial.java:156-172 | the product coefficient at the sum of the top degrees is the product of the top coefficients |
| Algebra.Padded | src/zeno/util/calc/variables/functions/Polynomial.java:385-394 | copy(): the same coefficients, with degree 0 stored |
| Algebra.PaddedDegree | src/zeno/util/calc/variables/functions/Polynomial.java:385-394 | copying a non-empty store keeps its degree |
| Algebra.SumTerms | src/zeno/util/calc/variables/functions/Polynomial.java:197-206 | plus(Polynomial): at every degree the sum of the two coefficients, normalised |
| Algebra.DifferenceTerms | src/zeno/util/calc/variables/functions/Polynomial.java:180-189 | minus(Polynomial): at every degree the difference of the two coefficients, normalised |
| Algebra.ShiftScaleTerms | src/zeno/util/calc/variables/functions/Polynomial.java:124-134 | times(deg, val): val times the coefficient at k lands at k + deg, nothing below deg |
| Algebra.ProductTerms | src/zeno/util/calc/variables/functions/Polynomial.java:156-172 | times(Polynomial): at degree k the sum of a_i b_j over i + j = k |
| Algebra.DividedTerms | src/zeno/util/calc/variables/functions/Polynomial.java:367-376 | over(double): every coefficient divided by val |
| Algebra.TermOf | src/zeno/util/calc/variables/functions/Polynomial.java:225-230 | Term(deg): only the coefficient at deg survives |
| Algebra.ProductBeyond | src/zeno/util/calc/variables/functions/Polynomial.java:156-172 | no product coefficient above the sum of the degrees |
| Algebra.EvalPadded | src/zeno/util/calc/variables/functions/Polynomial.java:385-394 | a copy has the same value everywhere |
| Algebra.EvalSum | src/zeno/util/calc/variables/functions/Polynomial.java:197-206 | the value of the sum is the sum of the values |
| Algebra.EvalDifference | src/zeno/util/calc/variables/functions/Polynomial.java:180-189 | the value of the difference is the difference of the values |
| Algebra.EvalShiftScale | src/zeno/util/calc/variables/functions/Polynomial.java:124-134 | the value of times(deg, val) is x^deg val p(x) |
| Algebra.EvalScaled | src/zeno/util/calc/variables/functions/Polynomial.java:339-348 | the value of times(double) is val p(x) |
| Algebra.EvalDivided | src/zeno/util/calc/variables/functions/Polynomial.java:367-376 | val times the value of over(val) is p(x) |
| Algebra.EvalPlusConstant | src/zeno/util/calc/variables/functions/Polynomial.java:359-364 | the value of plus(double) is p(x) + val |
| Algebra.EvalTerm | src/zeno/util/calc/variables/functions/Polynomial.java:225-230 | the value of Term(d) is a_d x^d |
| Algebra.EvalProduct | src/zeno/util/calc/variables/functions/Polynomial.java:156-172 | the value of the product is the product of the values |
| Algebra.SumThenDifference | src/zeno/util/calc/variables/functions/Polynomial.java:180-206 | (a plus b) minus b is the copy of a |
| Algebra.ScaleThenDivide | src/zeno/util/calc/variables/functions/Polynomial.java:339-376 | (a times v) over v is the copy of a, for v != 0 |
| Algebra.PlusThenMinusConstant | src/zeno/util/calc/variables/functions/Polynomial.java:351-364 | (a plus v) minus v is the copy of a |
| Algebra.EvalDivision | src/zeno/util/calc/variables/functions/Rational.java:47-51 | a division identity n = q b + r carries over to values: n(x) = q(x) b(x) + r(x) |
| Polynomials.Polynomial.constructor | src/zeno/util/calc/variables/functions/Polynomial.java:111-114 | new Polynomial(): the constant 0 with degree 0 stored |
| Polynomials.Polynomial.FromCoefficients | src/zeno/util/calc/variables/functions/Polynomial.java:99-106 | vals[i] at degree |vals|-1-i, highest first; degree 0 stored exactly when vals is non-empty; the store is valid |
| Polynomials.Polynomial.Parse | src/zeno/util/calc/variables/functions/Polynomial.java:43-91 | None exactly when some term cannot be read; otherwise the constant 0 with every parsed term added through add, in order |
| Polynomials.Polynomial.Set | src/zeno/util/calc/variables/functions/Polynomial.java:309-317 | the store becomes Put(old store, d, v) |
| Polynomials.Polynomial.Add | src/zeno/util/calc/variables/functions/Polynomial.java:300-307 | the store becomes Accumulate(old store, d, v) |
| Polynomials.Polynomial.Coefficient | src/zeno/util/calc/variables/functions/Polynomial.java:239-248 | the stored value, or 0 when the degree is absent |
| Polynomials.Polynomial.Degree | src/zeno/util/calc/variables/functions/Polynomial.java:292-297 | -1 exactly for an empty store; otherwise the largest stored degree, above which every coefficient is 0 and at which (when positive) the coefficient is non-zero |
| Polynomials.Polynomial.Coefficients | src/zeno/util/calc/variables/functions/Polynomial.java:266-275 | a fresh array of length Degree()+1 whose entry k is Coefficient(k) |
| Polynomials.Polynomial.Copy | src/zeno/util/calc/variables/functions/Polynomial.java:385-394 | a fresh valid polynomial with the same coefficients and degree 0 stored |
| Polynomials.Polynomial.Plus | src/zeno/util/calc/variables/functions/Polynomial.java:197-206 | a fresh polynomial holding SumTerms; neither operand changes |
| Polynomials.Polynomial.Minus | src/zeno/util/calc/variables/functions/Polynomial.java:180-189 | a fresh polynomial holding DifferenceTerms; neither operand changes |
| Polynomials.Polynomial.PlusTerm | src/zeno/util/calc/variables/functions/Polynomial.java:143-148 | a fresh copy with val accumulated at deg |
| Polynomials.Polynomial.TimesTerm | src/zeno/util/calc/variables/functions/Polynomial.java:124-134 | a fresh polynomial holding ShiftScaleTerms |
| Polynomials.Polynomial.Times | src/zeno/util/calc/variables/functions/Polynomial.java:156-172 | a fresh polynomial holding ProductTerms |
| Polynomials.Polynomial.TimesScalar | src/zeno/util/calc/variables/functions/Polynomial.java:339-348 | a fresh copy with every coefficient times val |
| Polynomials.Polynomial.OverScalar | src/zeno/util/calc/variables/functions/Polynomial.java:367-376 | a fresh copy with every coefficient over val |
| Polynomials.Polynomial.PlusScalar | src/zeno/util/calc/variables/functions/Polynomial.java:359-364 | a fresh copy with val added at degree 0, all else kept |
| Polynomials.Polynomial.MinusScalar | src/zeno/util/calc/variables/functions/Polynomial.java:351-356 | a fresh copy with val subtracted at degree 0, all else kept |
| Polynomials.Polynomial.Term | src/zeno/util/calc/variables/functions/Polynomial.java:225-230 | a fresh polynomial holding only the term at deg |
| Polynomials.Polynomial.Evaluate | src/zeno/util/calc/variables/functions/Polynomial.java:321-336 | Horner's loop over the stored degrees returns the value sum c_d x^d |
| PolynomialText.RemoveAll | src/zeno/util/calc/variables/functions/Polynomial.java:48 | replaceAll of one character: it no longer occurs, every other character is kept |
| PolynomialText.MarkSigns | src/zeno/util/calc/variables/functions/Polynomial.java:49 | replaceAll("-", "+-"): a leading '-' becomes "+-", and apart from the inserted '+' the text is unchanged |
| PolynomialText.JoinSplit | src/zeno/util/calc/variables/functions/Polynomial.java:52 | splitting at a separator loses nothing: joining the pieces gives the text back |
| PolynomialText.SplitPiecesAvoid | src/zeno/util/calc/variables/functions/Polynomial.java:52 | no piece of a split at '+' holds a '+' |
| PolynomialText.DropTrailingEmpty | src/zeno/util/calc/variables/functions/Polynomial.java:52 | split drops exactly the trailing empty pieces |
| PolynomialText.JavaSplitNoMatch | src/zeno/util/calc/variables/functions/Polynomial.java:52 | a text without the separator splits into itself |
| PolynomialText.Trim | src/zeno/util/calc/variables/functions/Polynomial.java:77 | trim: the result starts and ends with a character above ' ', and text with no such character inside is unchanged |
| PolynomialText.ParseDecimal | src/zeno/util/calc/variables/functions/Polynomial.java:84 | a degree parses exactly when it is a non-empty digit string whose value fits an int |
| PolynomialText.ParseDecimalText | src/zeno/util/calc/variables/functions/Polynomial.java:84 | reading back the decimal digits of a degree that fits an int gives that degree |
| PolynomialText.ParseFixedDegrees | src/zeno/util/calc/variables/functions/Polynomial.java:58-72 | the degree texts "0" and "1" the constructor supplies itself parse as 0 and 1 |
| PolynomialText.TermDegree | src/zeno/util/calc/variables/functions/Polynomial.java:58-72 | a term without the variable has degree 0, one with the variable and no '^' degree 1 |
| PolynomialText.UnitTerms | src/zeno/util/calc/variables/functions/Polynomial.java:74-81 | "" reads as 1, "-" as -1, "x" as x and "-x" as -x |
| PolynomialText.ParseAll | src/zeno/util/calc/variables/functions/Polynomial.java:53-89 | the terms read in order, and None exactly when one of them cannot be read |
| PolynomialText.ParseAllFails | src/zeno/util/calc/variables/functions/Polynomial.java:53-89 | one unreadable term makes the whole text fail |
| PolynomialText.ParseAllStep | src/zeno/util/calc/variables/functions/Polynomial.java:53-89 | reading one more term extends the parsed entries, and adding it extends the store |
| PolynomialText.AddAll | src/zeno/util/calc/variables/functions/Polynomial.java:88 | adding the entries in order raises the coefficient at k by the sum of the values read at degree k |
| PolynomialText.LeadingMinusTokens | src/zeno/util/calc/variables/functions/Polynomial.java:48-52 | a text starting with '-' splits into an empty first term and a second term starting with '-' |
| PolynomialText.LeadingMinusAddsOne | src/zeno/util/calc/variables/functions/Polynomial.java:48-89 | a text starting with '-' reads a first entry 1 at degree 0 |
| PolynomialText.EmptyTextIsOne | src/zeno/util/calc/variables/functions/Polynomial.java:48-89 | the empty text reads as the constant 1 |
| PolynomialText.NegatedVariableText | src/zeno/util/calc/variables/functions/Polynomial.java:48-89 | "-x" reads as the entries 1 and -x |
| PolynomialText.LeadingMinusNegates | src/zeno/util/calc/variables/functions/Polynomial.java:52-55 | with empty pieces skipped, the first term read from a text starting with '-' is the one carrying the sign |
| PolynomialText.SignedVariableText | src/zeno/util/calc/variables/functions/Polynomial.java:52-55 | with empty pieces skipped, "-x" reads as the single entry -x |
| PolynomialText.NonEmpty | src/zeno/util/calc/variables/functions/Polynomial.java:52 | the corrected term list: the split pieces with the empty ones skipped, none of them empty and no more of them than were split |
| PolynomialText.SignedEmptyText | src/zeno/util/calc/variables/functions/Polynomial.java:52-55 | with empty pieces skipped, the empty text reads as no term |
| PolynomialText.SignedTermsAgree | src/zeno/util/calc/variables/functions/Polynomial.java:52-55 | where no piece is empty, skipping empty pieces reads the same entries as the constructor |
| PolynomialText.NonEmptyKeeps | src/zeno/util/calc/variables/functions/Polynomial.java:52 | skipping empty pieces changes nothing when no piece is empty |
| Rationals.Rational.constructor | src/zeno/util/calc/variables/functions/Rational.java:24-45 | long division of copies of the operands: numer = quotient denom + remainder, remainder degree below the divisor's |
| Rationals.Rational.LongDivision | src/zeno/util/calc/variables/functions/Rational.java:30-44 | the loop ends with the division identity and deg(remainder) < deg(divisor), the divisor a copy of denom |
| Rationals.Rational.DivisionStep | src/zeno/util/calc/variables/functions/Rational.java:32-43 | one pass keeps the division identity and strictly lowers the remainder's degree |
| Rationals.Rational.Evaluate | src/zeno/util/calc/variables/functions/Rational.java:47-51 | where the divisor does not vanish, quotient(x) + remainder(x)/divisor(x) is numer(x)/denom(x) |
| Rationals.Rational.Remainder | src/zeno/util/calc/variables/functions/Rational.java:60-63 | the remainder: of lower degree than the divisor, completing the division identity |
| Rationals.Rational.Quotient | src/zeno/util/calc/variables/functions/Rational.java:71-74 | the quotient: with the remainder it satisfies the division identity |
| Rationals.Rational.Divisor | src/zeno/util/calc/variables/functions/Rational.java:82-85 | the divisor: the denominator's coefficients and degree |
| Rationals.DivisionIdentityStep | src/zeno/util/calc/variables/functions/Rational.java:41-43 | adding val x^deg to the quotient and subtracting val x^deg divisor from the remainder keeps the identity |
| Rationals.DivisionStepTerms | src/zeno/util/calc/variables/functions/Rational.java:32-43 | the step on the stores the loop builds keeps the identity and lowers the remainder's degree |
| Rationals.LeadCancels | src/zeno/util/calc/variables/functions/Rational.java:36-43 | the step cancels the remainder's leading term |
| Rationals.ConstantDivisorKeepsLooping | src/zeno/util/calc/variables/functions/Rational.java:30 | with a constant divisor the loop guard can never become false |
| Rationals.RationalValue | src/zeno/util/calc/variables/functions/Rational.java:47-51 | the value computed by evaluate is numer(x)/denom(x) |
| Rationals.DivisionUnique | src/zeno/util/calc/variables/functions/Rational.java:24-45 | the quotient and remainder the loop leaves are the only ones with a remainder of lower degree |
| Rationals.DivideBySelf | src/zeno/util/calc/variables/functions/Rational.java:24-45 | a polynomial over itself gives quotient 1 and remainder 0 |
| Rationals.SmallNumerator | src/zeno/util/calc/variables/functions/Rational.java:24-45 | a numerator of lower degree than the divisor is all remainder |
| Numerics.Sign | src/zeno/util/calc/variables/algorithms/RootFinder.java:170 | Doubles.sign: -1, 0 or 1, with the sign of its argument |
| Numerics.Div | src/zeno/util/calc/variables/algorithms/RootFinder.java:255-256 | a quotient that times a non-zero divisor gives the dividend back |
| Quadratics.QuadraticShape | src/zeno/util/calc/variables/algorithms/RootFinder.java:103-195 | no roots when a = b = 0; a pure real or pure imaginary pair when only b = 0; one real root for a zero discriminant; a real pair for a positive one; a conjugate pair for a negative one |
| Quadratics.PureRootsSolve | src/zeno/util/calc/variables/algorithms/RootFinder.java:114-151 | with b = 0 both roots solve a z^2 + c = 0 |
| Quadratics.DoubleRootSolves | src/zeno/util/calc/variables/algorithms/RootFinder.java:158-166 | -b/(2a) solves the equation when the discriminant is 0 |
| Quadratics.StableRootSolves | src/zeno/util/calc/variables/algorithms/RootFinder.java:170-171 | the cancellation-free root -(b + sign(b) sqrt(disc))/(2a) solves the equation |
| Quadratics.PositiveBranch | src/zeno/util/calc/variables/algorithms/RootFinder.java:168-181 | a positive discriminant with b != 0 appends the stable root first and c/(a r1) second |
| Quadratics.ProductRoot | src/zeno/util/calc/variables/algorithms/RootFinder.java:172 | c/(a r1) is the other root: the product of the pair is c/a |
| Quadratics.ConjugateRootsSolve | src/zeno/util/calc/variables/algorithms/RootFinder.java:183-194 | the conjugate pair solves the equation when the discriminant is negative |
| Quadratics.SignedRoot | src/zeno/util/calc/variables/algorithms/RootFinder.java:170 | sign(b) sqrt(disc) squares to disc and has the sign of b |
| Quadratics.RealPairSolves | src/zeno/util/calc/variables/algorithms/RootFinder.java:168-181 | both roots of a positive discriminant solve the equation |
| Quadratics.QuadraticRootsSolve | src/zeno/util/calc/variables/algorithms/RootFinder.java:103-195 | with a != 0 and exact square roots, every root appended solves a z^2 + b z + c = 0 |
| Quadratics.RealSolutionIsZero | src/zeno/util/calc/variables/algorithms/RootFinder.java:103-195 | a real solution of the quadratic is a zero of the polynomial it was read from |
| Quadratics.QuadraticRealRoots | src/zeno/util/calc/variables/algorithms/RootFinder.java:103-195 | every real root appended for a polynomial of degree 2 is a zero of it |
| Quadratics.QuadraticCount | src/zeno/util/calc/variables/algorithms/RootFinder.java:103-195 | with a != 0 one or two roots are appended |
| Quadratics.LinearRootSolves | src/zeno/util/calc/variables/algorithms/RootFinder.java:197-208 | -c0/c1 is a zero of a polynomial of degree 1 |
| Bairstow.QuadTermsShape | src/zeno/util/calc/variables/algorithms/RootFinder.java:272 | the divisor Polynomial(1, u, v) is x^2 + u x + v, of degree 2 and leading coefficient 1 |
| Bairstow.QuotientExtend | src/zeno/util/calc/variables/algorithms/RootFinder.java:234-237 | one pass of the inner loop extends the synthetic-division recurrence down to d |
| Bairstow.QuotientSourceChange | src/zeno/util/calc/variables/algorithms/RootFinder.java:236-237 | writing bArr[d] keeps the recurrence fArr satisfies above d |
| Bairstow.FactorIdentity | src/zeno/util/calc/variables/algorithms/RootFinder.java:234-243 | the recurrence makes a = (x^2 + u x + v) b + (c x + d), with c and d the first remainder |
| Bairstow.CorrectionIsNewtonStep | src/zeno/util/calc/variables/algorithms/RootFinder.java:246-261 | uErr and vErr solve the Newton system of the remainder (c, d) with the Jacobian read from (g, h) |
| Bairstow.ExactWhenConverged | src/zeno/util/calc/variables/algorithms/RootFinder.java:251-268 | when the loop stops on uErr = vErr = 0 with a non-zero dnom, the remainder is 0 |
| Bairstow.DeflatedDegree | src/zeno/util/calc/variables/algorithms/RootFinder.java:272-273 | the quotient read off bArr has degree deg - 2 |
| Bairstow.ExactFactorZeros | src/zeno/util/calc/variables/algorithms/RootFinder.java:272-278 | with a zero remainder, every zero of the divisor or the quotient is a zero of the polynomial |
| Bairstow.QuotientUnique | src/zeno/util/calc/variables/algorithms/RootFinder.java:234-237 | the recurrence of the inner loop has exactly one solution, Quotient, whatever bArr held before |
| Bairstow.QuotientSatisfies | src/zeno/util/calc/variables/algorithms/RootFinder.java:234-237 | Quotient keeps the recurrence the inner loop writes |
| Bairstow.PassOf | src/zeno/util/calc/variables/algorithms/RootFinder.java:233-262 | arrays satisfying the two recurrences give Pass: the corrections unum/dnom and vnum/dnom applied to u and v, and the stop test |
| Bairstow.PassStopsExact | src/zeno/util/calc/variables/algorithms/RootFinder.java:251-268 | a pass that stops leaves u and v unchanged and the remainder c x + d zero |
| Bairstow.RunDone | src/zeno/util/calc/variables/algorithms/RootFinder.java:231 | with no pass left the loop ends where it is, not at an exact stop |
| Bairstow.RunStep | src/zeno/util/calc/variables/algorithms/RootFinder.java:231-269 | one pass either leaves the loop with its correction or continues from it with one pass fewer |
| Bairstow.RunEndsWithPass | src/zeno/util/calc/variables/algorithms/RootFinder.java:231-269 | after at least one pass, the final u, v are the last pass's correction of the divisor it used, on a stop and at the bound alike |
| Bairstow.RunStopsExact | src/zeno/util/calc/variables/algorithms/RootFinder.java:231-269 | a loop that stops keeps its last divisor, and that divisor leaves no remainder |
| RootFinders.Reversed | src/zeno/util/calc/variables/algorithms/RootFinder.java:273 | Array.reverse: same length, entry i is entry n-1-i of the input |
| RootFinders.RealOnlyMembers | src/zeno/util/calc/variables/algorithms/RootFinder.java:57-79 | the filtered list holds exactly the real roots |
| RootFinders.RealOnlyConcat | src/zeno/util/calc/variables/algorithms/RootFinder.java:61-69 | the filter works piece by piece, so it keeps the order of the roots |
| RootFinders.RealOnlyRemove | src/zeno/util/calc/variables/algorithms/RootFinder.java:64-67 | removing a root that is not real leaves the filtered list unchanged |
| RootFinders.RealOnlyOfReals | src/zeno/util/calc/variables/algorithms/RootFinder.java:57-79 | a list of real roots filters to itself |
| RootFinders.RealPrefix | src/zeno/util/calc/variables/algorithms/RootFinder.java:61-69 | a prefix of real roots extended by a real root is still all real |
| RootFinders.ExactSplitZeros | src/zeno/util/calc/variables/algorithms/RootFinder.java:281-302 | zeros of a divisor or quotient of an exact split reach the polynomial findRoots started from |
| RootFinders.DeflationResult | src/zeno/util/calc/variables/algorithms/RootFinder.java:272-273 | after the iterations, the deflated quotient has degree deg - 2 and p = (x^2 + u x + v) quotient + remainder |
| RootFinders.ZeroStoreDegree | src/zeno/util/calc/variables/algorithms/RootFinder.java:273 | with no iteration run, bArr is all zero and the quotient is the constant 0 |
| RootFinders.FactorFacts | src/zeno/util/calc/variables/algorithms/RootFinder.java:214-273 | what one run of findHigher establishes on the coefficient sequences: the divisor's shape, the quotient's degree, the division identity, and a zero remainder when the stop was exact |
| RootFinders.HigherStepZeros | src/zeno/util/calc/variables/algorithms/RootFinder.java:281-302 | one exact findHigher step keeps every real root found a zero of the original polynomial |
| RootFinders.RootFinder.constructor | src/zeno/util/calc/variables/algorithms/RootFinder.java:36-39 | the iteration bound is the one given, no roots yet |
| RootFinders.RootFinder.Default | src/zeno/util/calc/variables/algorithms/RootFinder.java:44-47 | the iteration bound is DEF_ITERATIONS = 1024 |
| RootFinders.RootFinder.FindLinear | src/zeno/util/calc/variables/algorithms/RootFinder.java:197-208 | appends -c0/c1, a zero of p when p has degree 1; poly is unchanged |
| RootFinders.RootFinder.SolveQuadratic | src/zeno/util/calc/variables/algorithms/RootFinder.java:107-194 | the branches of findQuadratic compute exactly QuadraticRoots(a, b, c), whose members solve the equation where the square roots are exact (QuadraticRootsSolve) and which has one or two members for a != 0 (QuadraticCount) |
| RootFinders.RootFinder.FindQuadratic | src/zeno/util/calc/variables/algorithms/RootFinder.java:103-195 | appends QuadraticRoots of the three lowest coefficients; poly is unchanged |
| RootFinders.RootFinder.SyntheticDivision | src/zeno/util/calc/variables/algorithms/RootFinder.java:234-238 | the inner loop leaves bArr the synthetic quotient of coef and fArr that of bArr by x^2 + u x + v |
| RootFinders.RootFinder.BairstowPass | src/zeno/util/calc/variables/algorithms/RootFinder.java:233-268 | one iteration leaves bArr and fArr the two synthetic quotients and returns exactly Pass: the corrected u and v and a stop when dnom is non-zero and both errors are 0 (PassStopsExact: such a stop keeps u, v and leaves no remainder) |
| RootFinders.RootFinder.Iterate | src/zeno/util/calc/variables/algorithms/RootFinder.java:231-269 | the loop computes Run from the guesses: with no pass u, v stay and bArr is all 0; otherwise bArr is the synthetic quotient by the last divisor used, and u, v and the stop are Run's (the last pass's correction, whether it stopped or hit the bound) |
| RootFinders.RootFinder.Factor | src/zeno/util/calc/variables/algorithms/RootFinder.java:214-273 | the loop's outcome is HigherRun from the guesses; the divisor x^2 + u x + v with u, v the last pass's correction of the divisor it used (the guesses when no pass runs, with an all-zero quotient); the quotient HigherQuotient, of degree deg - 2; the division identity; an exact factor on a stop |
| RootFinders.RootFinder.FindHigher | src/zeno/util/calc/variables/algorithms/RootFinder.java:210-279 | poly becomes Dense(HigherQuotient) and the roots of x^2 + u x + v, with u, v from HigherRun (the last correction, or the guesses with no pass), are appended; the division identity and an exact factor on a stop |
| RootFinders.RootFinder.FindRoots | src/zeno/util/calc/variables/algorithms/RootFinder.java:281-302 | the roots are exactly RootsOf(p) in order; none below degree 1, the closed forms at degrees 1 and 2, between 1 and deg roots otherwise; and when every Bairstow stop was exact, every real root found is a zero of p |
| RootFinders.RootFinder.RemoveComplex | src/zeno/util/calc/variables/algorithms/RootFinder.java:61-69 | the in-place removal with i-- leaves exactly the real roots, in order |
| RootFinders.RootFinder.RealParts | src/zeno/util/calc/variables/algorithms/RootFinder.java:71-76 | a fresh array of the real parts, in order |
| RootFinders.RootFinder.FindRealRoots | src/zeno/util/calc/variables/algorithms/RootFinder.java:57-79 | the list becomes exactly the real members of RootsOf(p), in order, and the array their real parts; none below degree 1, -c0/c1 at degree 1, the real closed-form roots at degree 2, at most deg values; zeros of p when the stops were exact |
| RootFinders.RootFinder.ToArray | src/zeno/util/calc/variables/algorithms/RootFinder.java:93-97 | a fresh array holding the list in order |
| RootFinders.RootFinder.FindComplexRoots | src/zeno/util/calc/variables/algorithms/RootFinder.java:89-100 | the array holds exactly RootsOf(p) in order: none below degree 1, the closed forms at degrees 1 and 2, between 1 and deg roots otherwise; real roots are zeros of p when the stops were exact |
| RootFinders.Guess | src/zeno/util/calc/variables/algorithms/RootFinder.java:224-228 | an initial guess is never 0, and equals the ratio when the ratio is non-zero |
| RootFinders.RootFinder.Guesses | src/zeno/util/calc/variables/algorithms/RootFinder.java:224-228 | u = coef[deg-1]/coef[deg] and v = coef[deg-2]/coef[deg], each replaced by 1 when 0; both non-zero |
| RootFinders.RunFacts | src/zeno/util/calc/variables/algorithms/RootFinder.java:231-273 | the quotient the loop leaves is HigherQuotient; a stop keeps the last divisor with no remainder; with no pass u, v are the guesses |
| RootFinders.HigherQuotientDegree | src/zeno/util/calc/variables/algorithms/RootFinder.java:272-273 | the quotient findHigher goes on with has degree deg - 2, or is 0 when no pass ran |
| RootFinders.FactorSpec | src/zeno/util/calc/variables/algorithms/RootFinder.java:214-273 | everything findHigher's arithmetic establishes, on values: the outcome is HigherRun, the quotient HigherQuotient of degree deg - 2, the division identity, the exact factor on a stop, the guesses and a zero quotient with no pass |
| RootFinders.StoreOfCoefficients | src/zeno/util/calc/variables/functions/Polynomial.java:99-106 | a normal store with the given coefficients is the one the coefficient constructor builds |
| RootFinders.RootsOfCount | src/zeno/util/calc/variables/algorithms/RootFinder.java:281-302 | findRoots finds at least one root for degree 1 or more and at most one per degree |
| RootFinders.RootsOfStep | src/zeno/util/calc/variables/algorithms/RootFinder.java:286-301 | above degree 2 the roots are those of findHigher's divisor followed by those of its quotient |
| RootFinders.RootsOfPadded | src/zeno/util/calc/variables/algorithms/RootFinder.java:283 | solving the copy of p gives the same roots and the same stops as solving p |
| RootFinders.AccountStart | src/zeno/util/calc/variables/algorithms/RootFinder.java:283-284 | the copy with an empty list starts the account: nothing found, the copy still to be solved |
| RootFinders.HigherAccount | src/zeno/util/calc/variables/algorithms/RootFinder.java:300 | a findHigher step keeps the account: found roots then the quotient's are the roots of p, and zeros stay zeros while the stops are exact |
| RootFinders.LowAccount | src/zeno/util/calc/variables/algorithms/RootFinder.java:286-298 | the last step at degree 2 or less settles the account: the list is RootsOf(p), and its real roots are zeros of p when the stops were exact |
| RootFinders.LowStep | src/zeno/util/calc/variables/algorithms/RootFinder.java:286-298 | at degree 2 or less the closed form completes RootsOf(p) and no further run is needed |
| RootFinders.HigherStepRoots | src/zeno/util/calc/variables/algorithms/RootFinder.java:300 | appending the divisor's roots and going on with the quotient keeps found-then-remaining equal to RootsOf(p) |
| RootFinders.HigherStepExact | src/zeno/util/calc/variables/algorithms/RootFinder.java:300 | p's runs all stop early exactly when the runs so far, this one and the quotient's do |
| RootFinders.RootsOfFacts | src/zeno/util/calc/variables/algorithms/RootFinder.java:281-302 | RootsOf is empty below degree 1, the closed forms at degrees 1 and 2, between 1 and deg roots otherwise, and needs no run at degree 2 or less |
| RootFinders.RootFinder.Deflate | src/zeno/util/calc/variables/algorithms/RootFinder.java:286-301 | the loop with its breaks leaves exactly RootsOf(p) and reports whether every run stopped early; real roots are zeros of p when they did |
| RootFinders.RealOnlyLength | src/zeno/util/calc/variables/algorithms/RootFinder.java:61-69 | the filter never lengthens the list |

## Left out

- Floating point: coefficients are exact `real`s. Rounding, the `float` casts in `findLinear`, `findQuadratic` and `findHigher`, `-0.0`, NaN and the infinities are not modelled.
- Division by zero: where the source can divide by zero (`findLinear` on a zero slope, the Bairstow corrections when `dnom` is 0, `findQuadratic` with `a` = 0, the initial guesses of `findHigher`, and `Rational.evaluate` at a zero of the divisor), the model's division gives 0 instead of a NaN or an infinity.
- Rationals.Rational.Evaluate: at a zero of the divisor the model returns the quotient's value, since its division by zero gives 0. The source returns an infinity or NaN there. The contract speaks only of points where the divisor does not vanish.
- Polynomials.Polynomial.OverScalar: requires `val` to be non-zero. `over(0.0)` in the source stores infinities or NaN, which the model does not represent.
- Square roots and `Doubles.parse` are function parameters. Every fact about a root is stated for an argument where the given square root is exact.
- Negative degrees (`times(int, double)` or `Term` with a negative degree) are not modelled: degrees are natural numbers.
- Polynomials.Polynomial.Parse: requires the variable to be a single letter. The source takes any string and splits on it followed by `\^` as a regular expression, so a longer name or a regular-expression metacharacter (`.` in `"1.5^2"`) is read differently. A `NumberFormatException` is a `None` result. `Integers.parse` is read as a decimal digit parser bounded by the `int` range.
- `toString`, the `Messenger` messages, `instance()` and `Rational`'s display are left out: they only format text.
- `over(Polynomial)` only builds a `Rational`. `ComplexRoots` and `RealRoots` only forward to a shared static `RootFinder`. Those forwarders, and any concurrent use of that shared finder, are not part of this model.
- Rationals.Rational.constructor: requires a divisor of degree at least 1. With a constant divisor the source's loop never ends (`Rationals.ConstantDivisorKeepsLooping`).
- Polynomials.Polynomial.Evaluate: requires the store to hold degree 0 (or be empty), which every public constructor and operation guarantees. Without it the source leaves out the lowest power.
- RootFinders.RootFinder.FindHigher: requires degree at least 2, as its only caller guarantees.
- RootFinders.RootFinder.FindRoots: its list is exactly `RootsOf(p)`, a definition that follows the code step by step. The model does not state that Bairstow converges or how accurate its roots are. Only exact stops are shown to give true zeros.
- RootFinders.RootFinder.FindQuadratic: appends the two roots of a pair in one step, not in two `add` calls.
- `findRealRoots` and `findComplexRoots` start from a fresh constant-0 `poly` and an empty root list, where the source starts from `null`.
- Root order follows the code: for `b` = 0 with `c/a` > 0, the pair is `-i sqrt(c/a)` first, then `+i sqrt(c/a)`.

## Findings

| source | as written | input that shows it | evidently intended | confidence | as-written member | corrected member |
|---|---|---|---|---|---|---|
| src/zeno/util/calc/variables/functions/Polynomial.java:48-52 | a text starting with `-` becomes `+-...`, so `split("\\+")` yields an empty first piece, and the empty piece is read as the coefficient 1 at degree 0 | `"-x"` reads as `1 - x` | empty pieces are skipped, so `"-x"` reads as `-x` | high, not executed | PolynomialText.NegatedVariableText | PolynomialText.SignedVariableText |

`Polynomials.Polynomial.Parse` keeps the reading as written. The corrected reading is
`PolynomialText.SignedTerms`, which skips empty pieces. `PolynomialText.SignedTermsAgree` proves
that the two readings agree on every text that has no empty piece.
