# Fraction-addition visualiser: verified model of its integer core

`SumFrac01.py` is a one-page interactive app that teaches the addition of two
fractions n1/d1 + n2/d2. The learner picks the denominators and numerators,
then types a factor for each fraction. The page draws each fraction as a pie
cut into d wedges, with dashed guide lines for the finer subdivision the
factor implies. It confirms each factor that brings its denominator onto the
least common multiple of d1 and d2. Once both factors are right, it shows the
sum over the common denominator and then in lowest terms.

This project models the integer logic under the widgets and the plotting:

- `number_theory.dfy` (module `NumberTheory`): divisibility and Euclid's gcd,
  standing in for the library `math.gcd` the page calls. It also proves
  Bezout's identity, that the gcd is the greatest common divisor, and that
  dividing by it leaves coprime parts.
- `fraction_sum.dfy` (module `FractionSum`): `get_lcm`, the common
  denominator and the correct factors, the per-fraction factor test, the
  displayed scaling n/d × f/f, and the gated, reduced sum. Fractions are
  compared as rationals by cross-multiplication, against the reference
  addition `Add`.
- `fraction_pie.dfy` (module `FractionPie`): `create_fraction_pie` as a
  method. Like the source, it appends the highlighted wedges, then the
  neutral ones, then the guide lines, one loop each. Angles are exact
  fractions of a turn (`Turn(k, n)` is k/n of 360 degrees). The lemmas
  prove that the wedges tile the circle, count the highlighted and neutral
  wedges, and show that the guide lines refine the wedge boundaries.

Python integers are unbounded, so the model uses unbounded integers and has
no wrap-around. Every `//` in the core sees only non-negative operands, where
Python's floor division equals Dafny's `/`.

`linspace(0, 360, total + 1)` returns total + 1 angles. For 6 wedges with
factor 3 that is 19 guide lines, the first at 0 degrees and the last at 360
degrees. Those two point the same way, so 18 distinct directions are marked.
`GuideLayout` and `GuidesDrawnIffFactorAboveOne` state the total + 1 lines;
`ExamplePies` works out the 6-by-3 case.

## Model

| member | source | states |
|---|---|---|
| `NumberTheory.Gcd` | SumFrac01.py:21 | the gcd `math.gcd` returns divides both arguments, and is positive exactly when one argument is non-zero |
| `NumberTheory.CommonDivisorDividesGcd` | SumFrac01.py:21 | every common divisor of the arguments divides the gcd, so it is the greatest common divisor |
| `NumberTheory.GcdZeroLeft` | SumFrac01.py:140 | gcd(0, x) == x, the convention the reduced sum relies on for a zero sum |
| `NumberTheory.CoprimeAfterDivision` | SumFrac01.py:140-148 | dividing two numbers (not both zero) by their gcd leaves two numbers whose gcd is 1 |
| `FractionSum.Lcm` | SumFrac01.py:19-21 | `get_lcm` is 0 when either argument is 0; otherwise it is positive and divisible by both \|a\| and \|b\| |
| `FractionSum.LcmOfPositives` | SumFrac01.py:21 | for positive a, b, a*b // gcd(a, b) equals a times b's cofactor and a's cofactor times b; each cofactor lies between 1 and its number |
| `FractionSum.LcmIsLeast` | SumFrac01.py:19-21 | for non-zero a, b, `get_lcm(a, b)` divides every positive common multiple, so no smaller positive number is divisible by both |
| `FractionSum.ComputeCommonDenominator` | SumFrac01.py:82-84 | the common denominator is a positive common multiple of d1 and d2 and is no larger than any other; d1*correct_factor1 and d2*correct_factor2 both equal it; correct_factor1 lies in [1, d2] and correct_factor2 in [1, d1] |
| `FractionSum.CorrectFactors` | SumFrac01.py:83-84 | each `common_denominator // dK` division is exact and lands between 1 and the other denominator |
| `FractionSum.CorrectFactorsEnterable` | SumFrac01.py:82-84 | for denominators in [1, 20], both correct factors lie in the [1, 20] range the factor inputs at lines 94-95 and 114-115 accept |
| `FractionSum.FactorAccepted` | SumFrac01.py:107 | the success message for a fraction appears exactly when its factor equals the correct factor and d*factor equals the common denominator (the same test at line 126); an accepted factor makes the common denominator a multiple of d, and common_denominator // d gives the factor back |
| `FractionSum.FactorCheckConjunctsAgree` | SumFrac01.py:107 | the factor test accepts exactly when the factor equals the correct factor, and exactly when d*factor equals the common denominator: either conjunct implies the other (the same holds at line 126) |
| `FractionSum.Scale` | SumFrac01.py:105-106 | the displayed (n*f)/(d*f) has the same rational value as n/d, with denominator d*f |
| `FractionSum.ReduceSum` | SumFrac01.py:136-148 | dividing sum and common denominator by their gcd gives a fraction with the value of sum/common, in lowest terms with a positive denominator, and 0/1 when the sum is 0 |
| `FractionSum.ReduceByGcd` | SumFrac01.py:140-148 | for a positive denominator, the quotients by gcd(sum, common) keep the value of sum/common and are coprime; for a zero sum the gcd is the denominator itself and the result is 0/1 |
| `FractionSum.LowestTermsUnique` | SumFrac01.py:147-148 | two fractions in lowest terms with equal value are identical, so the printed result is the one canonical reduced form |
| `FractionSum.SumOverCommonDenominator` | SumFrac01.py:136-138 | with d1*f1 == d2*f2 == L, (n1*f1 + n2*f2)/L equals n1/d1 + n2/d2 |
| `FractionSum.SumResult` | SumFrac01.py:135-151 | the sum is shown if and only if both factors equal the correct ones, and otherwise only the warning; when shown, it is over the common denominator, each scaled term keeps its fraction's value, the result equals n1/d1 + n2/d2 in lowest terms, and 0/1 for two zero numerators |
| `FractionSum.ExampleSixAndNine` | SumFrac01.py:82-84 | denominators 6 and 9 give common denominator 18 and correct factors 3 and 2 |
| `FractionSum.ExampleReducedSums` | SumFrac01.py:138-148 | 3/18 + 4/18 reduces to 7/18, and 6/18 + 6/18 reduces to 2/3 |
| `FractionPie.CreateFractionPie` | SumFrac01.py:24-56 | wedge i spans [i/d, (i+1)/d] of a turn and is highlighted exactly when i < numerator; there are max(numerator, d) wedges; guide lines appear only when d*f > d, and then at the d*f + 1 angles k/(d*f) |
| `FractionPie.WedgesTileTurn` | SumFrac01.py:34-47 | for numerator <= d there are exactly d wedges of width 1/d, laid end to end from 0 to the full turn |
| `FractionPie.WedgesCoverTurn` | SumFrac01.py:34-47 | every angle between 0 and a full turn lies inside some wedge |
| `FractionPie.WedgesOrdered` | SumFrac01.py:34-47 | a wedge ends no later than any later wedge starts, so wedges do not overlap |
| `FractionPie.HighlightedCount` | SumFrac01.py:34-47 | exactly numerator wedges are highlighted and the rest are neutral; that is d - numerator neutral wedges when numerator <= d |
| `FractionPie.BoundaryCases` | SumFrac01.py:34-47 | numerator 0 draws only neutral wedges; numerator == denominator draws only highlighted ones |
| `FractionPie.GuidesDrawnIffFactorAboveOne` | SumFrac01.py:50-53 | for d >= 1, guide lines are drawn exactly when the factor exceeds 1; there are then d*f + 1 of them, from angle 0 to the full turn |
| `FractionPie.GuidesRefineWedges` | SumFrac01.py:50-53 | with factor f > 1, the start and end of wedge i coincide with guide lines i*f and (i+1)*f |
| `FractionPie.LayoutDeterminesDiagram` | SumFrac01.py:24-56 | two diagrams for the same numerator, denominator and factor are identical: same wedge angles, same styles, same guide lines |
| `FractionPie.ExamplePies` | SumFrac01.py:34-53 | 1/6 has one highlighted wedge spanning a sixth of a turn and five neutral ones; d = 6 with factor 3 gives 19 guide lines, the first at angle 0 and the last at the full turn |

## Left out

- Streamlit page setup, sidebar inputs, columns, markdown, LaTeX, success and warning output (lines 8-14, 71-79, 87-128, 131-151) are user interface. Their input ranges appear only as preconditions: denominators at least 1, and in [1, 20] for `CorrectFactorsEnterable`. The model needs no bound on numerators or factors beyond being non-negative. The success and warning branches appear as the `Shown` and `NeedCorrectFactors` outcomes.
- Matplotlib figure, axes, `Wedge` and `Circle` patches, outer circle, colours, alpha, line styles, title, and axis limits (lines 29-31, 37-39, 45-47, 55-66) are rendering in a foreign library. A wedge keeps only its angles and whether it is highlighted.
- Floating-point geometry (`360 / denominator`, `np.linspace`, `np.deg2rad`, `np.cos`, `np.sin`) is replaced by exact turn fractions. Rounding of the plotted angles is not modelled.
- The colour choice at lines 98 and 118 is presentation only and is not modelled.
- FractionPie.CreateFractionPie: the subdivision factor is a natural number, as the factor input supplies. The source's behaviour for a negative factor is not modelled. The denominator must be at least 1; the source divides by it whenever it draws a wedge, and the input never supplies 0.
- FractionSum.ComputeCommonDenominator: requires both denominators to be at least 1. The source raises a division error for 0 at lines 83-84, and the input never supplies 0.
