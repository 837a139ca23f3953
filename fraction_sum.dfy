/**
 * The arithmetic of the fraction-addition page (SumFrac01.py): the least
 * common multiple of the two denominators, the factor that brings each
 * fraction to it, the check of the factors the learner types in, and the sum
 * reduced to lowest terms that is shown once both factors are right.
 *
 * Python integers are unbounded, so every quantity is a mathematical integer;
 * Python's `//` only ever sees non-negative operands here, where it agrees with
 * Dafny's `/`.
 */
module FractionSum {
  import opened NumberTheory

  /** A fraction as the page displays it: numerator over denominator. */
  datatype Fraction = Fraction(num: nat, den: nat)

  /** Two fractions denote the same rational number (cross-multiplication). */
  predicate SameValue(p: Fraction, q: Fraction)
  {
    p.num * q.den == q.num * p.den
  }

  /** Rational addition, the reference the displayed sum is measured against. */
  function Add(p: Fraction, q: Fraction): (r: Fraction)
    ensures p.den >= 1 && q.den >= 1 ==> r.den >= 1
  {
    Fraction(p.num * q.den + q.num * p.den, p.den * q.den)
  }

  /** A fraction in lowest terms with a positive denominator. */
  predicate LowestTerms(p: Fraction)
  {
    p.den >= 1 && Gcd(p.num, p.den) == 1
  }

  function Abs(x: int): (r: nat)
    ensures r == x || r == -x
  {
    if x < 0 then -x else x
  }

  // ---------------------------------------------------------------------------
  // get_lcm
  // ---------------------------------------------------------------------------

  /**
   * `get_lcm(a, b)`: |a*b| // gcd(a, b), and 0 when either argument is 0.
   * For non-zero arguments the result is a positive common multiple of both.
   */
  function Lcm(a: int, b: int): (r: nat)
    ensures a == 0 || b == 0 ==> r == 0
    ensures a != 0 && b != 0 ==> r >= 1 && Divides(Abs(a), r) && Divides(Abs(b), r)
  {
    if a != 0 && b != 0 then
      assert Abs(a * b) == Abs(a) * Abs(b);
      LcmOfPositives(Abs(a), Abs(b));
      Abs(a * b) / Gcd(Abs(a), Abs(b))
    else 0
  }

  /**
   * For positive `a` and `b`, a*b / gcd(a, b) is `a` times the cofactor of `b`
   * and the cofactor of `a` times `b`; both cofactors are between 1 and the
   * number they come from.
   */
  lemma LcmOfPositives(a: nat, b: nat)
    requires a >= 1 && b >= 1
    ensures var g := Gcd(a, b);
      && a * b / g == a * (b / g) == (a / g) * b
      && 1 <= b / g <= b && 1 <= a / g <= a
      && Divides(a, a * b / g) && Divides(b, a * b / g)
  {
    var g := Gcd(a, b);
    var l := a * b / g;
    assert l == (a / g) * b by {
      ProductOverDivisor(g, a, b);
    }
    assert l == a * (b / g) by {
      ProductOverDivisor(g, b, a);
      assert b * a == a * b;
    }
    assert 1 <= a / g <= a by {
      QuotientBounds(g, a);
    }
    assert 1 <= b / g <= b by {
      QuotientBounds(g, b);
    }
    assert Divides(a, l) by {
      DividesProduct(a, b / g);
    }
    assert Divides(b, l) by {
      DividesProduct(b, a / g);
      assert (a / g) * b == b * (a / g);
    }
  }

  /** Dividing a product by a divisor of its first factor divides that factor. */
  lemma ProductOverDivisor(g: nat, a: nat, b: nat)
    requires g >= 1 && Divides(g, a)
    ensures a * b / g == (a / g) * b
  {
    DividesElim(g, a);
    var a' := a / g;
    assert a * b == g * (a' * b) by {
      assert a * b == (g * a') * b;
    }
    DividesProduct(g, a' * b);
  }

  /** The quotient of a positive number by one of its divisors lies between 1 and the number. */
  lemma QuotientBounds(g: nat, a: nat)
    requires g >= 1 && a >= 1 && Divides(g, a)
    ensures 1 <= a / g <= a
  {
    DividesElim(g, a);
    var a' := a / g;
    assert g * a' >= 1 * a';
  }

  /**
   * Minimality of `get_lcm`: every positive common multiple `m` of non-zero
   * `a` and `b` is a multiple of `Lcm(a, b)`, so no smaller positive number is
   * divisible by both.
   */
  lemma LcmIsLeast(a: int, b: int, m: int)
    requires a != 0 && b != 0
    requires m >= 1 && Divides(Abs(a), m) && Divides(Abs(b), m)
    ensures Divides(Lcm(a, b), m) && Lcm(a, b) <= m
  {
    assert Abs(a * b) == Abs(a) * Abs(b);
    LcmLeastPositive(Abs(a), Abs(b), m);
  }

  lemma LcmLeastPositive(a: nat, b: nat, m: int)
    requires a >= 1 && b >= 1
    requires m >= 1 && Divides(a, m) && Divides(b, m)
    ensures Divides(a * b / Gcd(a, b), m) && a * b / Gcd(a, b) <= m
  {
    var g := Gcd(a, b);
    var l := a * b / g;
    LcmTimesGcd(a, b);
    var x, y := Bezout(a, b);
    var k := CommonMultipleTimesGcd(a, b, m, g, x, y);
    MultipleFromScaled(g, l, k, m, a * b);
  }

  /** The product of two positive numbers is their lcm times their gcd. */
  lemma LcmTimesGcd(a: nat, b: nat)
    requires a >= 1 && b >= 1
    ensures var g := Gcd(a, b); a * b / g >= 1 && a * b == g * (a * b / g)
  {
    var g := Gcd(a, b);
    LcmOfPositives(a, b);
    DividesElim(g, a);
    MulAssoc(g, a / g, b);
  }

  /** From g*m == (g*l)*k with g, l, m positive: `l` divides `m` and is at most `m`. */
  lemma MultipleFromScaled(g: int, l: int, k: int, m: int, ab: int)
    requires g >= 1 && l >= 1 && m >= 1
    requires ab == g * l && g * m == ab * k
    ensures Divides(l, m) && l <= m
  {
    assert m == l * k by {
      MulAssoc(g, l, k);
      CancelLeft(g, m, l * k);
    }
    DividesProduct(l, k);
    DivisorBounded(l, m);
  }

  lemma MulAssoc(x: int, y: int, z: int)
    ensures (x * y) * z == x * (y * z)
  {
  }

  /**
   * A common multiple `m` of `a` and `b`, multiplied by the Bezout combination
   * a*x + b*y, is a multiple of a*b.
   */
  lemma CommonMultipleTimesGcd(a: nat, b: nat, m: int, g: int, x: int, y: int) returns (k: int)
    requires a >= 1 && b >= 1 && Divides(a, m) && Divides(b, m)
    requires g == a * x + b * y
    ensures g * m == (a * b) * k
  {
    DividesElim(a, m);
    DividesElim(b, m);
    var s, t := m / a, m / b;
    k := t * x + s * y;
    calc {
      g * m;
      (a * x + b * y) * m;
      (a * x) * m + (b * y) * m;
      { assert (a * x) * m == (a * x) * (b * t) == (a * b) * (t * x); }
      (a * b) * (t * x) + (b * y) * m;
      { assert (b * y) * m == (b * y) * (a * s) == (a * b) * (s * y); }
      (a * b) * (t * x) + (a * b) * (s * y);
      (a * b) * k;
    }
  }

  // ---------------------------------------------------------------------------
  // Common denominator and correct factors
  // ---------------------------------------------------------------------------

  /** The target denominator and the factor each fraction must be scaled by. */
  datatype CommonDenominator = CommonDenominator(lcm: nat, factor1: nat, factor2: nat)

  /**
   * `common_denominator = get_lcm(d1, d2)`, `correct_factorK = common_denominator // dK`.
   * The common denominator is a positive common multiple of both denominators,
   * no larger than any other, and each correct factor scales its denominator
   * exactly onto it while never exceeding the other denominator.
   */
  function ComputeCommonDenominator(d1: nat, d2: nat): (r: CommonDenominator)
    requires d1 >= 1 && d2 >= 1
    ensures r.lcm >= 1 && d1 * r.factor1 == r.lcm && d2 * r.factor2 == r.lcm
    ensures 1 <= r.factor1 <= d2 && 1 <= r.factor2 <= d1
    ensures forall m :: m >= 1 && Divides(d1, m) && Divides(d2, m) ==> r.lcm <= m
  {
    var l := Lcm(d1, d2);
    CorrectFactors(d1, d2);
    LcmIsLeastAll(d1, d2);
    CommonDenominator(l, l / d1, l / d2)
  }

  /** Each correct factor is the cofactor of the other denominator. */
  lemma CorrectFactors(d1: nat, d2: nat)
    requires d1 >= 1 && d2 >= 1
    ensures var l := Lcm(d1, d2);
      && l >= 1 && d1 * (l / d1) == l && d2 * (l / d2) == l
      && 1 <= l / d1 <= d2 && 1 <= l / d2 <= d1
  {
    var g := Gcd(d1, d2);
    var c1, c2 := d2 / g, d1 / g;
    assert Lcm(d1, d2) == d1 * c1 == c2 * d2 && 1 <= c1 <= d2 && 1 <= c2 <= d1 by {
      LcmOfPositives(d1, d2);
    }
    DividesProduct(d1, c1);
    DividesProduct(d2, c2);
  }

  lemma LcmIsLeastAll(d1: nat, d2: nat)
    requires d1 >= 1 && d2 >= 1
    ensures forall m :: m >= 1 && Divides(d1, m) && Divides(d2, m) ==> Lcm(d1, d2) <= m
  {
    forall m | m >= 1 && Divides(d1, m) && Divides(d2, m)
      ensures Lcm(d1, d2) <= m
    {
      LcmIsLeast(d1, d2, m);
    }
  }

  /**
   * With both denominators in the input range [1, 20], each correct factor
   * lies in the [1, 20] range the factor input accepts, so the learner can
   * always enter it.
   */
  lemma CorrectFactorsEnterable(d1: nat, d2: nat)
    requires 1 <= d1 <= 20 && 1 <= d2 <= 20
    ensures var cd := ComputeCommonDenominator(d1, d2);
      1 <= cd.factor1 <= 20 && 1 <= cd.factor2 <= 20
  {
  }

  // ---------------------------------------------------------------------------
  // Factor check
  // ---------------------------------------------------------------------------

  /**
   * The per-fraction success test: `factor == correct_factor and d*factor == common_denominator`.
   * An accepted factor is the correct one, the common denominator is then a
   * multiple of `d`, and dividing it by a positive `d` gives back the factor.
   */
  predicate FactorAccepted(d: nat, factor: nat, correctFactor: nat, common: nat): (ok: bool)
    ensures ok ==> factor == correctFactor && Divides(d, common)
    ensures ok && d >= 1 ==> common / d == factor
  {
    if d >= 1 then DividesProduct(d, factor); factor == correctFactor && d * factor == common
    else factor == correctFactor && d * factor == common
  }

  /**
   * Each conjunct of the factor test implies the other: a factor is accepted
   * exactly when it equals the correct factor, and exactly when it scales the
   * denominator onto the common denominator.
   */
  lemma FactorCheckConjunctsAgree(d1: nat, d2: nat, factor: nat)
    requires d1 >= 1 && d2 >= 1
    ensures var cd := ComputeCommonDenominator(d1, d2);
      && (FactorAccepted(d1, factor, cd.factor1, cd.lcm) <==> factor == cd.factor1)
      && (FactorAccepted(d1, factor, cd.factor1, cd.lcm) <==> d1 * factor == cd.lcm)
      && (FactorAccepted(d2, factor, cd.factor2, cd.lcm) <==> factor == cd.factor2)
      && (FactorAccepted(d2, factor, cd.factor2, cd.lcm) <==> d2 * factor == cd.lcm)
  {
    var cd := ComputeCommonDenominator(d1, d2);
    CancelLeft(d1, factor, cd.factor1);
    CancelLeft(d2, factor, cd.factor2);
  }

  lemma CancelLeft(d: nat, x: int, y: int)
    requires d >= 1
    ensures d * x == d * y <==> x == y
  {
    if x != y {
      assert d * x - d * y == d * (x - y);
    }
  }

  // ---------------------------------------------------------------------------
  // Scaling and the reduced sum
  // ---------------------------------------------------------------------------

  /** The displayed conversion n/d × f/f = (n·f)/(d·f): the value does not change. */
  function Scale(p: Fraction, factor: nat): (r: Fraction)
    ensures SameValue(r, p)
    ensures r.num == p.num * factor && r.den == p.den * factor
  {
    var r := Fraction(p.num * factor, p.den * factor);
    assert r.num * p.den == p.num * r.den by {
      assert (p.num * factor) * p.den == p.num * (p.den * factor);
    }
    r
  }

  /**
   * The final message: the two scaled numerators are added over the common
   * denominator and both parts are divided by gcd(sum, common). The result has
   * the value of sum/common, is in lowest terms, and is 0/1 for a zero sum.
   */
  function ReduceSum(newN1: nat, newN2: nat, common: nat): (r: Fraction)
    requires common >= 1
    ensures SameValue(r, Fraction(newN1 + newN2, common))
    ensures LowestTerms(r)
    ensures newN1 + newN2 == 0 ==> r == Fraction(0, 1)
  {
    var sum := newN1 + newN2;
    var g := Gcd(sum, common);
    ReduceByGcd(sum, common);
    Fraction(sum / g, common / g)
  }

  lemma ReduceByGcd(sum: nat, common: nat)
    requires common >= 1
    ensures var g := Gcd(sum, common);
      && SameValue(Fraction(sum / g, common / g), Fraction(sum, common))
      && LowestTerms(Fraction(sum / g, common / g))
      && (sum == 0 ==> g == common && Fraction(sum / g, common / g) == Fraction(0, 1))
  {
    var g := Gcd(sum, common);
    DividesElim(g, sum);
    DividesElim(g, common);
    var n, d := sum / g, common / g;
    assert n * common == sum * d by {
      assert n * (g * d) == (g * n) * d;
    }
    assert d >= 1 by {
      DivisorBounded(g, common);
      assert g * d == common;
    }
    CoprimeAfterDivision(sum, common);
    if sum == 0 {
      GcdZeroLeft(common);
    }
  }

  /** Cross-multiplied equality is transitive through a positive middle denominator. */
  lemma SameValueTransitive(p: Fraction, q: Fraction, s: Fraction)
    requires q.den >= 1
    requires SameValue(p, q) && SameValue(q, s)
    ensures SameValue(p, s)
  {
    calc {
      (p.num * s.den) * q.den;
      (p.num * q.den) * s.den;
      (q.num * p.den) * s.den;
      (q.num * s.den) * p.den;
      (s.num * q.den) * p.den;
      (s.num * p.den) * q.den;
    }
    CancelLeft(q.den, p.num * s.den, s.num * p.den);
  }

  /**
   * Two fractions in lowest terms with the same value are identical: the
   * reduced form the page prints is the canonical one.
   */
  lemma LowestTermsUnique(p: Fraction, q: Fraction)
    requires LowestTerms(p) && LowestTerms(q) && SameValue(p, q)
    ensures p == q
  {
    DenominatorDivides(p, q);
    DenominatorDivides(q, p);
    DivisorBounded(p.den, q.den);
    DivisorBounded(q.den, p.den);
    CancelLeft(p.den, p.num, q.num);
  }

  /** Euclid's lemma in the form needed: p.den divides q.den. */
  lemma DenominatorDivides(p: Fraction, q: Fraction)
    requires LowestTerms(p) && q.den >= 1 && SameValue(p, q)
    ensures Divides(p.den, q.den)
  {
    var x, y := Bezout(p.num, p.den);
    // q.den == q.den * (p.num * x + p.den * y)
    //       == (q.num * p.den) * x + p.den * (q.den * y)
    assert q.den == (q.num * x) * p.den + (q.den * y) * p.den by {
      calc {
        q.den;
        q.den * (p.num * x + p.den * y);
        (p.num * q.den) * x + (p.den * q.den) * y;
        (q.num * p.den) * x + (p.den * q.den) * y;
        (q.num * x) * p.den + (q.den * y) * p.den;
      }
    }
    DividesProduct(p.den, 1);
    DividesCombination(p.den, p.den, p.den, q.num * x, q.den * y);
  }

  // ---------------------------------------------------------------------------
  // The gated result
  // ---------------------------------------------------------------------------

  /** What the result section shows: the worked sum, or the prompt to fix the factors. */
  datatype SumOutcome =
    | Shown(scaled1: nat, scaled2: nat, common: nat, result: Fraction)
    | NeedCorrectFactors

  /**
   * The result section of the page. The sum is shown exactly when both entered
   * factors equal the correct ones; it is then written over the common
   * denominator, its scaled terms keep the values of n1/d1 and n2/d2, and the
   * final fraction is n1/d1 + n2/d2 in lowest terms.
   */
  function SumResult(n1: nat, d1: nat, n2: nat, d2: nat, factor1: nat, factor2: nat): (r: SumOutcome)
    requires d1 >= 1 && d2 >= 1
    ensures var cd := ComputeCommonDenominator(d1, d2);
      r.Shown? <==> factor1 == cd.factor1 && factor2 == cd.factor2
    ensures r.Shown? ==> r.common == ComputeCommonDenominator(d1, d2).lcm
    ensures r.Shown? ==> SameValue(Fraction(r.scaled1, r.common), Fraction(n1, d1))
    ensures r.Shown? ==> SameValue(Fraction(r.scaled2, r.common), Fraction(n2, d2))
    ensures r.Shown? ==> SameValue(r.result, Add(Fraction(n1, d1), Fraction(n2, d2)))
    ensures r.Shown? ==> LowestTerms(r.result)
    ensures r.Shown? && n1 == 0 && n2 == 0 ==> r.result == Fraction(0, 1)
  {
    var cd := ComputeCommonDenominator(d1, d2);
    if factor1 == cd.factor1 && factor2 == cd.factor2 then
      var newN1 := n1 * factor1;
      var newN2 := n2 * factor2;
      var result := ReduceSum(newN1, newN2, cd.lcm);
      assert Scale(Fraction(n1, d1), factor1) == Fraction(newN1, cd.lcm);
      assert Scale(Fraction(n2, d2), factor2) == Fraction(newN2, cd.lcm);
      SumOverCommonDenominator(n1, d1, n2, d2, factor1, factor2, cd.lcm);
      SameValueTransitive(result, Fraction(newN1 + newN2, cd.lcm), Add(Fraction(n1, d1), Fraction(n2, d2)));
      Shown(newN1, newN2, cd.lcm, result)
    else
      NeedCorrectFactors
  }

  /** Adding the scaled numerators over the common denominator adds the fractions. */
  lemma SumOverCommonDenominator(n1: nat, d1: nat, n2: nat, d2: nat, f1: nat, f2: nat, l: nat)
    requires d1 * f1 == l && d2 * f2 == l
    ensures SameValue(Fraction(n1 * f1 + n2 * f2, l), Add(Fraction(n1, d1), Fraction(n2, d2)))
  {
    calc {
      (n1 * f1 + n2 * f2) * (d1 * d2);
      (n1 * d2) * (d1 * f1) + (n2 * d1) * (d2 * f2);
      (n1 * d2) * l + (n2 * d1) * l;
      (n1 * d2 + n2 * d1) * l;
    }
  }

  // ---------------------------------------------------------------------------
  // Worked examples of the page's default and sample inputs
  // ---------------------------------------------------------------------------

  /** Denominators 6 and 9 meet at 18, with factors 3 and 2. */
  lemma ExampleSixAndNine()
    ensures ComputeCommonDenominator(6, 9) == CommonDenominator(18, 3, 2)
  {
    assert Gcd(6, 9) == 3 by {
      assert Gcd(6, 9) == Gcd(9, 6) == Gcd(6, 3) == Gcd(3, 0);
    }
  }

  /** 3/18 + 4/18 = 7/18, already reduced; 6/18 + 6/18 = 12/18 = 2/3. */
  lemma ExampleReducedSums()
    ensures ReduceSum(3, 4, 18) == Fraction(7, 18)
    ensures ReduceSum(6, 6, 18) == Fraction(2, 3)
  {
    assert Gcd(7, 18) == 1 by {
      assert Gcd(7, 18) == Gcd(18, 7) == Gcd(7, 4) == Gcd(4, 3) == Gcd(3, 1) == Gcd(1, 0);
    }
    assert Gcd(12, 18) == 6 by {
      assert Gcd(12, 18) == Gcd(18, 12) == Gcd(12, 6) == Gcd(6, 0);
    }
  }
}
