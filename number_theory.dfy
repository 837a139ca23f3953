/**
 * Divisibility and the greatest common divisor over the naturals.
 *
 * The page relies on the host language's `math.gcd`; that library routine is
 * modelled here by Euclid's algorithm on non-negative integers, which is what
 * it computes for the non-negative arguments the page passes to it
 * (in particular gcd(0, x) == x and gcd(0, 0) == 0).
 */
module NumberTheory {

  /** `d` divides `n`; zero divides only zero. */
  predicate Divides(d: nat, n: int)
  {
    if d == 0 then n == 0 else n % d == 0
  }

  /** A product is divisible by each of its positive factors. */
  lemma DividesProduct(d: nat, k: int)
    requires d > 0
    ensures Divides(d, d * k) && (d * k) / d == k
  {
  }

  /** A positive divisor of `n` leaves `n` as itself times the quotient. */
  lemma DividesElim(d: nat, n: int)
    requires d > 0 && Divides(d, n)
    ensures n == d * (n / d)
  {
  }

  /** Divisibility is closed under integer linear combinations. */
  lemma DividesCombination(d: nat, p: int, q: int, x: int, y: int)
    requires d > 0 && Divides(d, p) && Divides(d, q)
    ensures Divides(d, p * x + q * y)
  {
    var s, t := p / d, q / d;
    DividesElim(d, p);
    DividesElim(d, q);
    calc {
      p * x + q * y;
      (d * s) * x + (d * t) * y;
      { assert (d * s) * x == d * (s * x); assert (d * t) * y == d * (t * y); }
      d * (s * x) + d * (t * y);
      d * (s * x + t * y);
    }
    DividesProduct(d, s * x + t * y);
  }

  /** The only positive divisor of 1 is 1 itself. */
  lemma DividesOne(d: nat)
    requires Divides(d, 1)
    ensures d == 1
  {
  }

  /** A positive multiple of a positive number is at least that number. */
  lemma DivisorBounded(d: nat, n: int)
    requires d > 0 && n > 0 && Divides(d, n)
    ensures d <= n
  {
    DividesElim(d, n);
  }

  /**
   * Euclid's algorithm, as `math.gcd` computes it on non-negative integers.
   * The result divides both arguments and is positive unless both are zero.
   */
  function Gcd(a: nat, b: nat): (g: nat)
    ensures Divides(g, a) && Divides(g, b)
    ensures (a > 0 || b > 0) <==> g > 0
    decreases b
  {
    if b == 0 then a
    else
      var g := Gcd(b, a % b);
      GcdStep(g, a, b);
      g
  }

  /** If `g` divides `b` and `a % b`, it divides `a` as well. */
  lemma GcdStep(g: nat, a: nat, b: nat)
    requires b > 0
    requires Divides(g, b) && Divides(g, a % b)
    ensures Divides(g, a)
  {
    assert a == b * (a / b) + a % b;
    DividesCombination(g, b, a % b, a / b, 1);
  }

  /**
   * Bezout's identity: the gcd is an integer combination of the arguments.
   * The coefficients follow the recursion of `Gcd` itself.
   */
  lemma {:induction false} Bezout(a: nat, b: nat) returns (x: int, y: int)
    ensures Gcd(a, b) == a * x + b * y
    decreases b
  {
    if b == 0 {
      x, y := 1, 0;
    } else {
      var x', y' := Bezout(b, a % b);
      var q := a / b;
      assert a % b == a - b * q;
      x, y := y', x' - q * y';
      calc {
        Gcd(a, b);
        Gcd(b, a % b);
        b * x' + (a % b) * y';
        b * x' + (a - b * q) * y';
        { assert (a - b * q) * y' == a * y' - b * (q * y'); }
        b * x' + a * y' - b * (q * y');
        { assert b * x' - b * (q * y') == b * (x' - q * y'); }
        a * y' + b * (x' - q * y');
      }
    }
  }

  /** Every common divisor of `a` and `b` divides their gcd: it is the greatest. */
  lemma CommonDivisorDividesGcd(a: nat, b: nat, d: nat)
    requires d > 0 && Divides(d, a) && Divides(d, b)
    ensures Divides(d, Gcd(a, b))
  {
    var x, y := Bezout(a, b);
    DividesCombination(d, a, b, x, y);
  }

  /** gcd(0, x) == x: the convention the reduced sum relies on when the sum is zero. */
  lemma GcdZeroLeft(b: nat)
    ensures Gcd(0, b) == b
  {
    if b > 0 {
      assert 0 % b == 0;
      assert Gcd(0, b) == Gcd(b, 0);
    }
  }

  /** Cancelling a positive common factor from an integer combination equal to it. */
  lemma CancelCommonFactor(g: nat, a': int, b': int, x: int, y: int)
    requires g > 0 && (g * a') * x + (g * b') * y == g
    ensures a' * x + b' * y == 1
  {
    assert (g * a') * x == g * (a' * x);
    assert (g * b') * y == g * (b' * y);
    assert g * (a' * x + b' * y) == g * 1;
  }

  /**
   * Dividing both arguments by their gcd leaves two coprime numbers:
   * the quotients have gcd 1.
   */
  lemma CoprimeAfterDivision(a: nat, b: nat)
    requires a > 0 || b > 0
    ensures Gcd(a / Gcd(a, b), b / Gcd(a, b)) == 1
  {
    var g := Gcd(a, b);
    var a', b' := a / g, b / g;
    DividesElim(g, a);
    DividesElim(g, b);
    var x, y := Bezout(a, b);
    CancelCommonFactor(g, a', b', x, y);
    assert a' > 0 || b' > 0;
    var h := Gcd(a', b');
    DividesCombination(h, a', b', x, y);
    DividesOne(h);
  }
}
