/** Divisibility, primes, greatest common divisors and powers modulo a number. */
module NumberTheory {
  import opened Powers

  predicate Divides(d: nat, n: int) {
    d > 0 && n % d == 0
  }

  ghost predicate Prime(n: nat) {
    n > 1 && forall d :: 2 <= d < n ==> !Divides(d, n)
  }

  lemma DividesProduct(d: nat, n: int)
    requires d > 0
    ensures Divides(d, n) <==> exists k :: n == k * d
  {
    assert n == (n / d) * d + n % d;
    if k :| n == k * d {
      DivModUnique(n, d, k, 0);
    }
  }

  lemma DividesLinear(d: nat, x: int, y: int, k: int)
    requires Divides(d, x)
    ensures Divides(d, y) <==> Divides(d, y + k * x)
  {
    DividesProduct(d, x);
    var j :| x == j * d;
    assert k * x == (k * j) * d;
    ModAddMultiple(y, k * j, d);
  }

  lemma DividesMultiple(d: nat, x: int, k: int)
    requires Divides(d, x)
    ensures Divides(d, k * x)
  {
    DividesLinear(d, x, 0, k);
  }

  lemma DividesTransitive(c: nat, d: nat, n: int)
    requires Divides(c, d) && Divides(d, n)
    ensures Divides(c, n)
  {
    assert n == d * (n / d) + n % d;
    DividesMultiple(c, d, n / d);
  }

  lemma DividesBound(d: nat, n: nat)
    requires Divides(d, n) && n > 0
    ensures d <= n
  {
    if d > n {
      DivModUnique(n, d, 0, n);
    }
  }

  /** A number divides `x` exactly when it divides the remainder modulo a
      multiple of itself. */
  lemma DividesRemainder(d: nat, x: int, m: nat)
    requires m > 0 && Divides(d, m)
    ensures Divides(d, x) <==> Divides(d, x % m)
  {
    assert x % m == x + (-(x / m)) * m;
    DividesLinear(d, m, x, -(x / m));
  }

  /** Euclid's lemma, by shrinking the first factor modulo the prime. */
  lemma {:induction false} EuclidBelow(p: nat, a: nat, b: int)
    requires Prime(p) && 0 < a < p && Divides(p, a * b)
    ensures Divides(p, b)
    decreases a
  {
    if a > 1 {
      var r, k := p % a, p / a;
      assert !Divides(a, p);
      hide Divides;
      RemainderTimes(p, a, b, k, r);
      DividesProduct(p, b * p);
      DividesLinear(p, a * b, b * p, -k);
      EuclidBelow(p, r, b);
    }
  }

  lemma RemainderTimes(p: int, a: int, b: int, k: int, r: int)
    requires p == a * k + r
    ensures r * b == b * p + -k * (a * b)
  {
    assert r == p - a * k;
  }

  lemma Euclid(p: nat, a: int, b: int)
    requires Prime(p) && Divides(p, a * b)
    ensures Divides(p, a) || Divides(p, b)
  {
    if !Divides(p, a) {
      var r, k := a % p, a / p;
      assert a == k * p + r;
      assert r * b == a * b + (-k * b) * p;
      ModAddMultiple(a * b, -k * b, p);
      EuclidBelow(p, r, b);
    }
  }

  // Greatest common divisors.

  function Gcd(x: nat, y: nat): nat
    decreases y
  {
    if y == 0 then x else Gcd(y, x % y)
  }

  /** The common divisors of two numbers are the divisors of their gcd. */
  lemma {:induction false} GcdDivisors(x: nat, y: nat, d: nat)
    requires d > 0
    ensures Divides(d, Gcd(x, y)) <==> Divides(d, x) && Divides(d, y)
    decreases y
  {
    if y == 0 {
      assert 0 % d == 0;
    } else {
      GcdDivisors(y, x % y, d);
      assert x % y == x + (-(x / y)) * y;
      if Divides(d, y) {
        DividesLinear(d, y, x, -(x / y));
      }
    }
  }

  lemma {:induction false} GcdPositive(x: nat, y: nat)
    requires x > 0 || y > 0
    ensures Gcd(x, y) > 0
    decreases y
  {
    if y > 0 {
      GcdPositive(y, x % y);
    }
  }

  /** A number with the same divisors as the gcd is the gcd. */
  lemma GcdUnique(x: nat, y: nat, g: nat)
    requires (x > 0 || y > 0) && g > 0
    requires forall d: nat :: d > 0 ==> (Divides(d, g) <==> Divides(d, x) && Divides(d, y))
    ensures g == Gcd(x, y)
  {
    GcdPositive(x, y);
    var h := Gcd(x, y);
    DivModUnique(g, g, 1, 0);
    DivModUnique(h, h, 1, 0);
    GcdDivisors(x, y, g);
    GcdDivisors(x, y, h);
    DividesBound(g, h);
    DividesBound(h, g);
  }

  // Powers modulo a number.

  lemma ModProduct(x: nat, y: nat, m: nat)
    requires m > 0
    ensures (x % m) * y % m == x * y % m
  {
    assert x == m * (x / m) + x % m;
    assert x * y == (x % m) * y + (x / m * y) * m;
    ModAddMultiple((x % m) * y, x / m * y, m);
  }

  lemma ModProductBoth(x: nat, y: nat, m: nat)
    requires m > 0
    ensures (x % m) * (y % m) % m == x * y % m
  {
    ModProduct(x, y % m, m);
    ModProduct(y, x, m);
    assert x * (y % m) == (y % m) * x;
  }

  lemma {:induction false} ModPower(x: nat, n: nat, m: nat)
    requires m > 0
    ensures Pow(x % m, n) % m == Pow(x, n) % m
  {
    if n > 0 {
      ModPower(x, n - 1, m);
      ModProductBoth(Pow(x % m, n - 1), x % m, m);
      ModProductBoth(Pow(x, n - 1), x, m);
      assert x % m % m == x % m by { DivModUnique(x % m, m, 0, x % m); }
    }
  }

  // Fermat's little theorem, from the binomial theorem.

  function Binomial(n: nat, k: nat): nat {
    if k == 0 then 1 else if n == 0 then 0 else Binomial(n - 1, k) + Binomial(n - 1, k - 1)
  }

  lemma {:induction false} BinomialAbove(n: nat, k: nat)
    requires n < k
    ensures Binomial(n, k) == 0
  {
    if n > 0 {
      BinomialAbove(n - 1, k);
      BinomialAbove(n - 1, k - 1);
    }
  }

  lemma {:induction false} BinomialDiagonal(n: nat)
    ensures Binomial(n, n) == 1
  {
    if n > 0 {
      BinomialDiagonal(n - 1);
      BinomialAbove(n - 1, n);
    }
  }

  lemma {:induction false} Absorption(n: nat, k: nat)
    requires n > 0 && k > 0
    ensures k * Binomial(n, k) == n * Binomial(n - 1, k - 1)
  {
    if n == 1 {
      BinomialAbove(0, k);
      if k > 1 {
        BinomialAbove(0, k - 1);
      }
    } else if k == 1 {
      Absorption(n - 1, 1);
    } else {
      Absorption(n - 1, k);
      Absorption(n - 1, k - 1);
      AbsorptionStep(n, k, Binomial(n - 1, k), Binomial(n - 1, k - 1), Binomial(n - 2, k - 1), Binomial(n - 2, k - 2));
    }
  }

  lemma AbsorptionStep(n: int, k: int, a: int, b: int, c: int, d: int)
    requires k * a == (n - 1) * c && (k - 1) * b == (n - 1) * d && b == c + d
    ensures k * (a + b) == n * b
  {
    assert k * (a + b) == k * a + (k - 1) * b + b;
    assert (n - 1) * b == (n - 1) * c + (n - 1) * d;
  }

  /** The first k+1 terms of the expansion of (x+1)^n. */
  function Expansion(n: nat, k: nat, x: nat): nat {
    Binomial(n, k) * Pow(x, k) + if k == 0 then 0 else Expansion(n, k - 1, x)
  }

  lemma {:induction false} ExpansionStep(n: nat, k: nat, x: nat)
    ensures (x + 1) * Expansion(n, k, x) == Expansion(n + 1, k, x) + Binomial(n, k) * Pow(x, k + 1)
  {
    if k > 0 {
      ExpansionStep(n, k - 1, x);
      ExpansionAlgebra(x, Binomial(n, k), Binomial(n, k - 1), Pow(x, k), Expansion(n, k - 1, x), Expansion(n + 1, k - 1, x));
    }
  }

  lemma ExpansionAlgebra(x: int, a: int, b: int, p: int, e: int, f: int)
    requires (x + 1) * e == f + b * p
    ensures (x + 1) * (a * p + e) == (a + b) * p + f + a * (p * x)
  {
    assert (x + 1) * (a * p + e) == x * (a * p) + a * p + (x + 1) * e;
  }

  lemma {:induction false} BinomialTheorem(n: nat, x: nat)
    ensures Pow(x + 1, n) == Expansion(n, n, x)
  {
    hide Expansion, Binomial;
    if n == 0 {
      LastTerm(0, x);
    } else {
      hide Pow;
      BinomialTheorem(n - 1, x);
      ExpansionStep(n - 1, n - 1, x);
      LastTerm(n - 1, x);
      LastTerm(n, x);
      FirstFactor(x + 1, n);
    }
  }

  lemma LastTerm(n: nat, x: nat)
    ensures Binomial(n, n) * Pow(x, n) == Pow(x, n)
    ensures Expansion(n, n, x) == Pow(x, n) + if n == 0 then 0 else Expansion(n, n - 1, x)
  {
    hide Binomial;
    BinomialDiagonal(n);
  }

  lemma PrimeDividesBinomial(p: nat, k: nat)
    requires Prime(p) && 0 < k < p
    ensures Divides(p, Binomial(p, k))
  {
    Absorption(p, k);
    var c, d := Binomial(p, k), Binomial(p - 1, k - 1);
    hide Divides, Binomial, Prime;
    DividesEqual(p, k * c, d);
    EuclidBelow(p, k, c);
  }

  lemma DividesEqual(p: nat, x: int, d: int)
    requires p > 0 && x == p * d
    ensures Divides(p, x)
  {
    hide Divides;
    assert x == d * p;
    DividesProduct(p, x);
  }

  lemma {:induction false} MiddleTermsVanish(p: nat, k: nat, x: nat)
    requires Prime(p) && k < p
    ensures Expansion(p, k, x) % p == 1
  {
    if k > 0 {
      MiddleTermsVanish(p, k - 1, x);
      PrimeDividesBinomial(p, k);
      hide Divides, Binomial, Pow;
      DividesMultiple(p, Binomial(p, k), Pow(x, k));
      DividesProduct(p, Pow(x, k) * Binomial(p, k));
      var j :| Pow(x, k) * Binomial(p, k) == j * p;
      ModAddMultiple(Expansion(p, k - 1, x), j, p);
    } else {
      DivModUnique(1, p, 0, 1);
    }
  }

  lemma {:induction false} FermatAll(p: nat, x: nat)
    requires Prime(p)
    ensures Divides(p, Pow(x, p) - x)
  {
    hide Divides, Expansion, Prime;
    PrimeAboveOne(p);
    if x == 0 {
      DividesProduct(p, 0 * p);
    } else {
      hide Pow;
      FermatAll(p, x - 1);
      BinomialTheorem(p, x - 1);
      MiddleTermsVanish(p, p - 1, x - 1);
      LastTerm(p, x - 1);
      NextResidue(p, x, Pow(x - 1, p), Expansion(p, p - 1, x - 1));
    }
  }

  /** x^p - x when (x-1)^p - (x-1) and the middle terms are multiples of p. */
  lemma NextResidue(p: nat, x: nat, power: int, e: nat)
    requires p > 1 && Divides(p, power - (x - 1)) && e % p == 1
    ensures Divides(p, power + e - x)
  {
    hide Divides;
    CongruentOne(p, e);
    DividesLinear(p, e - 1, power - (x - 1), 1);
  }

  lemma PrimeAboveOne(p: nat)
    requires Prime(p)
    ensures p > 1
  {
  }

  lemma FermatLittle(p: nat, x: nat)
    requires Prime(p) && !Divides(p, x)
    ensures Pow(x, p - 1) % p == 1
  {
    FermatAll(p, x);
    var y := Pow(x, p - 1);
    assert Pow(x, p) - x == x * (y - 1);
    Euclid(p, x, y - 1);
    CongruentOne(p, y);
  }

  lemma CongruentOne(p: nat, y: int)
    requires p > 1
    ensures Divides(p, y - 1) <==> y % p == 1
    ensures Divides(p, y + 1) <==> y % p == p - 1
  {
    var q, r := y / p, y % p;
    assert y == q * p + r;
    DivModUnique(y - 1, p, if r == 0 then q - 1 else q, if r == 0 then p - 1 else r - 1);
    DivModUnique(y + 1, p, if r == p - 1 then q + 1 else q, if r == p - 1 then 0 else r + 1);
  }

  /** The square roots of 1 modulo a prime are 1 and -1. */
  lemma SquareRootsOfOne(p: nat, y: nat)
    requires Prime(p) && y * y % p == 1
    ensures y % p == 1 || y % p == p - 1
  {
    CongruentOne(p, y * y);
    assert y * y - 1 == (y - 1) * (y + 1);
    Euclid(p, y - 1, y + 1);
    CongruentOne(p, y);
  }
}
