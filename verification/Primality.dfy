/** `powm`, the range of a random draw, and `miller_rabin`. */
module Primality {
  import opened Powers
  import opened NumberTheory
  import opened Bits
  import opened BinaryGcd

  /** The product in an integer of twice the width; `m` is 2^width. */
  function DoubleWidthProduct(m: nat, x: nat, y: nat): nat
    requires m > 0
  {
    x * y % (m * m)
  }

  lemma ProductFits(m: nat, x: nat, y: nat)
    requires x < m && y < m
    ensures DoubleWidthProduct(m, x, y) == x * y
  {
    MulMonotone(x, m - 1, y);
    MulMonotone(y, m - 1, m);
    DivModUnique(x * y, m * m, 0, x * y);
  }

  /** One step of square-and-multiply keeps x * y^p modulo m. */
  lemma SquareStep(x: nat, y: nat, p: nat, m: nat, x': nat, y': nat)
    requires m > 0 && p > 0
    requires x' % m == (if p % 2 == 1 then x * y else x) % m && y' == y * y % m
    ensures x' * Pow(y', p / 2) % m == x * Pow(y, p) % m
  {
    var h := p / 2;
    var z := Pow(y * y, h);
    ModPower(y * y, h, m);
    ModProductBoth(x', Pow(y', h), m);
    ModProductBoth(if p % 2 == 1 then x * y else x, z, m);
    SquaredPower(y, h);
    if p % 2 == 1 {
      assert p == 2 * h + 1;
      MulAssoc(x, y, z);
    }
  }

  lemma SquaredPower(y: nat, h: nat)
    ensures Pow(y, 2 * h) == Pow(y * y, h) && Pow(y, 2 * h + 1) == y * Pow(y * y, h)
  {
    PowPow(y, 2, h);
    assert Pow(y, 2) == y * y by { assert Pow(y, 1) == y; }
  }

  lemma ResidueOfSmall(x: nat, m: nat)
    requires x < m
    ensures x % m == x
  {
    DivModUnique(x, m, 0, x);
  }

  lemma ResidueTwice(x: nat, m: nat)
    requires m > 0
    ensures x % m % m == x % m
  {
    ResidueOfSmall(x % m, m);
  }

  /** `powm`: x^p modulo m, computed in double width. `big` is 2^width. */
  method PowMod(big: nat, x: nat, p: nat, m: nat) returns (result: nat)
    requires x < big && 0 < m < big
    ensures result == Pow(x, p) % m
  {
    hide Pow, DoubleWidthProduct;
    SmallPowers(x);
    if p == 0 {
      if m > 1 {
        ResidueOfSmall(1, m);
      }
      result := if m != 1 then 1 else 0;
    } else if p == 1 {
      result := x % m;
    } else if p == 2 {
      ProductFits(big, x, x);
      result := DoubleWidthProduct(big, x, x) % m;
    } else {
      var acc: nat, y: nat, rest: nat := 1, x, p;
      while rest != 0
        invariant acc < big && y < big && (rest == 0 ==> acc < m)
        invariant acc * Pow(y, rest) % m == Pow(x, p) % m
      {
        ghost var acc0, y0 := acc, y;
        if rest % 2 != 0 {
          ProductFits(big, acc, y);
          acc := DoubleWidthProduct(big, acc, y) % m;
          ResidueTwice(acc0 * y0, m);
        }
        ProductFits(big, y, y);
        y := DoubleWidthProduct(big, y, y) % m;
        SquareStep(acc0, y0, rest, m, acc, y);
        rest := rest / 2;
        SmallPowers(y);
      }
      result := acc;
      SmallPowers(y);
      ResidueOfSmall(acc, m);
    }
  }

  /** `pow`: x^p modulo 2^width. An exponent type wider than the integer is cut
      to the integer's width first. */
  method Power(big: nat, x: nat, p: nat) returns (result: nat)
    requires 2 < big && x < big
    ensures result == Pow(x, p % big) % big
    ensures p < big ==> result == Pow(x, p) % big
  {
    hide Pow;
    if p < big {
      DivModUnique(p, big, 0, p);
    }
    SmallPowers(x);
    ResidueOfSmall(1, big);
    ResidueOfSmall(x, big);
    if p == 0 {
      result := 1;
    } else if p == 1 {
      result := x;
    } else if p == 2 {
      result := x * x % big;
    } else {
      result := 1;
      var y: nat, rest: nat := x, p % big;
      while rest != 0
        invariant result < big && result * Pow(y, rest) % big == Pow(x, p % big) % big
      {
        ghost var result0, y0 := result, y;
        if rest % 2 != 0 {
          result := result * y % big;
          ResidueTwice(result0 * y0, big);
        }
        y := y * y % big;
        SquareStep(result0, y0, rest, big, result, y);
        rest := rest / 2;
      }
      SmallPowers(y);
      ResidueOfSmall(result, big);
    }
  }

  /** `uniform_int_distribution::generate` on one raw value of the generator:
      every draw lies in [a, b], and every number of [a, b] can be drawn. */
  function Draw(big: nat, raw: nat, a: nat, b: nat): (r: nat)
    requires raw < big && a <= b < big
    ensures a <= r <= b
  {
    if a != 0 || b != big - 1 then
      ResidueOfSmall(b - a + 1, big);
      ResidueOfSmall(raw % (b - a + 1) + a, big);
      (raw % ((b - a + 1) % big) + a) % big
    else
      raw
  }

  lemma DrawReaches(big: nat, a: nat, b: nat, r: nat)
    requires a <= r <= b < big
    ensures Draw(big, r - a, a, b) == r
  {
    if a != 0 || b != big - 1 {
      ResidueOfSmall(b - a + 1, big);
      ResidueOfSmall(r - a, b - a + 1);
      ResidueOfSmall(r, big);
    }
  }

  // The small primes.

  const Primes0: seq<nat> := [3, 5, 7, 11, 13, 17, 19, 23, 29, 31, 37, 41, 43, 47, 53]
  const Primes1: seq<nat> := [59, 61, 67, 71, 73, 79, 83, 89, 97, 101]
  const Primes2: seq<nat> := [103, 107, 109, 113, 127, 131, 137, 139, 149]
  const Primes3: seq<nat> := [151, 157, 163, 167, 173, 179, 181, 191]
  const Primes4: seq<nat> := [193, 197, 199, 211, 223, 227]

  /** The table of the odd primes up to 227, here split where the five products split it. */
  const SmallPrimes: seq<nat> := Primes0 + Primes1 + Primes2 + Primes3 + Primes4

  const PP0: nat := 16294579238595022365
  const PP1: nat := 7145393598349078859
  const PP2: nat := 6408001374760705163
  const PP3: nat := 690862709424854779
  const PP4: nat := 80814592450549

  /** The product of s[i..]. */
  function Product(s: seq<nat>, i: nat): nat
    decreases |s| - i
  {
    if i >= |s| then 1 else s[i] * Product(s, i + 1)
  }

  lemma ProductsMatch()
    ensures Product(Primes0, 0) == PP0 && Product(Primes1, 0) == PP1 && Product(Primes2, 0) == PP2
    ensures Product(Primes3, 0) == PP3 && Product(Primes4, 0) == PP4
  {
    assert Product(Primes0, 12) == 43 * 47 * 53;
    assert Product(Primes0, 8) == 29 * 31 * 37 * 41 * Product(Primes0, 12);
    assert Product(Primes0, 4) == 13 * 17 * 19 * 23 * Product(Primes0, 8);
    assert Product(Primes1, 5) == 79 * 83 * 89 * 97 * 101;
    assert Product(Primes2, 5) == 131 * 137 * 139 * 149;
    assert Product(Primes3, 4) == 173 * 179 * 181 * 191;
    assert Product(Primes4, 3) == 211 * 223 * 227;
  }

  /** Divisible by none of the primes up to 13, or one of them. */
  predicate SieveSurvivor(n: nat) {
    && (n % 2 != 0 || n == 2) && (n % 3 != 0 || n == 3) && (n % 5 != 0 || n == 5)
    && (n % 7 != 0 || n == 7) && (n % 11 != 0 || n == 11) && (n % 13 != 0 || n == 13)
  }

  lemma Table0From3(n: nat)
    requires 3 <= n <= 16
    ensures SieveSurvivor(n) <==> n in Primes0
  {
  }

  lemma Table0From17(n: nat)
    requires 17 <= n <= 30
    ensures SieveSurvivor(n) <==> n in Primes0
  {
  }

  lemma Table0From31(n: nat)
    requires 31 <= n <= 44
    ensures SieveSurvivor(n) <==> n in Primes0
  {
  }

  lemma Table0From45(n: nat)
    requires 45 <= n <= 57
    ensures SieveSurvivor(n) <==> n in Primes0
  {
  }

  lemma Table1From58(n: nat)
    requires 58 <= n <= 80
    ensures SieveSurvivor(n) <==> n in Primes1
  {
  }

  lemma Table1From81(n: nat)
    requires 81 <= n <= 102
    ensures SieveSurvivor(n) <==> n in Primes1
  {
  }

  lemma Table2From103(n: nat)
    requires 103 <= n <= 125
    ensures SieveSurvivor(n) <==> n in Primes2
  {
  }

  lemma Table2From126(n: nat)
    requires 126 <= n <= 138
    ensures SieveSurvivor(n) <==> n in Primes2
  {
  }

  lemma Table2From139(n: nat)
    requires 139 <= n <= 150
    ensures SieveSurvivor(n) <==> n in Primes2
  {
  }

  lemma Table3From151(n: nat)
    requires 151 <= n <= 170
    ensures SieveSurvivor(n) <==> n in Primes3
  {
  }

  lemma Table3From171(n: nat)
    requires 171 <= n <= 192
    ensures SieveSurvivor(n) <==> n in Primes3
  {
  }

  lemma Table4From193(n: nat)
    requires 193 <= n <= 210
    ensures SieveSurvivor(n) <==> n in Primes4
  {
  }

  lemma Table4From211(n: nat)
    requires 211 <= n <= 228
    ensures SieveSurvivor(n) <==> n in Primes4
  {
  }

  lemma RowBounds(n: nat)
    ensures n in Primes0 ==> 3 <= n <= 57
    ensures n in Primes1 ==> 58 <= n <= 102
    ensures n in Primes2 ==> 103 <= n <= 150
    ensures n in Primes3 ==> 151 <= n <= 192
    ensures n in Primes4 ==> 193 <= n <= 228
  {
  }

  lemma TableSurvivors(n: nat)
    ensures n in SmallPrimes <==> 3 <= n <= 228 && SieveSurvivor(n)
  {
    hide SieveSurvivor, Primes0, Primes1, Primes2, Primes3, Primes4;
    RowBounds(n);
    if 3 <= n <= 16 {
      Table0From3(n);
    } else if 17 <= n <= 30 {
      Table0From17(n);
    } else if 31 <= n <= 44 {
      Table0From31(n);
    } else if 45 <= n <= 57 {
      Table0From45(n);
    } else if 58 <= n <= 80 {
      Table1From58(n);
    } else if 81 <= n <= 102 {
      Table1From81(n);
    } else if 103 <= n <= 125 {
      Table2From103(n);
    } else if 126 <= n <= 138 {
      Table2From126(n);
    } else if 139 <= n <= 150 {
      Table2From139(n);
    } else if 151 <= n <= 170 {
      Table3From151(n);
    } else if 171 <= n <= 192 {
      Table3From171(n);
    } else if 193 <= n <= 210 {
      Table4From193(n);
    } else if 211 <= n <= 228 {
      Table4From211(n);
    }
  }

  lemma SmallerFactor(n: nat, d: nat, e: nat, bound: nat)
    requires 2 <= d < n && n == d * e && n < bound * bound
    ensures 2 <= e < n && (if d <= e then d else e) < bound
  {
    if e >= n {
      MulMonotone(2, d, e);
    }
    if e < 2 {
      MulMonotone(e, 1, d);
    }
    if d >= bound && e >= bound {
      MulMonotone(bound, d, bound);
      MulMonotone(bound, e, d);
    }
  }

  lemma SmallFactor(n: nat, f: nat, e: nat)
    requires n == f * e && 2 <= f < 16 && f < n
    ensures !SieveSurvivor(n)
  {
    var p := if f % 2 == 0 then 2 else if f % 3 == 0 then 3 else if f % 5 == 0 then 5 else f;
    var k := f / p;
    assert p == 2 || p == 3 || p == 5 || p == 7 || p == 11 || p == 13;
    assert f == p * k;
    MulAssoc(p, k, e);
    MulGrows(p, k);
    PrimeMultiple(n, p, k * e);
  }

  lemma PrimeMultiple(n: nat, p: nat, m: nat)
    requires n == p * m && (p == 2 || p == 3 || p == 5 || p == 7 || p == 11 || p == 13) && p < n
    ensures !SieveSurvivor(n)
  {
    DivModUnique(n, p, m, 0);
    assert n % p == 0;
  }

  /** Below 256 a number is prime when no prime up to 13 divides it properly. */
  lemma SieveDecides(n: nat)
    requires 1 < n < 256
    ensures Prime(n) <==> SieveSurvivor(n)
  {
    if SieveSurvivor(n) {
      forall d: nat | 2 <= d < n && Divides(d, n) ensures false {
        var e := n / d;
        assert n == d * e;
        var f := if d <= e then d else e;
        SmallerFactor(n, d, e, 16);
        SmallFactor(n, f, if d <= e then e else d);
      }
    } else {
      assert n % 2 == 0 ==> Divides(2, n);
      assert n % 3 == 0 ==> Divides(3, n);
      assert n % 5 == 0 ==> Divides(5, n);
      assert n % 7 == 0 ==> Divides(7, n);
      assert n % 11 == 0 ==> Divides(11, n);
      assert n % 13 == 0 ==> Divides(13, n);
    }
  }

  lemma TableIsPrimes(n: nat)
    ensures n in SmallPrimes <==> n % 2 == 1 && n <= 227 && Prime(n)
  {
    hide SmallPrimes;
    TableSurvivors(n);
    if 1 < n < 256 {
      SieveDecides(n);
    }
    if n % 2 == 0 && n > 2 {
      assert Divides(2, n);
    }
  }

  /** `binary_search_unsafe` on a sorted range. */
  method BinarySearch(s: seq<nat>, value: nat) returns (found: bool)
    requires forall i, j :: 0 <= i < j < |s| ==> s[i] < s[j]
    ensures found <==> value in s
  {
    var first, count := 0, |s|;
    while count > 0
      invariant 0 <= first && 0 <= count && first + count <= |s|
      invariant forall i :: 0 <= i < first ==> s[i] < value
      invariant forall i :: first + count <= i < |s| ==> s[i] >= value
    {
      var step := count / 2;
      if s[first + step] < value {
        first, count := first + step + 1, count - (step + 1);
      } else {
        count := step;
      }
    }
    found := first != |s| && !(value < s[first]);
  }

  lemma TableSorted()
    ensures forall i, j :: 0 <= i < j < |SmallPrimes| ==> SmallPrimes[i] < SmallPrimes[j]
  {
    RowsSorted();
    forall i, j | 0 <= i < j < |SmallPrimes| ensures SmallPrimes[i] < SmallPrimes[j] {
      RowBounds(SmallPrimes[i]);
      RowBounds(SmallPrimes[j]);
    }
  }

  predicate Ascending(s: seq<nat>) {
    forall i, j :: 0 <= i < j < |s| ==> s[i] < s[j]
  }

  lemma RowsSorted()
    ensures Ascending(Primes0) && Ascending(Primes1) && Ascending(Primes2) && Ascending(Primes3) && Ascending(Primes4)
  {
  }

  lemma {:induction false} PrimeFactor(n: nat) returns (p: nat)
    requires n > 1
    ensures Prime(p) && Divides(p, n)
  {
    if Prime(n) {
      DivModUnique(n, n, 1, 0);
      p := n;
    } else {
      var d :| 2 <= d < n && Divides(d, n);
      p := PrimeFactor(d);
      DividesTransitive(p, d, n);
    }
  }

  lemma {:induction false} ProductMember(s: seq<nat>, i: nat, k: nat)
    requires i <= k < |s| && s[k] > 0
    ensures Divides(s[k], Product(s, i))
    decreases k - i
  {
    hide Divides;
    if i == k {
      DividesProduct(s[k], Product(s, i + 1) * s[k]);
      assert Product(s, i) == Product(s, i + 1) * s[k];
    } else {
      ProductMember(s, i + 1, k);
      DividesMultiple(s[k], Product(s, i + 1), s[i]);
    }
  }

  lemma {:induction false} PrimeInProduct(p: nat, s: seq<nat>, i: nat) returns (k: nat)
    requires Prime(p) && i <= |s| && Divides(p, Product(s, i))
    ensures k < |s| && Divides(p, s[k])
    decreases |s| - i
  {
    if i == |s| {
      DivModUnique(1, p, 0, 1);
      assert false;
    } else {
      Euclid(p, s[i], Product(s, i + 1));
      if Divides(p, s[i]) {
        k := i;
      } else {
        k := PrimeInProduct(p, s, i + 1);
      }
    }
  }

  lemma PrimeDivisor(p: nat, q: nat)
    requires Prime(q) && p > 1 && Divides(p, q)
    ensures p == q
  {
    DividesBound(p, q);
  }

  /** A residue shares a factor with the product of `primes` exactly when one
      of them divides the number. */
  lemma SharedFactor(n: nat, pp: nat, primes: seq<nat>)
    requires n > 0 && pp > 1 && pp == Product(primes, 0) && forall q :: q in primes ==> Prime(q)
    ensures n % pp == 0 || Gcd(n % pp, pp) != 1 <==> exists q :: q in primes && Divides(q, n)
  {
    var m := n % pp;
    var g := Gcd(m, pp);
    GcdPositive(m, pp);
    DivModUnique(g, g, 1, 0);
    GcdDivisors(m, pp, g);
    DivModUnique(pp, pp, 1, 0);
    if m == 0 || g != 1 {
      var c := if m == 0 then pp else g;
      assert Divides(c, pp);
      DividesRemainder(c, n, pp);
      var p := PrimeFactor(c);
      DividesTransitive(p, c, pp);
      DividesTransitive(p, c, n);
      var k := PrimeInProduct(p, primes, 0);
      PrimeDivisor(p, primes[k]);
    } else if q :| q in primes && Divides(q, n) {
      var k :| 0 <= k < |primes| && primes[k] == q;
      ProductMember(primes, 0, k);
      DividesRemainder(q, n, pp);
      GcdDivisors(m, pp, q);
      DividesBound(q, 1);
    }
  }

  /** One of the five small-factor checks. */
  method CoprimeTo(n: nat, pp: nat, ghost primes: seq<nat>) returns (coprime: bool)
    requires n > 0 && 1 < pp < 0x1_0000_0000_0000_0000 && pp == Product(primes, 0)
    requires forall q :: q in primes ==> Prime(q)
    ensures coprime <==> forall q :: q in primes ==> !Divides(q, n)
  {
    hide Gcd, Product, Pow, Prime, Divides;
    var m := n % pp;
    SharedFactor(n, pp, primes);
    if m == 0 {
      return false;
    }
    Word64();
    var g := GcdUnsafe(6, m, pp);
    coprime := g == 1;
  }

  lemma Word64()
    ensures Pow(2, Pow(2, 6)) == 0x1_0000_0000_0000_0000
  {
    assert Pow(2, 6) == 64;
    PowPow(2, 8, 8);
    assert Pow(2, 8) == 256;
    assert Pow(256, 4) == 0x1_0000_0000;
    PowAdd(256, 4, 4);
  }

  // Strong probable primes.

  /** x^(q * 2^j) modulo n: the j-th square of the chain of a trial. */
  function Chain(n: nat, x: nat, q: nat, j: nat): nat
    requires n > 0
  {
    Pow(x, q * Pow(2, j)) % n
  }

  lemma ChainStep(n: nat, x: nat, q: nat, j: nat)
    requires n > 0
    ensures Chain(n, x, q, j) * Chain(n, x, q, j) % n == Chain(n, x, q, j + 1)
  {
    var e := q * Pow(2, j);
    assert q * Pow(2, j + 1) == e + e;
    PowAdd(x, e, e);
    ModProductBoth(Pow(x, e), Pow(x, e), n);
  }

  /** The base `x` does not witness that `n`, with n - 1 == q * 2^t, is composite. */
  ghost predicate StrongProbablePrime(n: nat, x: nat, q: nat, t: nat)
    requires n > 0
  {
    Chain(n, x, q, 0) == 1 || exists j :: 0 <= j < t && Chain(n, x, q, j) == n - 1
  }

  /** A chain that reaches 1 stays there. */
  lemma {:induction false} OnesStay(n: nat, x: nat, q: nat, i: nat, j: nat)
    requires n > 1 && i <= j && Chain(n, x, q, i) == 1
    ensures Chain(n, x, q, j) == 1
  {
    if i < j {
      OnesStay(n, x, q, i, j - 1);
      ChainStep(n, x, q, j - 1);
      ResidueOfSmall(1, n);
    }
  }

  /** Going back from 1 along the chain of a prime meets -1 or ends in 1. */
  lemma {:induction false} ChainOfPrime(n: nat, x: nat, q: nat, t: nat)
    requires Prime(n) && Chain(n, x, q, t) == 1
    ensures StrongProbablePrime(n, x, q, t)
  {
    if t > 0 {
      ChainStep(n, x, q, t - 1);
      var y := Chain(n, x, q, t - 1);
      SquareRootsOfOne(n, y);
      ResidueTwice(Pow(x, q * Pow(2, t - 1)), n);
      if y == 1 {
        ChainOfPrime(n, x, q, t - 1);
      }
    }
  }

  /** No base between 2 and n - 2 witnesses against a prime. */
  lemma PrimeIsStrong(n: nat, x: nat, q: nat, t: nat)
    requires Prime(n) && 0 < x < n && n - 1 == q * Pow(2, t)
    ensures StrongProbablePrime(n, x, q, t)
  {
    ResidueOfSmall(x, n);
    FermatLittle(n, x);
    ChainOfPrime(n, x, q, t);
  }

  /** The strong test in powers alone: Fermat's test, and no square root of 1
      among the powers but 1 and -1. */
  lemma StrongMeaning(n: nat, x: nat, q: nat, k: nat)
    requires n > 2
    ensures StrongProbablePrime(n, x, q, k) <==>
      && Pow(x, q * Pow(2, k)) % n == 1
      && forall j, e :: 0 <= j < k && e == q * Pow(2, j) && Pow(x, 2 * e) % n == 1 ==> Pow(x, e) % n == 1 || Pow(x, e) % n == n - 1
  {
    hide Pow, StrongProbablePrime;
    assert Pow(x, q * Pow(2, k)) % n == Chain(n, x, q, k);
    if StrongProbablePrime(n, x, q, k) {
      StrongGivesRoots(n, x, q, k);
      forall j, e | 0 <= j < k && e == q * Pow(2, j) && Pow(x, 2 * e) % n == 1
        ensures Pow(x, e) % n == 1 || Pow(x, e) % n == n - 1
      {
        LinkAsPower(n, x, q, j, e);
      }
    } else if Chain(n, x, q, k) == 1 {
      var j := NotStrong(n, x, q, k);
      var e := q * Pow(2, j);
      LinkAsPower(n, x, q, j, e);
    }
  }

  lemma LinkAsPower(n: nat, x: nat, q: nat, j: nat, e: nat)
    requires n > 0 && e == q * Pow(2, j)
    ensures Chain(n, x, q, j) == Pow(x, e) % n && Chain(n, x, q, j + 1) == Pow(x, 2 * e) % n
  {
    NextPower(2, j);
    hide Pow;
    assert q * (Pow(2, j) * 2) == 2 * e;
  }

  /** A chain that ends in 1 and fails the strong test holds another square root of 1. */
  lemma NotStrong(n: nat, x: nat, q: nat, k: nat) returns (j: nat)
    requires n > 2 && !StrongProbablePrime(n, x, q, k) && Chain(n, x, q, k) == 1
    ensures j < k && Chain(n, x, q, j + 1) == 1 && Chain(n, x, q, j) != 1 && Chain(n, x, q, j) != n - 1
  {
    hide StrongProbablePrime, Chain;
    if forall i :: 0 <= i < k && Chain(n, x, q, i + 1) == 1 ==> Chain(n, x, q, i) == 1 || Chain(n, x, q, i) == n - 1 {
      RootsGiveStrong(n, x, q, k, k);
    }
    j :| 0 <= j < k && Chain(n, x, q, j + 1) == 1 && Chain(n, x, q, j) != 1 && Chain(n, x, q, j) != n - 1;
  }

  lemma StrongGivesRoots(n: nat, x: nat, q: nat, k: nat)
    requires n > 2 && StrongProbablePrime(n, x, q, k)
    ensures Chain(n, x, q, k) == 1
    ensures forall j :: 0 <= j < k && Chain(n, x, q, j + 1) == 1 ==> Chain(n, x, q, j) == 1 || Chain(n, x, q, j) == n - 1
  {
    hide Chain;
    if Chain(n, x, q, 0) == 1 {
      forall j | 0 <= j <= k ensures Chain(n, x, q, j) == 1 {
        OnesStay(n, x, q, 0, j);
      }
    } else {
      var i :| 0 <= i < k && Chain(n, x, q, i) == n - 1;
      ChainStep(n, x, q, i);
      MinusOneSquared(n);
      OnesStay(n, x, q, i + 1, k);
      forall j | 0 <= j < k && Chain(n, x, q, j + 1) == 1 ensures Chain(n, x, q, j) == 1 || Chain(n, x, q, j) == n - 1 {
        if j < i {
          OnesStay(n, x, q, j + 1, i);
        } else if j > i {
          OnesStay(n, x, q, i + 1, j);
        }
      }
    }
  }

  lemma {:induction false} RootsGiveStrong(n: nat, x: nat, q: nat, k: nat, i: nat)
    requires n > 2 && i <= k && Chain(n, x, q, i) == 1
    requires forall j :: 0 <= j < k && Chain(n, x, q, j + 1) == 1 ==> Chain(n, x, q, j) == 1 || Chain(n, x, q, j) == n - 1
    ensures StrongProbablePrime(n, x, q, k)
  {
    hide Chain;
    if i > 0 && Chain(n, x, q, i - 1) == 1 {
      RootsGiveStrong(n, x, q, k, i - 1);
    } else if i > 0 {
      assert Chain(n, x, q, i - 1 + 1) == 1;
    }
  }

  lemma MinusOneSquared(n: nat)
    requires n > 1
    ensures (n - 1) * (n - 1) % n == 1
  {
    assert (n - 1) * (n - 1) == (n - 2) * n + 1;
    DivModUnique((n - 1) * (n - 1), n, n - 2, 1);
  }

  /** The loop of one trial. */
  method Trial(big: nat, n: nat, x: nat, q: nat, k: nat) returns (result: bool)
    requires 2 < n < big && x < big && k > 0
    ensures result <==> StrongProbablePrime(n, x, q, k)
    ensures result <==>
      && Pow(x, q * Pow(2, k)) % n == 1
      && forall j, e :: 0 <= j < k && e == q * Pow(2, j) && Pow(x, 2 * e) % n == 1 ==> Pow(x, e) % n == 1 || Pow(x, e) % n == n - 1
  {
    StrongMeaning(n, x, q, k);
    hide Pow, Chain, DoubleWidthProduct;
    var nm1 := n - 1;
    result := true;
    var y := PowMod(big, x, q, n);
    FirstLink(n, x, q);
    var jdx := 0;
    while y != nm1 && y != 1 && result
      invariant 0 <= jdx <= k && (jdx == k <==> !result) && y < n
      invariant y == Chain(n, x, q, if result then jdx else jdx - 1)
      invariant forall j :: 0 <= j < jdx ==> Chain(n, x, q, j) != nm1 && Chain(n, x, q, j) != 1
      decreases k - jdx
    {
      jdx := jdx + 1;
      if jdx == k {
        result := false;
      } else {
        ProductFits(big, y, y);
        ChainStep(n, x, q, jdx - 1);
        y := DoubleWidthProduct(big, y, y) % n;
      }
    }
    if y == 1 && jdx != 0 {
      if result {
        forall j | jdx <= j < k ensures Chain(n, x, q, j) != nm1 {
          OnesStay(n, x, q, jdx, j);
        }
      }
      result := false;
    }
  }

  lemma FirstLink(n: nat, x: nat, q: nat)
    requires n > 0
    ensures Pow(x, q) % n == Chain(n, x, q, 0) < n
  {
    assert Pow(2, 0) == 1;
  }

  ghost predicate NoSmallFactor(n: nat) {
    forall p :: p in SmallPrimes ==> !Divides(p, n)
  }

  /** Every draw passes the strong test; at least one is made. */
  ghost predicate TrialsPass(big: nat, n: nat, trials: nat, raw: nat -> nat)
    requires 227 < n < big && forall i :: raw(i) < big
  {
    var t := TrailingZeros(n - 1);
    forall i :: 0 <= i < trials || i == 0 ==> StrongProbablePrime(n, Draw(big, raw(i), 2, n - 2), (n - 1) / Pow(2, t), t)
  }

  /** What `miller_rabin` demands of an odd number above 227: no small prime
      factor, the Fermat test to base 228, and a strong test for every draw. */
  ghost predicate PassesTests(big: nat, n: nat, trials: nat, raw: nat -> nat)
    requires 227 < n < big && forall i :: raw(i) < big
  {
    NoSmallFactor(n) && Pow(228, n - 1) % n == 1 && TrialsPass(big, n, trials, raw)
  }

  lemma PrimePasses(big: nat, n: nat, trials: nat, raw: nat -> nat)
    requires 227 < n < big && n % 2 == 1 && Prime(n) && forall i :: raw(i) < big
    ensures PassesTests(big, n, trials, raw)
  {
    hide SmallPrimes, Pow, TrailingZeros, Draw, Prime, Divides;
    forall p | p in SmallPrimes ensures !Divides(p, n) {
      TableIsPrimes(p);
      NoSmallDivisor(n, p);
    }
    NoSmallDivisorOf228(n);
    FermatLittle(n, 228);
    TrailingZerosFactor(n - 1);
    var t := TrailingZeros(n - 1);
    forall i | 0 <= i < trials || i == 0
      ensures StrongProbablePrime(n, Draw(big, raw(i), 2, n - 2), (n - 1) / Pow(2, t), t)
    {
      PrimeIsStrong(n, Draw(big, raw(i), 2, n - 2), (n - 1) / Pow(2, t), t);
    }
  }

  // Composite numbers.

  lemma {:induction false} DividesPower(d: nat, m: nat)
    requires d > 0 && m > 0
    ensures Divides(d, Pow(d, m))
  {
    NextPower(d, m - 1);
    DividesProduct(d, Pow(d, m));
  }

  /** No power of a proper divisor of n is 1 or -1 modulo n. */
  lemma DivisorPower(n: nat, d: nat, m: nat)
    requires d > 1 && n > 1 && m > 0 && Divides(d, n)
    ensures Pow(d, m) % n != 1 && Pow(d, m) % n != n - 1
  {
    hide Pow;
    DividesPower(d, m);
    DividesRemainder(d, Pow(d, m), n);
    if Pow(d, m) % n == 1 {
      DividesBound(d, 1);
    } else if Pow(d, m) % n == n - 1 {
      DividesLinear(d, n - 1, n, -1);
      DividesLinear(d, n, 1, -1);
      OneLess(d, n);
      DividesBound(d, 1);
    }
  }

  lemma OneLess(d: nat, n: nat)
    requires Divides(d, n) && Divides(d, n - 1)
    ensures Divides(d, 1)
  {
    DividesLinear(d, n - 1, 1, 1);
  }

  /** A proper divisor of n, drawn as a base, shows that n is composite. */
  lemma DivisorIsWitness(n: nat, d: nat, q: nat, k: nat)
    requires d > 1 && n > 1 && q > 0 && Divides(d, n)
    ensures !StrongProbablePrime(n, d, q, k)
  {
    forall j: nat ensures Chain(n, d, q, j) != 1 && Chain(n, d, q, j) != n - 1 {
      PowPositive(2, j);
      MulMonotone(1, q, Pow(2, j));
      DivisorPower(n, d, q * Pow(2, j));
    }
  }

  /** If any draw of an odd n's trials is a divisor of it, they fail. */
  lemma DivisorFails(big: nat, n: nat, trials: nat, raw: nat -> nat, i: nat)
    requires 227 < n < big && n % 2 == 1 && (forall i :: raw(i) < big)
    requires (i < trials || i == 0) && Divides(Draw(big, raw(i), 2, n - 2), n)
    ensures !TrialsPass(big, n, trials, raw)
  {
    hide Pow, TrailingZeros, Draw, Divides, StrongProbablePrime;
    TrailingZerosFactor(n - 1);
    var t := TrailingZeros(n - 1);
    DivisorIsWitness(n, Draw(big, raw(i), 2, n - 2), (n - 1) / Pow(2, t), t);
  }

  /** For every odd composite number some draws show that it is one. */
  lemma CompositeRejected(big: nat, n: nat, trials: nat) returns (raw: nat -> nat)
    requires 227 < n < big && n % 2 == 1 && !Prime(n)
    ensures (forall i :: raw(i) < big) && !TrialsPass(big, n, trials, raw)
  {
    hide TrialsPass, Draw;
    var d :| 2 <= d < n && Divides(d, n);
    hide Divides;
    ProperDivisor(n, d);
    raw := (i: nat) => d - 2;
    DrawReaches(big, 2, n - 2, d);
    DivisorFails(big, n, trials, raw, 0);
  }

  lemma ProperDivisor(n: nat, d: nat)
    requires 2 <= d < n && n % 2 == 1 && Divides(d, n)
    ensures d <= n - 2
  {
    if d == n - 1 {
      OneLess(d, n);
      DivModUnique(1, d, 0, 1);
    }
  }

  lemma NoSmallDivisorOf228(n: nat)
    requires n > 227 && n % 2 == 1
    ensures !Divides(n, 228)
  {
    ResidueOfSmall(228, n);
  }

  lemma NoSmallDivisor(n: nat, p: nat)
    requires Prime(n) && Prime(p) && p < n
    ensures !Divides(p, n)
  {
  }

  /** Below 229 squared, the small-factor checks alone decide primality. */
  lemma SmallFactorsDecide(n: nat)
    requires 227 < n < 229 * 229 && n % 2 == 1 && NoSmallFactor(n)
    ensures Prime(n)
  {
    hide SmallPrimes;
    if !Prime(n) {
      var d :| 2 <= d < n && Divides(d, n);
      var e := n / d;
      assert n == d * e;
      SmallerFactor(n, d, e, 229);
      DividesProduct(e, n);
      var f := if d <= e then d else e;
      var p := PrimeFactor(f);
      DividesBound(p, f);
      DividesTransitive(p, f, n);
      EvenDivisor(p, n);
      TableIsPrimes(p);
    }
  }

  /** An odd number has odd divisors only; 228 is out too. */
  lemma EvenDivisor(p: nat, n: nat)
    requires Divides(p, n) && n % 2 == 1
    ensures p % 2 == 1
  {
    OddNumber(p, n);
  }

  /** The checks against the five products. */
  method HasNoSmallFactor(n: nat) returns (result: bool)
    requires n > 0
    ensures result <==> NoSmallFactor(n)
  {
    hide Divides, Prime, Primes0, Primes1, Primes2, Primes3, Primes4;
    ProductsMatch();
    forall q | q in SmallPrimes ensures Prime(q) {
      TableIsPrimes(q);
    }
    result := CoprimeTo(n, PP0, Primes0);
    if result {
      result := CoprimeTo(n, PP1, Primes1);
    }
    if result {
      result := CoprimeTo(n, PP2, Primes2);
    }
    if result {
      result := CoprimeTo(n, PP3, Primes3);
    }
    if result {
      result := CoprimeTo(n, PP4, Primes4);
    }
  }

  /** The trials, at least one, until one fails. */
  method Trials(big: nat, n: nat, trials: nat, raw: nat -> nat) returns (result: bool)
    requires 227 < n < big && n % 2 == 1 && forall i :: raw(i) < big
    ensures result <==> TrialsPass(big, n, trials, raw)
  {
    hide Pow, TrailingZeros, StrongProbablePrime, Draw;
    var k, q := TrailingZeros(n - 1), (n - 1) / Pow(2, TrailingZeros(n - 1));
    EvenPredecessor(n);
    result := true;
    var idx := 0;
    while idx == 0 || (idx < trials && result)
      invariant 0 <= idx && (idx <= trials || idx == 1) && (idx == 0 ==> result)
      invariant result ==> forall i :: 0 <= i < idx ==> StrongProbablePrime(n, Draw(big, raw(i), 2, n - 2), q, k)
      invariant !result ==> !StrongProbablePrime(n, Draw(big, raw(idx - 1), 2, n - 2), q, k)
      decreases trials + 1 - idx
    {
      var x := Draw(big, raw(idx), 2, n - 2);
      result := Trial(big, n, x, q, k);
      idx := idx + 1;
    }
  }

  lemma EvenPredecessor(n: nat)
    requires n % 2 == 1 && n > 1
    ensures TrailingZeros(n - 1) > 0 && Pow(2, TrailingZeros(n - 1)) > 0
  {
  }

  lemma OneIsNotPrime()
    ensures !Prime(1)
  {
  }

  lemma EvenPrime(n: nat)
    requires n % 2 == 0
    ensures Prime(n) <==> n == 2
  {
    if n > 2 {
      assert Divides(2, n);
    }
  }

  /** The low limb decides parity, and is the number when that is small. */
  lemma LowLimb(n: nat, b: nat)
    requires b >= 256 && b % 2 == 0
    ensures n % b % 2 == n % 2
    ensures n < 256 ==> n % b == n
  {
    var c := b / 2;
    assert n == n / b * b + n % b;
    assert n / b * b == 2 * (n / b * c);
    if n < 256 {
      ResidueOfSmall(n, b);
    }
  }

  /** `miller_rabin` on unsigned integers; `big` is 2^width with at least 64
      bits, `b` the limb base and `raw` the stream of random numbers. */
  method MillerRabin(big: nat, b: nat, n: nat, trials: nat, raw: nat -> nat) returns (result: bool)
    requires 0x1_0000_0000_0000_0000 <= big && n < big && b >= 256 && b % 2 == 0 && forall i :: raw(i) < big
    ensures Prime(n) ==> result
    ensures n < 229 * 229 ==> (result <==> Prime(n))
    ensures n > 227 ==> (result <==> n % 2 == 1 && PassesTests(big, n, trials, raw))
    ensures forall i :: n > 227 && (0 <= i < trials || i == 0) && Divides(Draw(big, raw(i), 2, n - 2), n) ==> !result
  {
    forall i | n > 227 && n % 2 == 1 && (0 <= i < trials || i == 0) && Divides(Draw(big, raw(i), 2, n - 2), n)
      ensures !TrialsPass(big, n, trials, raw)
    {
      DivisorFails(big, n, trials, raw, i);
    }
    hide SmallPrimes, Pow, Prime, NoSmallFactor, TrialsPass;
    var n0 := n % b;
    LowLimb(n, b);
    if n0 % 2 == 0 {
      EvenPrime(n);
      return n0 == 2 && n == 2;
    }
    if n0 <= 227 && n <= 227 {
      TableIsPrimes(n);
      if n0 == 1 && n == 1 {
        OneIsNotPrime();
        return false;
      }
      TableSorted();
      result := BinarySearch(SmallPrimes, n0);
      return;
    }
    if Prime(n) {
      PrimePasses(big, n, trials, raw);
    }
    result := HasNoSmallFactor(n);
    if !result {
      return;
    }
    if n < 229 * 229 {
      SmallFactorsDecide(n);
    }
    var fn := PowMod(big, 228, n - 1, n);
    if fn != 1 {
      return false;
    }
    result := Trials(big, n, trials, raw);
  }
}