/** `sqrt` and `cbrt`: Newton iteration from above, capped at 64 rounds. */
module Roots {
  import opened Powers
  import opened Bits

  predicate IsSquareRoot(m: nat, r: nat) {
    r * r <= m < (r + 1) * (r + 1)
  }

  predicate IsCubeRoot(m: nat, r: nat) {
    r * r * r <= m < (r + 1) * (r + 1) * (r + 1)
  }

  lemma {:induction false} SquareRootExists(m: nat) returns (r: nat)
    ensures IsSquareRoot(m, r)
  {
    if m == 0 {
      r := 0;
    } else {
      r := SquareRootExists(m - 1);
      if m == (r + 1) * (r + 1) {
        r := r + 1;
        assert (r + 1) * (r + 1) == r * r + 2 * r + 1;
      }
    }
  }

  lemma CubeGrows(r: nat)
    ensures (r + 1) * (r + 1) * (r + 1) == r * r * r + 3 * (r * r) + 3 * r + 1
  {
  }

  lemma {:induction false} CubeRootExists(m: nat) returns (r: nat)
    ensures IsCubeRoot(m, r)
  {
    if m == 0 {
      r := 0;
    } else {
      r := CubeRootExists(m - 1);
      if m == (r + 1) * (r + 1) * (r + 1) {
        r := r + 1;
        CubeGrows(r);
      }
    }
  }

  // Convergence, for both roots.

  /** One Newton round from above the root `r`: strictly down, by a third of the
      distance at least, and quadratically near the root. */
  ghost predicate NewtonRound(r: nat, s: nat, u: nat) {
    && r <= u < s
    && 3 * (u - r) <= 2 * (s - r) + 1
    && (u - r - 1) * s <= (s - r) * (s - r)
  }

  /** How near the root the iterate is before round `i`. */
  ghost predicate Near(i: nat, r: nat, s: nat) {
    && r <= s
    && (i <= 10 ==> Pow(3, i) * (s - r - 1) <= Pow(2, i) * (3 * r))
    && (10 <= i <= 62 ==> s - r <= 1 || (s - r) * Pow(2, Pow(2, i - 10) + 2) <= s)
    && (i >= 63 ==> s == r)
  }

  lemma NearStart(r: nat, s: nat)
    requires r <= s <= 4 * r
    ensures Near(0, r, s)
  {
    assert Pow(3, 0) == 1 && Pow(2, 0) == 1;
  }

  lemma WarmUp(i: nat, r: nat, e: int, e': int)
    requires 3 * e' <= 2 * e + 1 && Pow(3, i) * (e - 1) <= Pow(2, i) * (3 * r)
    ensures Pow(3, i + 1) * (e' - 1) <= Pow(2, i + 1) * (3 * r)
  {
    var p, q := Pow(3, i), Pow(2, i);
    assert (p * 3) * (e' - 1) == (3 * e' - 3) * p;
    MulMonotone(3 * e' - 3, 2 * e - 2, p);
    assert (2 * e - 2) * p == 2 * (p * (e - 1));
    assert (q * 2) * (3 * r) == 2 * (q * (3 * r));
  }

  lemma AfterWarmUp(r: nat, e: nat)
    requires Pow(3, 10) * (e - 1) <= Pow(2, 10) * (3 * r)
    ensures e <= 1 || e * Pow(2, Pow(2, 0) + 2) <= r
  {
    assert Pow(3, 5) == 243 && Pow(2, 10) == 1024;
    PowAdd(3, 5, 5);
    assert Pow(2, 0) == 1 && Pow(2, 3) == 8;
  }

  lemma QuadraticPhase(j: nat, r: nat, s: nat, e: nat, e': nat)
    requires s == r + e && e' < e && e * Pow(2, Pow(2, j) + 2) <= s && (e' - 1) * s <= e * e && e' > 1
    ensures e' * Pow(2, Pow(2, j + 1) + 2) <= r + e'
  {
    var a, c := Pow(2, Pow(2, j) + 2), Pow(2, Pow(2, j + 1) + 2);
    assert Pow(2, j + 1) == Pow(2, j) + Pow(2, j);
    PowAdd(2, Pow(2, j) + 2, Pow(2, j) + 2);
    PowAdd(2, Pow(2, j + 1) + 2, 2);
    assert Pow(2, 2) == 4;
    assert a * a == c * 4;
    PowMonotone(2, 3, Pow(2, j) + 2);
    assert Pow(2, 3) == 8;
    QuadraticAlgebra(r, s, e, e', a, c);
  }

  lemma QuadraticAlgebra(r: nat, s: nat, e: nat, e': nat, a: nat, c: nat)
    requires s == r + e && e > 0 && e * a <= s && (e' - 1) * s <= e * e && e' > 1 && a * a == 4 * c && a >= 8
    ensures e' * c <= r + e'
  {
    MulMonotone(8, a, e);
    assert 8 * e <= s;
    MulMonotone(2, e', s);
    assert e' * s == (e' - 1) * s + s;
    ScaledSquare(s, e, a, e', e * e, e * a);
    assert a * a * e' == 4 * (e' * c);
  }

  lemma ScaledSquare(s: nat, e: nat, a: nat, e': nat, p: nat, x: nat)
    requires p == e * e && x == e * a && x <= s && s > 0 && e' * s <= 2 * p
    ensures a * a * e' <= 2 * s
  {
    var w := a * a;
    MulMonotone(e' * s, 2 * p, w);
    assert p * w == x * x;
    MulMonotone(x, s, x);
    MulMonotone(x, s, s);
    assert (e' * s) * w == (w * e') * s;
    Cancel(w * e', 2 * s, s);
  }

  lemma Cancel(x: int, y: int, s: nat)
    requires x * s <= y * s && s > 0
    ensures x <= y
  {
    assert (y + 1) * s == y * s + s;
    if x > y {
      MulMonotone(y + 1, x, s);
    }
  }

  lemma NearStep(i: nat, r: nat, s: nat, u: nat)
    requires i < 63 && Near(i, r, s) && s > r && NewtonRound(r, s, u) && s < Pow(2, Pow(2, 52) + 2)
    ensures Near(i + 1, r, u)
  {
    hide Pow;
    var e, e' := s - r, u - r;
    if i < 10 {
      WarmUp(i, r, e, e');
      if i == 9 {
        AfterWarmUp(r, e');
        assert e' <= 1 || e' * Pow(2, Pow(2, 0) + 2) <= u;
      }
    } else if i == 62 {
      if e > 1 {
        MulMonotone(1, e, Pow(2, Pow(2, 52) + 2));
      }
    } else {
      if e > 1 && e' > 1 {
        QuadraticPhase(i - 10, r, s, e, e');
      }
    }
  }

  // The two rounds.

  lemma QuotientBounds(m: nat, s: nat)
    requires s > 0
    ensures m / s * s <= m < m / s * s + s
  {
  }

  /** Strictly above the root the quotient is at most the root. */
  lemma SquareQuotient(m: nat, r: nat, s: nat, q: nat)
    requires IsSquareRoot(m, r) && s > r && q * s <= m
    ensures q <= r
  {
    MulMonotone(r + 1, s, r + 1);
    if q > r {
      MulMonotone(r + 1, q, s);
    }
  }

  lemma SquareTimes(x: int, y: nat)
    ensures x * x * y >= 0
  {
    assert x * x >= 0;
  }

  lemma SquareGap(r: int, s: int)
    ensures (2 * r - s) * s <= r * r
  {
    var e := s - r;
    assert (2 * r - s) * s == r * r - e * e;
    assert e * e >= 0;
  }

  lemma SquareAbove(m: nat, r: nat, s: nat, q: nat)
    requires r * r <= m < q * s + s && s >= r
    ensures q + s >= 2 * r
  {
    SquareGap(r, s);
    LinearGap(q, s, 2 * r - s, r * r);
  }

  lemma SquareQuadratic(r: nat, s: nat, q: nat, u: nat)
    requires s > r && q * s <= r * r + 2 * r && 2 * u <= s + q
    ensures (u - r - 1) * s <= (s - r) * (s - r)
  {
    var e := s - r;
    MulMonotone(2 * u, s + q, s);
    assert (s + q) * s == s * s + q * s;
    assert 2 * u * s == 2 * ((u - r - 1) * s) + 2 * (r * s) + 2 * s;
    assert e * e == s * s - 2 * (r * s) + r * r;
    assert e * e >= 0;
  }

  /** The rounding facts that make an update a Newton round. */
  lemma MakeRound(r: nat, s: nat, u: nat, k: nat, q: nat)
    requires k == 2 || k == 3
    requires s > r && q <= r && q + (k - 1) * s >= k * r && u == ((k - 1) * s + q) / k
    requires (u - r - 1) * s <= (s - r) * (s - r)
    ensures NewtonRound(r, s, u)
  {
    if k == 2 {
      assert u == (s + q) / 2;
    } else {
      assert u == (2 * s + q) / 3;
    }
  }

  lemma SquareRound(m: nat, r: nat, s: nat, q: nat, u: nat)
    requires IsSquareRoot(m, r) && s > 0 && s >= r && q * s <= m < q * s + s && u == (s + q) / 2
    ensures s > r ==> NewtonRound(r, s, u)
    ensures s == r ==> u >= s
  {
    SquareBounds(m, r);
    SquareAbove(m, r, s, q);
    if s > r {
      SquareQuotient(m, r, s, q);
      hide IsSquareRoot, NewtonRound;
      SquareQuadratic(r, s, q, u);
      MakeRound(r, s, u, 2, q);
    }
  }

  lemma SquareBounds(m: nat, r: nat)
    requires IsSquareRoot(m, r)
    ensures r * r <= m <= r * r + 2 * r
  {
    NextSquare(r);
  }

  lemma NextSquare(r: int)
    ensures (r + 1) * (r + 1) == r * r + 2 * r + 1
  {
  }

  lemma CubeQuotient(m: nat, r: nat, s: nat, q: nat)
    requires IsCubeRoot(m, r) && s > r && q * (s * s) <= m
    ensures q <= r
  {
    var t := r + 1;
    MulMonotone(t, s, t);
    MulMonotone(t, s, s);
    MulMonotone(t * t, s * s, t);
    if q > r {
      MulMonotone(t, q, s * s);
    }
  }

  lemma CubeDistance(r: int, s: int)
    ensures r * r * r - (3 * r - 2 * s) * (s * s) == (s - r) * (s - r) * (2 * s + r)
  {
    var a, b, c := r * r, r * s, s * s;
    assert (s - r) * (s - r) == c - 2 * b + a;
    assert c * r == b * s && a * s == b * r;
  }

  lemma CubeAbove(m: nat, r: nat, s: nat, q: nat)
    requires r * r * r <= m < q * (s * s) + s * s
    ensures q + 2 * s >= 3 * r
  {
    var c := s * s;
    CubeDistance(r, s);
    SquareTimes(s - r, 2 * s + r);
    LinearGap(q, c, 3 * r - 2 * s, r * r * r);
  }

  lemma LinearGap(q: nat, c: nat, k: int, low: int)
    requires k * c <= low < q * c + c
    ensures k <= q
  {
    assert (q + 1) * c == q * c + c;
    if k > q {
      MulMonotone(q + 1, k, c);
    }
  }

  lemma CubeQuadratic(r: nat, s: nat, q: nat, u: nat)
    requires s > r && q * (s * s) < (r + 1) * (r + 1) * (r + 1) && 3 * u <= 2 * s + q
    ensures (u - r - 1) * s <= (s - r) * (s - r)
  {
    CubeGrows(r);
    CubeDistance(r, s);
    RootRoom(r, s);
    CubeRoundError(r, r * r, r * r * r, s, q, u, s * s, (s - r) * (s - r));
    MulAssoc(u - r - 1, s, s);
    Cancel((u - r - 1) * s, (s - r) * (s - r), s);
  }

  lemma CubeRoundError(r: nat, r2: int, r3: int, s: nat, q: nat, u: nat, c: nat, f: nat)
    requires r <= s && r3 - (3 * r - 2 * s) * c == f * (2 * s + r) && r2 + r <= c
    requires q * c < r3 + 3 * r2 + 3 * r + 1 && 3 * u <= 2 * s + q
    ensures (u - r - 1) * c <= f * s
  {
    MulMonotone(3 * u, 2 * s + q, c);
    CubeExpand(r, s, q, u, c);
    CubeError(r, s, f);
    CubeCombine(r, r2, r3, c, s * c, r * c, q * c, (u - r - 1) * c, f * s, f * (2 * s + r));
  }

  lemma RootRoom(r: nat, s: nat)
    requires s > r
    ensures r * r + r <= s * s && (s - r) * (s - r) >= 0
  {
    MulMonotone(r + 1, s, r);
    MulMonotone(r, s, s);
  }

  lemma CubeCombine(r: int, r2: int, r3: int, c: int, sc: int, rc: int, qc: int, dc: int, fs: int, error: int)
    requires qc < r3 + 3 * r2 + 3 * r + 1 && r3 - (3 * rc - 2 * sc) == error <= 3 * fs
    requires 3 * dc + 3 * rc + 3 * c <= 2 * sc + qc && r2 + r <= c
    ensures dc <= fs
  {
  }

  lemma CubeExpand(r: int, s: int, q: int, u: int, c: int)
    ensures (2 * s + q) * c == 2 * (s * c) + q * c
    ensures (3 * r - 2 * s) * c == 3 * (r * c) - 2 * (s * c)
    ensures 3 * u * c == 3 * ((u - r - 1) * c) + 3 * (r * c) + 3 * c
  {
  }

  lemma CubeError(r: nat, s: nat, f: int)
    requires r <= s && f >= 0
    ensures f * (2 * s + r) <= 3 * (f * s)
  {
    MulMonotone(2 * s + r, 3 * s, f);
  }

  lemma CubeRound(m: nat, r: nat, s: nat, q: nat, u: nat)
    requires IsCubeRoot(m, r) && s > 0 && s >= r && q * (s * s) <= m < q * (s * s) + s * s && u == (2 * s + q) / 3
    ensures s > r ==> NewtonRound(r, s, u)
    ensures s == r ==> u >= s
  {
    CubeAbove(m, r, s, q);
    if s > r {
      CubeQuotient(m, r, s, q);
      CubeQuadratic(r, s, q, u);
      hide IsCubeRoot, NewtonRound;
      MakeRound(r, s, u, 3, q);
    }
  }

  // The initial guess, from the position of the highest bit.

  function SquareShift(p: nat): nat {
    if p % 2 == 0 then 1 + p / 2 else 1 + (p + 1) / 2
  }

  function CubeShift(p: nat): nat {
    if p % 3 == 0 then 1 + p / 3 else 1 + (p + (3 - p % 3)) / 3
  }

  lemma SquareGuess(m: nat, r: nat, p: nat)
    requires IsSquareRoot(m, r) && Pow(2, p) <= m < Pow(2, p + 1)
    ensures 0 < r <= Pow(2, SquareShift(p)) <= 4 * r
  {
    var t := p / 2;
    var x := Pow(2, t);
    PowAdd(2, t, t);
    PowMonotone(2, t + t, p);
    PowMonotone(2, p + 1, t + t + 2);
    assert Pow(2, t + t + 2) == 4 * (x * x);
    assert Pow(2, t + 1) == 2 * x && Pow(2, t + 2) == 4 * x;
    SquareBetween(m, r, x);
  }

  lemma SquareBetween(m: nat, r: nat, x: nat)
    requires IsSquareRoot(m, r) && x * x <= m < 4 * (x * x)
    ensures x <= r < 2 * x
  {
    assert (2 * x) * (2 * x) == 4 * (x * x);
    if r < x {
      MulMonotone(r + 1, x, r + 1);
      MulMonotone(r + 1, x, x);
    }
    if r >= 2 * x {
      MulMonotone(2 * x, r, r);
      MulMonotone(2 * x, r, 2 * x);
    }
  }

  lemma CubeGuess(m: nat, r: nat, p: nat)
    requires IsCubeRoot(m, r) && Pow(2, p) <= m < Pow(2, p + 1)
    ensures 0 < r <= Pow(2, CubeShift(p)) <= 4 * r
  {
    var t := p / 3;
    var x := Pow(2, t);
    PowAdd(2, t, t);
    PowAdd(2, t + t, t);
    CubePower(p, t, x);
    assert Pow(2, t + 1) == 2 * x && Pow(2, t + 2) == 4 * x;
    CubeBetween(m, r, x);
  }

  lemma CubePower(p: nat, t: nat, x: nat)
    requires t == p / 3 && Pow(2, t + t + t) == x * x * x
    ensures x * x * x <= Pow(2, p) && Pow(2, p + 1) <= 8 * (x * x * x)
  {
    PowMonotone(2, t + t + t, p);
    PowMonotone(2, p + 1, t + t + t + 3);
    PowAdd(2, t + t + t, 3);
    assert Pow(2, 3) == 8;
  }

  lemma CubeBetween(m: nat, r: nat, x: nat)
    requires IsCubeRoot(m, r) && x * x * x <= m < 8 * (x * x * x)
    ensures x <= r < 2 * x
  {
    assert (2 * x) * (2 * x) * (2 * x) == 8 * (x * x * x);
    if r < x {
      CubeMonotone(r + 1, x);
    }
    if r >= 2 * x {
      CubeMonotone(2 * x, r);
    }
  }

  lemma CubeMonotone(x: nat, y: nat)
    requires x <= y
    ensures x * x * x <= y * y * y
  {
    MulMonotone(x, y, x);
    MulMonotone(x, y, y);
    MulMonotone(x * x, y * y, x);
    MulMonotone(x, y, y * y);
  }

  // No intermediate sum leaves the width.

  lemma SquareSumFits(big: nat, m: nat, r: nat, s: nat, q: nat)
    requires IsSquareRoot(m, r) && 0 < r <= s <= 4 * r && m < big && big >= 256 && q * s <= m
    ensures s + q < big
  {
    SquareBounds(m, r);
    hide IsSquareRoot;
    assert (r + 3) * r == r * r + 3 * r;
    MulMonotone(r, s, r + 3);
    if q >= r + 3 {
      MulMonotone(r + 3, q, s);
    }
    if r >= 7 {
      MulMonotone(7, r, r);
    }
  }

  lemma CubeSumFits(big: nat, m: nat, r: nat, s: nat, q: nat)
    requires IsCubeRoot(m, r) && 0 < r <= s <= 4 * r && m < big && big >= 256 && q * (s * s) <= m
    ensures 2 * s + q < big
  {
    MulMonotone(r, s, r);
    MulMonotone(r, s, s);
    CubeQuotientLimit(r, s * s, q);
    CubeFits(big, m, r);
  }

  lemma CubeQuotientLimit(r: nat, c: nat, q: nat)
    requires q * c < (r + 1) * (r + 1) * (r + 1) && r * r <= c && r > 0
    ensures q < r + 7
  {
    CubeGrows(r);
    MulMonotone(1, r, r);
    MulAssoc(r, r, r);
    assert (r + 7) * (r * r) == r * r * r + 7 * (r * r);
    var limit := (r + 1) * (r + 1) * (r + 1);
    MulMonotone(r * r, c, r + 7);
    CancelBelow(q, r + 7, c, limit);
  }

  lemma CancelBelow(q: nat, k: nat, c: nat, limit: int)
    requires q * c < limit <= c * k
    ensures q < k
  {
    if q >= k {
      MulMonotone(k, q, c);
    }
  }

  lemma CubeFits(big: nat, m: nat, r: nat)
    requires r * r * r <= m < big && big >= 256 && r > 0
    ensures 8 * r + r + 7 <= big
  {
    if r >= 4 {
      MulMonotone(4, r, r);
      MulMonotone(16, r * r, r);
    }
  }

  /** (s + m / s) >> 1, the sum in the width of the type. */
  function SquareUpdate(big: nat, s: nat, quotient: nat): nat
    requires big > 0
  {
    (s + quotient) % big / 2
  }

  lemma SquareUpdateRounds(big: nat, m: nat, r: nat, s: nat, q: nat)
    requires IsSquareRoot(m, r) && 0 < r <= s <= 4 * r && m < big && big >= 256 && q * s <= m < q * s + s
    ensures s > r ==> NewtonRound(r, s, SquareUpdate(big, s, q))
    ensures s == r ==> SquareUpdate(big, s, q) >= s
  {
    hide IsSquareRoot, NewtonRound;
    SquareSumFits(big, m, r, s, q);
    DivModUnique(s + q, big, 0, s + q);
    SquareRound(m, r, s, q, (s + q) / 2);
  }

  /** (2 s + m / s / s) / 3, the sum in the width of the type. */
  function CubeUpdate(big: nat, s: nat, quotient: nat): nat
    requires big > 0
  {
    (2 * s + quotient) % big / 3
  }

  lemma CubeUpdateRounds(big: nat, m: nat, r: nat, s: nat, q: nat)
    requires IsCubeRoot(m, r) && 0 < r <= s <= 4 * r && m < big && big >= 256 && q * (s * s) <= m < q * (s * s) + s * s
    ensures s > r ==> NewtonRound(r, s, CubeUpdate(big, s, q))
    ensures s == r ==> CubeUpdate(big, s, q) >= s
  {
    hide IsCubeRoot, NewtonRound;
    CubeSumFits(big, m, r, s, q);
    DivModUnique(2 * s + q, big, 0, 2 * s + q);
    CubeRound(m, r, s, q, (2 * s + q) / 3);
  }

  lemma GuessFits(big: nat, s: nat, r: nat)
    requires 0 < s <= 4 * r && r < big && big <= Pow(2, Pow(2, 52))
    ensures s < Pow(2, Pow(2, 52) + 2)
  {
    hide Pow;
    PowAdd(2, Pow(2, 52), 2);
    assert Pow(2, 2) == 4 by { SmallPowers(2); }
  }

  /** The first shift 1 << amount loses no bit. */
  lemma ShiftFits(big: nat, m: nat, r: nat, x: nat)
    requires (IsSquareRoot(m, r) || IsCubeRoot(m, r)) && 0 < r && x <= 4 * r && m < big && big >= 256
    ensures x % big == x
  {
    if r >= 4 {
      MulMonotone(4, r, r);
      MulMonotone(1, r, r * r);
    }
    DivModUnique(x, big, 0, x);
  }

  lemma RootBelow(m: nat, r: nat)
    ensures IsSquareRoot(m, r) ==> r <= m
    ensures IsCubeRoot(m, r) ==> r <= m
  {
    if r > 0 {
      MulMonotone(1, r, r);
      MulMonotone(1, r * r, r);
    }
  }

  /** `sqrt` on unsigned integers below `big` == 2^width, width at most 2^52:
      the floor of the root, always reached before the round limit. */
  method Sqrt(big: nat, m: nat) returns (s: nat, ghost cut: bool)
    requires 256 <= big <= Pow(2, Pow(2, 52)) && m < big
    ensures IsSquareRoot(m, s) && !cut
  {
    hide Pow, BitLength, Near, NewtonRound, SquareUpdate;
    ghost var r := SquareRootExists(m);
    cut := false;
    if m == 0 {
      return 0, false;
    }
    BitLengthBounds(m);
    var msb := BitLength(m) - 1;
    SquareGuess(m, r, msb);
    RootBelow(m, r);
    ShiftFits(big, m, r, Pow(2, SquareShift(msb)));
    hide IsSquareRoot;
    var u: nat := Pow(2, SquareShift(msb)) % big;
    s := 0;
    NearStart(r, u);
    GuessFits(big, u, r);
    for i := 0 to 64
      invariant i < 64 && Near(i, r, u) && 0 < r <= u <= 4 * r && u < Pow(2, Pow(2, 52) + 2)
    {
      s := u;
      var quotient := Divide(m, s);
      u := SquareUpdate(big, s, quotient);
      SquareUpdateRounds(big, m, r, s, quotient);
      RoundMeaning(i, r, s, u);
      if u >= s {
        return;
      }
      NearStep(i, r, s, u);
    }
    cut := true;
  }

  method Divide(m: nat, s: nat) returns (quotient: nat)
    requires s > 0
    ensures quotient * s <= m < quotient * s + s
  {
    QuotientBounds(m, s);
    quotient := m / s;
  }

  lemma RoundMeaning(i: nat, r: nat, s: nat, u: nat)
    ensures NewtonRound(r, s, u) ==> r <= u < s
    ensures Near(i, r, s) && i >= 63 ==> s == r
  {
  }

  /** m / s^2 without the power, which might overflow. */
  method DivideRepeatedly(m: nat, s: nat) returns (quotient: nat)
    requires s > 0
    ensures quotient * (s * s) <= m < quotient * (s * s) + s * s
  {
    hide IsQuotient;
    quotient := m;
    FirstQuotient(m, s);
    for j := 0 to 2
      invariant IsQuotient(m, s, j, quotient)
    {
      NextQuotient(m, s, j, quotient);
      quotient := quotient / s;
    }
    SecondQuotient(m, s, quotient);
  }

  ghost predicate IsQuotient(m: nat, s: nat, j: nat, q: nat) {
    q * Pow(s, j) <= m < q * Pow(s, j) + Pow(s, j)
  }

  lemma FirstQuotient(m: nat, s: nat)
    ensures IsQuotient(m, s, 0, m)
  {
    assert Pow(s, 0) == 1;
  }

  lemma NextQuotient(m: nat, s: nat, j: nat, q: nat)
    requires s > 0 && IsQuotient(m, s, j, q)
    ensures IsQuotient(m, s, j + 1, q / s)
  {
    QuotientBounds(q, s);
    NextPower(s, j);
    hide Pow;
    TwoQuotients(m, Pow(s, j), s, q, q / s);
  }

  lemma SecondQuotient(m: nat, s: nat, q: nat)
    requires IsQuotient(m, s, 2, q)
    ensures q * (s * s) <= m < q * (s * s) + s * s
  {
    assert Pow(s, 1) == s;
  }

  lemma TwoQuotients(m: nat, b: nat, s: nat, q: nat, p: nat)
    requires q * b <= m < q * b + b && p * s <= q < p * s + s
    ensures p * (b * s) <= m < p * (b * s) + b * s
  {
    MulMonotone(p * s, q, b);
    MulMonotone(q + 1, p * s + s, b);
  }

  /** `cbrt` on unsigned integers. */
  method Cbrt(big: nat, m: nat) returns (s: nat, ghost cut: bool)
    requires 256 <= big <= Pow(2, Pow(2, 52)) && m < big
    ensures IsCubeRoot(m, s) && !cut
  {
    hide Pow, BitLength, Near, NewtonRound, CubeUpdate;
    ghost var r := CubeRootExists(m);
    cut := false;
    if m == 0 {
      return 0, false;
    }
    BitLengthBounds(m);
    var msb := BitLength(m) - 1;
    CubeGuess(m, r, msb);
    RootBelow(m, r);
    ShiftFits(big, m, r, Pow(2, CubeShift(msb)));
    hide IsCubeRoot;
    var u: nat := Pow(2, CubeShift(msb)) % big;
    s := 0;
    NearStart(r, u);
    GuessFits(big, u, r);
    for i := 0 to 64
      invariant i < 64 && Near(i, r, u) && 0 < r <= u <= 4 * r && u < Pow(2, Pow(2, 52) + 2)
    {
      s := u;
      var quotient := DivideRepeatedly(m, s);
      u := CubeUpdate(big, s, quotient);
      CubeUpdateRounds(big, m, r, s, quotient);
      RoundMeaning(i, r, s, u);
      if u >= s {
        return;
      }
      NearStep(i, r, s, u);
    }
    cut := true;
  }
}