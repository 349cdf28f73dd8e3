/** Integer powers and the few non-linear facts the limb proofs lean on. */
module Powers {

  function Pow(x: nat, n: nat): (p: nat)
    ensures x > 0 ==> p > 0
  {
    if n == 0 then 1 else Pow(x, n - 1) * x
  }

  lemma SmallPowers(x: nat)
    ensures Pow(x, 0) == 1 && Pow(x, 1) == x && Pow(x, 2) == x * x
  {
    assert Pow(x, 1) == x;
  }

  lemma NextPower(x: nat, n: nat)
    ensures Pow(x, n + 1) == Pow(x, n) * x
  {
  }

  lemma FirstFactor(x: nat, n: nat)
    requires n > 0
    ensures Pow(x, n) == x * Pow(x, n - 1)
  {
  }

  lemma PowPositive(x: nat, n: nat)
    requires x > 0
    ensures Pow(x, n) > 0
  {
  }

  lemma {:induction false} PowAdd(x: nat, m: nat, n: nat)
    ensures Pow(x, m + n) == Pow(x, m) * Pow(x, n)
  {
    if n > 0 {
      PowAdd(x, m, n - 1);
      MulAssoc(Pow(x, m), Pow(x, n - 1), x);
    }
  }

  lemma {:induction false} PowMonotone(x: nat, m: nat, n: nat)
    requires x > 0 && m <= n
    ensures Pow(x, m) <= Pow(x, n)
  {
    if m < n {
      PowMonotone(x, m, n - 1);
      MulGrows(Pow(x, n - 1), x);
    }
  }

  lemma {:induction false} PowStrict(x: nat, m: nat, n: nat)
    requires x > 1 && m < n
    ensures Pow(x, m) < Pow(x, n)
  {
    PowMonotone(x, m, n - 1);
    MulGrows(Pow(x, n - 1), x);
  }

  lemma {:induction false} PowPow(x: nat, m: nat, n: nat)
    ensures Pow(Pow(x, m), n) == Pow(x, m * n)
  {
    if n > 0 {
      PowPow(x, m, n - 1);
      assert m * n == m * (n - 1) + m;
      PowAdd(x, m * (n - 1), m);
    }
  }

  lemma MulAssoc(x: int, y: int, z: int)
    ensures x * y * z == x * (y * z)
  {
  }

  lemma MulGrows(x: nat, y: nat)
    requires y > 0
    ensures x <= x * y
    ensures x > 0 && y > 1 ==> x < x * y
  {
  }

  lemma MulMonotone(x: int, y: int, z: nat)
    requires x <= y
    ensures x * z <= y * z
  {
  }

  /** Quotient and remainder are determined by their defining equation. */
  lemma DivModUnique(x: int, y: int, q: int, r: int)
    requires y > 0 && x == q * y + r && 0 <= r < y
    ensures x / y == q && x % y == r
  {
    var d := x / y - q;
    assert d * y == r - x % y;
    if d >= 1 {
      MulMonotone(1, d, y);
    } else if d <= -1 {
      MulMonotone(d, -1, y);
    }
  }

  lemma ModAddMultiple(x: int, k: int, y: int)
    requires y > 0
    ensures (x + k * y) % y == x % y
    ensures (x + k * y) / y == x / y + k
  {
    DivModUnique(x + k * y, y, x / y + k, x % y);
  }
}
