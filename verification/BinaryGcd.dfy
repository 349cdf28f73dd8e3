/** `gcd_unsafe` on one word and `gcd` on wide integers: binary reduction. */
module BinaryGcd {
  import opened Powers
  import opened NumberTheory
  import opened Bits

  lemma GcdSymmetric(x: nat, y: nat)
    ensures Gcd(x, y) == Gcd(y, x)
  {
    if x > 0 || y > 0 {
      GcdPositive(y, x);
      forall d: nat | d > 0 ensures Divides(d, Gcd(y, x)) <==> Divides(d, x) && Divides(d, y) {
        GcdDivisors(y, x, d);
      }
      GcdUnique(x, y, Gcd(y, x));
    }
  }

  lemma GcdSubtract(x: nat, y: nat)
    requires x <= y
    ensures Gcd(x, y - x) == Gcd(x, y)
  {
    if x > 0 {
      GcdPositive(x, y - x);
      forall d: nat | d > 0 ensures Divides(d, Gcd(x, y - x)) <==> Divides(d, x) && Divides(d, y) {
        GcdDivisors(x, y - x, d);
        if Divides(d, x) {
          DividesLinear(d, x, y, -1);
        }
      }
      GcdUnique(x, y, Gcd(x, y - x));
    }
  }

  lemma ProductParity(x: int, y: int)
    ensures x * y % 2 == 1 <==> x % 2 == 1 && y % 2 == 1
  {
    var k, r := x / 2, x % 2;
    ProductSplit(k, r, y);
    assert x * y == 2 * (k * y) + r * y;
    assert r * y == if r == 0 then 0 else y;
  }

  lemma ProductSplit(k: int, r: int, y: int)
    ensures (2 * k + r) * y == 2 * (k * y) + r * y
  {
  }

  lemma OddDivisor(d: nat, x: nat)
    requires d > 0 && d % 2 == 1
    ensures Divides(d, 2 * x) <==> Divides(d, x)
  {
    hide Divides;
    if Divides(d, 2 * x) {
      DividesProduct(d, 2 * x);
      var k :| 2 * x == k * d;
      ProductParity(k, d);
      HalfMultiple(x, k, d);
      DividesProduct(d, x);
    } else if Divides(d, x) {
      DividesMultiple(d, x, 2);
    }
  }

  lemma HalfMultiple(x: int, k: int, d: int)
    requires 2 * x == k * d && k % 2 == 0
    ensures x == k / 2 * d
  {
    var h := k / 2;
    assert k * d == 2 * (h * d);
  }

  lemma OddNumber(d: nat, x: nat)
    requires x % 2 == 1 && Divides(d, x)
    ensures d % 2 == 1
  {
    assert x == d * (x / d);
    ProductParity(d, x / d);
  }

  lemma GcdHalve(x: nat, y: nat)
    requires x % 2 == 1
    ensures Gcd(x, 2 * y) == Gcd(x, y)
  {
    GcdPositive(x, y);
    forall d: nat | d > 0 ensures Divides(d, Gcd(x, y)) <==> Divides(d, x) && Divides(d, 2 * y) {
      GcdDivisors(x, y, d);
      if Divides(d, x) {
        OddNumber(d, x);
        OddDivisor(d, y);
      }
    }
    GcdUnique(x, 2 * y, Gcd(x, y));
  }

  lemma {:induction false} GcdShift(x: nat, y: nat, n: nat)
    requires x % 2 == 1
    ensures Gcd(x, y * Pow(2, n)) == Gcd(x, y)
  {
    if n > 0 {
      GcdShift(x, y, n - 1);
      GcdHalve(x, y * Pow(2, n - 1));
      MulAssoc(y, Pow(2, n - 1), 2);
    }
  }

  lemma DoubleRemainder(x: nat, y: nat)
    requires y > 0
    ensures 2 * x % (2 * y) == 2 * (x % y)
  {
    var q, r := x / y, x % y;
    assert x == q * y + r;
    assert 2 * x == q * (2 * y) + 2 * r;
    DivModUnique(2 * x, 2 * y, q, 2 * r);
  }

  lemma {:induction false} GcdDouble(x: nat, y: nat)
    ensures Gcd(2 * x, 2 * y) == 2 * Gcd(x, y)
    decreases y
  {
    if y > 0 {
      GcdDouble(y, x % y);
      DoubleRemainder(x, y);
    }
  }

  lemma {:induction false} GcdScale(x: nat, y: nat, n: nat)
    ensures Gcd(x * Pow(2, n), y * Pow(2, n)) == Gcd(x, y) * Pow(2, n)
  {
    if n > 0 {
      var p := Pow(2, n - 1);
      GcdScale(x, y, n - 1);
      GcdDouble(x * p, y * p);
      MulAssoc(x, p, 2);
      MulAssoc(y, p, 2);
      MulAssoc(Gcd(x, y), p, 2);
    } else {
      assert Pow(2, 0) == 1;
    }
  }

  /** Taking out the powers of two and putting the common one back. */
  lemma GcdOfOddParts(x: nat, y: nat, s: nat, t: nat, g: nat)
    requires x % 2 == 1 && y % 2 == 1 && g == Gcd(x, y)
    ensures Gcd(x * Pow(2, s), y * Pow(2, t)) == g * Pow(2, if s <= t then s else t)
  {
    if s <= t {
      PowAdd(2, t - s, s);
      MulAssoc(y, Pow(2, t - s), Pow(2, s));
      GcdScale(x, y * Pow(2, t - s), s);
      GcdShift(x, y, t - s);
    } else {
      PowAdd(2, s - t, t);
      MulAssoc(x, Pow(2, s - t), Pow(2, t));
      GcdScale(x * Pow(2, s - t), y, t);
      GcdSymmetric(x * Pow(2, s - t), y);
      GcdShift(y, x, s - t);
      GcdSymmetric(y, x);
    }
  }

  lemma GcdBound(x: nat, y: nat)
    requires x > 0
    ensures 0 < Gcd(x, y) <= x
  {
    GcdPositive(x, y);
    var g := Gcd(x, y);
    DivModUnique(g, g, 1, 0);
    GcdDivisors(x, y, g);
    DividesBound(g, x);
  }

  lemma GcdEqual(x: nat)
    ensures Gcd(x, x) == x && Gcd(0, x) == x
  {
    if x > 0 {
      DivModUnique(x, x, 1, 0);
      GcdSymmetric(0, x);
    }
  }

  /** One reduction: the odd part of the difference. */
  lemma GcdReduce(u: nat, v: nat, w: nat, n: nat)
    requires u % 2 == 1 && u <= v && v - u == w * Pow(2, n)
    ensures Gcd(u, w) == Gcd(u, v)
  {
    GcdSubtract(u, v);
    GcdShift(u, w, n);
  }

  /** v >>= ctz(v). */
  method DropTrailingZeros(h: nat, v: nat) returns (odd: nat, ghost n: nat)
    requires h > 0 && 0 < v < Pow(2, Pow(2, h))
    ensures odd % 2 == 1 && v == odd * Pow(2, n) && 0 < odd <= v && n == TrailingZeros(v)
  {
    hide Pow, TrailingZeros;
    TrailingZerosFactor(v);
    var zeros := Ctz(h, v);
    n := zeros;
    odd := v / Pow(2, zeros);
    MulGrows(odd, Pow(2, n));
  }

  /** `gcd_unsafe` on words of 2^h bits. */
  method GcdUnsafe(h: nat, x: nat, y: nat) returns (g: nat)
    requires h > 0 && x < Pow(2, Pow(2, h)) && y < Pow(2, Pow(2, h))
    ensures g == Gcd(x, y)
  {
    hide Pow, TrailingZeros, Gcd;
    if x == 0 {
      GcdEqual(y);
      return y;
    }
    if y == 0 {
      GcdSymmetric(x, 0);
      GcdEqual(x);
      return x;
    }
    ghost var m := Pow(2, Pow(2, h));
    var trz := Ctz(h, x);
    var vtrz := Ctz(h, y);
    var shift: nat := if trz <= vtrz then trz else vtrz;
    TrailingZerosFactor(x);
    TrailingZerosFactor(y);
    ghost var x1, y1 := x / Pow(2, trz), y / Pow(2, vtrz);
    ShiftPart(y, y1, shift, vtrz);
    var v: nat := y / Pow(2, shift);
    var u: nat := x / Pow(2, trz);
    MulGrows(x1, Pow(2, trz));
    GcdShift(x1, y1, vtrz - shift);
    var first := true;
    while first || v != 0
      invariant 0 < u < m && v < m && u % 2 == 1
      invariant Gcd(u, v) == Gcd(x1, y1)
      invariant first ==> v > 0
      decreases if v == 0 then 0 else u + v
    {
      first := false;
      ghost var v0 := v;
      ghost var n: nat;
      v, n := DropTrailingZeros(h, v);
      GcdShift(u, v, n);
      if u > v {
        GcdSymmetric(u, v);
        u, v := v, u;
      }
      GcdSubtract(u, v);
      v := v - u;
    }
    GcdSymmetric(u, 0);
    GcdEqual(u);
    GcdOfOddParts(x1, y1, trz, vtrz, u);
    GcdBound(x, y);
    WrappedShift(u, shift, Gcd(x, y), m);
    g := u * Pow(2, shift) % Pow(2, Pow(2, h));
  }

  lemma WrappedShift(u: nat, shift: nat, g: nat, m: nat)
    requires g == u * Pow(2, shift) < m
    ensures u * Pow(2, shift) % m == g
  {
    DivModUnique(g, m, 0, g);
  }

  lemma ShiftPart(y: nat, y1: nat, s: nat, t: nat)
    requires y == y1 * Pow(2, t) && s <= t && y > 0
    ensures Pow(2, s) > 0 && 0 < y / Pow(2, s) <= y && y / Pow(2, s) == y1 * Pow(2, t - s)
  {
    PowAdd(2, t - s, s);
    MulAssoc(y1, Pow(2, t - s), Pow(2, s));
    DivModUnique(y, Pow(2, s), y1 * Pow(2, t - s), 0);
    MulGrows(y1 * Pow(2, t - s), Pow(2, s));
  }

  /** The two low limbs of `v` as a double limb, a missing second limb read as
      zero; the whole number when it fits. */
  lemma TwoLimbs(b: nat, count: nat, v: nat)
    requires b > 1 && count > 0 && v < Pow(b, count) && v < b * b
    ensures v % b + (if count >= 2 then v / b % b else 0) * b == v
  {
    SmallPowers(b);
    hide Pow;
    if count == 1 {
      DivModUnique(v, b, 0, v);
    } else {
      HighLimb(b, v);
    }
  }

  lemma HighLimb(b: nat, v: nat)
    requires b > 1 && v < b * b
    ensures v % b + v / b % b * b == v
  {
    var q, r := v / b, v % b;
    assert v == q * b + r;
    if q >= b {
      MulMonotone(b, q, b);
    }
    DivModUnique(q, b, 0, q);
  }

  lemma DoubleWord(h: nat)
    ensures Pow(2, Pow(2, h + 1)) == Pow(2, Pow(2, h)) * Pow(2, Pow(2, h)) && Pow(2, Pow(2, h)) > 1
  {
    assert Pow(2, h + 1) == Pow(2, h) + Pow(2, h);
    PowAdd(2, Pow(2, h), Pow(2, h));
    PowStrict(2, 0, Pow(2, h));
  }

  /** `gcd` on unsigned integers of `count` limbs of 2^h bits each. Both numbers
      are reduced to odd parts until they agree or fit two limbs. */
  method WideGcd(h: nat, count: nat, x: nat, y: nat) returns (result: nat)
    requires count > 0 && x < Pow(Pow(2, Pow(2, h)), count) && y < Pow(Pow(2, Pow(2, h)), count)
    ensures result == Gcd(x, y)
  {
    hide Pow, TrailingZeros, Gcd;
    GcdEqual(x);
    GcdEqual(y);
    GcdSymmetric(x, 0);
    if x == y {
      return x;
    } else if y == 0 {
      return x;
    } else if x == 0 {
      return y;
    }
    DoubleWord(h);
    var b := Pow(2, Pow(2, h));
    ghost var m := Pow(b, count);
    TrailingZerosFactor(x);
    TrailingZerosFactor(y);
    var uShift, vShift := TrailingZeros(x), TrailingZeros(y);
    var leftShift := if uShift <= vShift then uShift else vShift;
    var u: nat, v: nat := x / Pow(2, uShift), y / Pow(2, vShift);
    ghost var x1, y1 := u, v;
    MulGrows(u, Pow(2, uShift));
    MulGrows(v, Pow(2, vShift));
    while true
      invariant 0 < u < m && 0 < v < m && u % 2 == 1 && v % 2 == 1 && Gcd(u, v) == Gcd(x1, y1)
      decreases u + v
    {
      if u > v {
        GcdSymmetric(u, v);
        u, v := v, u;
      }
      if u == v {
        GcdEqual(u);
        break;
      }
      if v <= b * b - 1 {
        var vHi := if count >= 2 then v / b % b else 0;
        var uHi := if count >= 2 then u / b % b else 0;
        TwoLimbs(b, count, u);
        TwoLimbs(b, count, v);
        GcdSymmetric(v, u);
        u := GcdUnsafe(h + 1, v % b + vHi * b, u % b + uHi * b);
        break;
      }
      var difference: nat := v - u;
      TrailingZerosFactor(difference);
      var w: nat, shift := difference / Pow(2, TrailingZeros(difference)), TrailingZeros(difference);
      MulGrows(w, Pow(2, shift));
      GcdReduce(u, v, w, shift);
      v := w;
    }
    GcdOfOddParts(x1, y1, uShift, vShift, u);
    GcdBound(x, y);
    WrappedShift(u, leftShift, Gcd(x, y), m);
    result := u * Pow(2, leftShift) % Pow(b, count);
  }
}
