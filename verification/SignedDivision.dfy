/**
  Two's-complement division on top of `eval_divide_knuth`: the operators `/=`
  and `%=` truncate, `divmod` floors.
 */
module SignedDivision {
  import opened Powers
  import opened Limbs
  import opened LimbArithmetic
  import opened Multiplication
  import opened KnuthDivision

  /** `is_neg`: the top bit of the top limb of a signed type. */
  predicate IsNegative(b: nat, s: seq<nat>, signed: bool) {
    signed && |s| > 0 && b <= 2 * s[|s| - 1]
  }

  /** The number a limb sequence stands for. */
  function Number(b: nat, s: seq<nat>, signed: bool): int {
    if IsNegative(b, s, signed) then Value(b, s) - Pow(b, |s|) else Value(b, s)
  }

  function Magnitude(x: int): nat {
    if x < 0 then -x else x
  }

  /** Rounding toward zero. */
  function TruncatedQuotient(x: int, y: int): int
    requires y != 0
  {
    if x >= 0 then x / y else -((-x) / y)
  }

  function TruncatedRemainder(x: int, y: int): int
    requires y != 0
  {
    x - y * TruncatedQuotient(x, y)
  }

  /** Rounding toward minus infinity. */
  function FlooredQuotient(x: int, y: int): int
    requires y != 0
  {
    if y > 0 then x / y else (-x) / (-y)
  }

  function FlooredRemainder(x: int, y: int): int
    requires y != 0
  {
    x - y * FlooredQuotient(x, y)
  }

  lemma NegativeHalf(b: nat, s: seq<nat>)
    requires b > 1 && b % 2 == 0 && |s| > 0 && IsLimbs(b, s)
    ensures IsNegative(b, s, true) <==> Pow(b, |s|) <= 2 * Value(b, s)
    ensures Value(b, s) < Pow(b, |s|)
  {
    var n := |s| - 1;
    ValueBound(b, s);
    ValueBound(b, s[..n]);
    TopHalf(b, Pow(b, n), Value(b, s[..n]), s[n]);
  }

  lemma TopHalf(b: nat, p: nat, low: nat, top: nat)
    requires b % 2 == 0 && low < p
    ensures b <= 2 * top <==> p * b <= 2 * (low + top * p)
  {
    assert 2 * top * p == 2 * (top * p);
    if b <= 2 * top {
      MulMonotone(b, 2 * top, p);
    } else {
      MulMonotone(2 * top + 2, b, p);
    }
  }

  /** The limbs are the number modulo 2^width, and the number is the one of
      that residue in the range of the type. */
  lemma NumberResidue(b: nat, s: seq<nat>, signed: bool)
    requires b > 1 && b % 2 == 0 && |s| > 0 && IsLimbs(b, s)
    ensures Pow(b, |s|) > 0 && Value(b, s) == Number(b, s, signed) % Pow(b, |s|)
    ensures signed ==> 0 - Pow(b, |s|) <= 2 * Number(b, s, signed) < Pow(b, |s|)
    ensures Magnitude(Number(b, s, signed)) < Pow(b, |s|)
  {
    hide Value, Pow;
    NegativeHalf(b, s);
    hide IsNegative;
    var m, z := Pow(b, |s|), Number(b, s, signed);
    DivModUnique(z, m, if z < 0 then -1 else 0, Value(b, s));
  }

  /** A number in range is read back unchanged; the one quotient out of range
      is the minimum divided by -1. */
  lemma InRange(b: nat, s: seq<nat>, z: int)
    requires b > 1 && b % 2 == 0 && |s| > 0 && IsLimbs(b, s) && Pow(b, |s|) > 0 && Value(b, s) == z % Pow(b, |s|)
    ensures Number(b, s, true) == z <==> 0 - Pow(b, |s|) <= 2 * z < Pow(b, |s|)
  {
    hide Value, Pow, IsNegative;
    NumberResidue(b, s, true);
    NegativeHalf(b, s);
    var m := Pow(b, |s|);
    if 0 - m <= 2 * z < m {
      DivModUnique(z, m, if z < 0 then -1 else 0, if z < 0 then z + m else z);
    }
  }

  lemma TruncatedInRange(m: nat, x: int, y: int)
    requires y != 0 && 0 - m <= 2 * x < m && 0 - m <= 2 * y < m && m % 2 == 0
    ensures 0 - m <= 2 * TruncatedQuotient(x, y) < m <==> !(2 * x == 0 - m && y == -1)
    ensures 0 - m <= 2 * TruncatedRemainder(x, y) < m
  {
    hide TruncatedQuotient, TruncatedRemainder;
    TruncatedMagnitudes(x, y);
    QuotientShrinks(Magnitude(x), Magnitude(y));
  }

  lemma QuotientShrinks(a: nat, c: nat)
    requires c > 0
    ensures a / c <= a && a % c < c && a % c <= a
    ensures c > 1 ==> 2 * (a / c) <= a
    ensures c == 1 ==> a / c == a
  {
    var q := a / c;
    assert a == q * c + a % c;
    MulMonotone(1, c, q);
    if c > 1 {
      MulMonotone(2, c, q);
    }
  }

  /** Truncated division is division of the magnitudes with the signs put back. */
  /** The laws of truncated and floored division. */
  lemma TruncationLaw(x: int, y: int)
    requires y != 0
    ensures var q, r := TruncatedQuotient(x, y), TruncatedRemainder(x, y);
      x == q * y + r && 0 - Magnitude(y) < r < Magnitude(y) && (r == 0 || (r < 0 <==> x < 0))
  {
  }

  lemma FloorLaw(x: int, y: int)
    requires y != 0
    ensures var q, r := FlooredQuotient(x, y), FlooredRemainder(x, y);
      x == q * y + r && 0 - Magnitude(y) < r < Magnitude(y) && (r == 0 || (r < 0 <==> y < 0))
  {
  }

  lemma TruncatedMagnitudes(x: int, y: int)
    requires y != 0
    ensures var q := Magnitude(x) / Magnitude(y);
            TruncatedQuotient(x, y) == if (x < 0) != (y < 0) then 0 - q else q
    ensures var r := Magnitude(x) % Magnitude(y); TruncatedRemainder(x, y) == if x < 0 then 0 - r else r
  {
    var a, c := Magnitude(x), Magnitude(y);
    if y < 0 {
      EuclideanNegative(a, y);
    }
    assert a == c * (a / c) + a % c;
  }

  lemma EuclideanNegative(a: nat, y: int)
    requires y < 0
    ensures a / y == -(a / -y)
  {
    var d := a / y + a / -y;
    assert a == (-y) * (a / -y) + a % -y && a == y * (a / y) + a % y;
    assert y * d == a % -y - a % y;
    var c := -y;
    DivModUnique(a, c, a / c, a % c);
    DivModUnique(a, c, -(a / y), a % y);
  }

  lemma FlooredMagnitudes(x: int, y: int)
    requires y != 0
    ensures var q: int, r: int, c: int := Magnitude(x) / Magnitude(y), Magnitude(x) % Magnitude(y), Magnitude(y);
            && FlooredQuotient(x, y) == (if (x < 0) == (y < 0) then q else if r == 0 then -q else -(q + 1))
            && FlooredRemainder(x, y) == (if (x < 0) == (y < 0) then if x < 0 then -r else r
                                          else if r == 0 then 0 else if x < 0 then c - r else r - c)
  {
    var a: int, c: int := Magnitude(x), Magnitude(y);
    var q: int, r: int := a / c, a % c;
    NegatedDivision(a, c);
    SignedProduct(y, c, FlooredQuotient(x, y));
    SignedProduct(c, c, q);
    SignedProduct(c, c, -a / c);
  }

  /** Euclidean division of -a, and both division equations. */
  lemma NegatedDivision(a: int, c: int)
    requires c > 0 && a >= 0
    ensures -a / c == if a % c == 0 then -(a / c) else -(a / c + 1)
    ensures a == a / c * c + a % c && -a == -a / c * c + if a % c == 0 then 0 else c - a % c
  {
    var q, r := a / c, a % c;
    assert a == q * c + r;
    NegatedMultiple(q, c);
    DivModUnique(-a, c, if r == 0 then -q else -(q + 1), if r == 0 then 0 else c - r);
  }

  lemma NegatedMultiple(q: int, c: int)
    ensures -q * c == -(q * c) && -(q + 1) * c == -(q * c) - c
  {
  }

  lemma SignedProduct(y: int, c: int, q: int)
    requires y == c || y == -c
    ensures y * q == if y == c then q * c else -(q * c)
  {
  }

  lemma {:induction false} Complemented(b: nat, s: seq<nat>, t: seq<nat>)
    requires b > 0 && |s| == |t| && forall k :: 0 <= k < |s| ==> s[k] + t[k] == b - 1
    ensures Value(b, s) + Value(b, t) == Pow(b, |s|) - 1
  {
    if |s| > 0 {
      var n := |s| - 1;
      Complemented(b, s[..n], t[..n]);
      ComplementDigit(Pow(b, n), b, s[n], t[n]);
    }
  }

  lemma ComplementDigit(p: int, b: int, x: int, y: int)
    requires x + y == b - 1
    ensures x * p + y * p == p * b - p
  {
    assert (x + y) * p == (b - 1) * p;
  }

  method BitwiseNot(b: nat, values: array<nat>)
    requires b > 0 && IsLimbs(b, values[..])
    modifies values
    ensures IsLimbs(b, values[..])
    ensures Value(b, values[..]) + old(Value(b, values[..])) == Pow(b, values.Length) - 1
  {
    hide Value, Pow;
    ghost var us := values[..];
    for i := 0 to values.Length
      invariant forall k :: 0 <= k < i ==> values[k] == b - 1 - us[k]
      invariant forall k :: i <= k < values.Length ==> values[k] == us[k]
    {
      values[i] := b - 1 - values[i];
    }
    Complemented(b, us, values[..]);
  }

  /** A limb plus one, as the limb type wraps. */
  function WrapUp(b: nat, x: nat): nat {
    if x + 1 == b then 0 else x + 1
  }

  /** `preincrement`: the carry runs as long as a limb wraps to zero. */
  method Increment(b: nat, values: array<nat>)
    requires b > 1 && values.Length > 0 && IsLimbs(b, values[..])
    modifies values
    ensures IsLimbs(b, values[..]) && Pow(b, values.Length) > 0
    ensures Value(b, values[..]) == (old(Value(b, values[..])) + 1) % Pow(b, values.Length)
  {
    hide Value, Pow;
    ghost var us := values[..];
    var n, it := values.Length, 0;
    var more := true;
    while more
      invariant 0 <= it <= n && (more ==> it < n)
      invariant forall k :: 0 <= k < (if more then it else it - 1) ==> us[k] == b - 1 && values[k] == 0
      invariant !more ==> it > 0 && values[it - 1] == WrapUp(b, us[it - 1]) && (values[it - 1] != 0 || it == n)
      invariant forall k :: it <= k < n ==> values[k] == us[k]
      invariant IsLimbs(b, values[..])
      decreases n - it, more
    {
      values[it] := WrapUp(b, values[it]);
      it := it + 1;
      more := values[it - 1] == 0 && it < n;
    }
    Incremented(b, us, values[..], it - 1);
  }

  lemma Incremented(b: nat, us: seq<nat>, vs: seq<nat>, i: nat)
    requires b > 1 && |us| == |vs| && i < |us| && IsLimbs(b, us) && IsLimbs(b, vs)
    requires forall k :: 0 <= k < i ==> us[k] == b - 1 && vs[k] == 0
    requires vs[i] == WrapUp(b, us[i]) && (vs[i] != 0 || i + 1 == |us|) && us[i + 1..] == vs[i + 1..]
    ensures Pow(b, |us|) > 0 && Value(b, vs) == (Value(b, us) + 1) % Pow(b, |us|)
  {
    hide Value, Pow;
    if us[i] + 1 == b {
      AllOnes(b, us, vs, i);
    } else {
      ValueBound(b, vs);
      CarryStops(b, us, vs, i);
      DivModUnique(Value(b, us) + 1, Pow(b, |us|), 0, Value(b, vs));
    }
  }

  lemma CarryStops(b: nat, us: seq<nat>, vs: seq<nat>, i: nat)
    requires b > 1 && |us| == |vs| && i < |us|
    requires forall k :: 0 <= k < i ==> us[k] == b - 1 && vs[k] == 0
    requires vs[i] == us[i] + 1 && us[i + 1..] == vs[i + 1..]
    ensures Value(b, vs) == Value(b, us) + 1
  {
    hide Value, Pow;
    var hu, hv, rest := us[..i], vs[..i], us[i + 1..];
    ValueZeros(b, hv);
    Complemented(b, hu, hv);
    DigitAt(us, i);
    DigitAt(vs, i);
    CarriedHead(b, hu, hv, us[i], rest);
  }

  lemma DigitAt(s: seq<nat>, i: nat)
    requires i < |s|
    ensures s == s[..i] + [s[i]] + s[i + 1..]
  {
  }

  lemma CarriedHead(b: nat, hu: seq<nat>, hv: seq<nat>, x: nat, rest: seq<nat>)
    requires |hu| == |hv| && Value(b, hv) == 0 && Value(b, hu) == Pow(b, |hu|) - 1
    ensures Value(b, hv + [x + 1] + rest) == Value(b, hu + [x] + rest) + 1
  {
    hide Value, Pow;
    PrefixShift(b, hu + [x], hv + [x + 1], rest);
    ValueSnoc(b, hu, x);
    ValueSnoc(b, hv, x + 1);
    NextMultiple(x, Pow(b, |hu|));
  }

  lemma NextMultiple(x: int, p: int)
    ensures (x + 1) * p == x * p + p
  {
  }

  lemma AllOnes(b: nat, us: seq<nat>, vs: seq<nat>, i: nat)
    requires b > 1 && |us| == |vs| == i + 1
    requires forall k :: 0 <= k <= i ==> us[k] == b - 1 && vs[k] == 0
    ensures Pow(b, |us|) > 0 && Value(b, vs) == (Value(b, us) + 1) % Pow(b, |us|)
  {
    hide Value, Pow;
    ValueZeros(b, vs);
    Complemented(b, us, vs);
    ValueBound(b, vs);
    DivModUnique(Value(b, us) + 1, Pow(b, i + 1), 1, 0);
  }

  /** `negate`. */
  method Negate(b: nat, values: array<nat>)
    requires b > 1 && values.Length > 0 && IsLimbs(b, values[..])
    modifies values
    ensures IsLimbs(b, values[..]) && Pow(b, values.Length) > 0
    ensures Value(b, values[..]) == (0 - old(Value(b, values[..]))) % Pow(b, values.Length)
  {
    hide Value, Pow;
    ghost var u: int, m: nat := Value(b, values[..]), Pow(b, values.Length);
    ValueBound(b, values[..]);
    BitwiseNot(b, values);
    Increment(b, values);
    ModAddMultiple(-u, 1, m);
  }

  /** Assignment of all limbs. */
  method CopyAll(dst: array<nat>, src: array<nat>)
    requires dst.Length == src.Length && dst != src
    modifies dst
    ensures dst[..] == src[..]
  {
    CopyRange(src, 0, dst, 0, src.Length);
    assert dst[..] == dst[0..0 + src.Length] && src[..] == src[0..0 + src.Length];
  }

  /** A copy as an unsigned number, negated when asked. */
  method MagnitudeOf(b: nat, values: array<nat>, negative: bool) returns (r: array<nat>)
    requires b > 1 && b % 2 == 0 && values.Length > 0 && IsLimbs(b, values[..])
    requires negative ==> IsNegative(b, values[..], true)
    ensures fresh(r) && r.Length == values.Length && IsLimbs(b, r[..])
    ensures Value(b, r[..]) == Magnitude(Number(b, values[..], negative))
  {
    hide Value, Pow;
    r := new nat[values.Length];
    CopyAll(r, values);
    if negative {
      Negate(b, r);
      NegativeHalf(b, values[..]);
      hide IsNegative;
      ghost var u: int, m: int := Value(b, values[..]), Pow(b, values.Length);
      DivModUnique(-u, m, -1, m - u);
    }
  }

  /** operator /=. An object divided by itself is set to one, zero included;
      a zero divisor gives the maximum; otherwise the quotient is truncated. */
  method DivideAssign(b: nat, values: array<nat>, other: array<nat>, signed: bool)
    requires b > 1 && b % 2 == 0 && 0 < values.Length == other.Length
    requires IsLimbs(b, values[..]) && IsLimbs(b, other[..])
    modifies values
    ensures IsLimbs(b, values[..]) && Pow(b, values.Length) > 0
    ensures values == other ==> Value(b, values[..]) == 1
    ensures values != other && Number(b, other[..], signed) == 0 ==> values[..] == MaxLimbs(b, values.Length, signed)
    ensures values != other && Number(b, other[..], signed) != 0 ==>
      Value(b, values[..]) == TruncatedQuotient(old(Number(b, values[..], signed)), Number(b, other[..], signed)) % Pow(b, values.Length)
  {
    hide Value, Pow;
    ghost var x, y, m := Number(b, values[..], signed), Number(b, other[..], signed), Pow(b, values.Length);
    NumberResidue(b, values[..], signed);
    NumberResidue(b, other[..], signed);
    if values == other {
      Assign(b, values, 1);
      return;
    }
    var zero := IsZero(b, other);
    Signs(b, other[..], signed);
    if zero {
      AssignMax(b, values, signed);
      return;
    }
    var numerWasNeg := IsNegative(b, values[..], signed);
    var denomWasNeg := IsNegative(b, other[..], signed);
    Signs(b, values[..], signed);
    hide IsNegative;
    TruncatedMagnitudes(x, y);
    if numerWasNeg || denomWasNeg {
      var u := MagnitudeOf(b, values, numerWasNeg);
      var v := MagnitudeOf(b, other, denomWasNeg);
      Divide(b, u, v, null, false);
      ghost var q := Value(b, u[..]);
      if numerWasNeg != denomWasNeg {
        Negate(b, u);
      }
      CopyAll(values, u);
      NumberResidue(b, u[..], false);
    } else {
      Divide(b, values, other, null, signed);
      NumberResidue(b, values[..], false);
    }
  }

  lemma Signs(b: nat, s: seq<nat>, signed: bool)
    requires b > 1 && b % 2 == 0 && |s| > 0 && IsLimbs(b, s)
    ensures IsNegative(b, s, signed) <==> Number(b, s, signed) < 0
    ensures IsNegative(b, s, signed) ==> IsNegative(b, s, true)
    ensures Number(b, s, IsNegative(b, s, signed)) == Number(b, s, signed)
    ensures Number(b, s, signed) == 0 <==> Value(b, s) == 0
    ensures Number(b, s, false) == Value(b, s)
  {
    NegativeHalf(b, s);
  }

  /** operator %=. The remainder takes the sign of the numerator; a zero
      divisor gives zero. */
  method RemainderAssign(b: nat, values: array<nat>, other: array<nat>, signed: bool)
    requires b > 1 && b % 2 == 0 && 0 < values.Length == other.Length
    requires IsLimbs(b, values[..]) && IsLimbs(b, other[..])
    modifies values
    ensures IsLimbs(b, values[..]) && Pow(b, values.Length) > 0
    ensures values == other || Number(b, other[..], signed) == 0 ==> Value(b, values[..]) == 0
    ensures values != other && Number(b, other[..], signed) != 0 ==>
      Value(b, values[..]) == TruncatedRemainder(old(Number(b, values[..], signed)), Number(b, other[..], signed)) % Pow(b, values.Length)
  {
    hide Value, Pow;
    ghost var x, y, m := Number(b, values[..], signed), Number(b, other[..], signed), Pow(b, values.Length);
    NumberResidue(b, values[..], signed);
    NumberResidue(b, other[..], signed);
    if values == other {
      Assign(b, values, 0);
      return;
    }
    var numerWasNeg := IsNegative(b, values[..], signed);
    var denomWasNeg := IsNegative(b, other[..], signed);
    Signs(b, values[..], signed);
    Signs(b, other[..], signed);
    hide IsNegative;
    if y != 0 {
      TruncatedMagnitudes(x, y);
    }
    var u, remainder := values, new nat[values.Length];
    if numerWasNeg || denomWasNeg {
      u := MagnitudeOf(b, values, numerWasNeg);
      var v := MagnitudeOf(b, other, denomWasNeg);
      Divide(b, u, v, remainder, false);
      NumberResidue(b, remainder[..], false);
      ZeroResidue(m);
      if numerWasNeg {
        Negate(b, remainder);
      }
    } else {
      Divide(b, values, other, remainder, signed);
      NumberResidue(b, remainder[..], false);
    }
    CopyAll(values, remainder);
  }

  /** What a zero divisor yields is the largest number of the type. */
  lemma LargestNumber(b: nat, s: seq<nat>, signed: bool)
    requires b > 1 && b % 2 == 0 && |s| > 0 && IsLimbs(b, s)
    ensures IsLimbs(b, MaxLimbs(b, |s|, signed)) && Number(b, s, signed) <= Number(b, MaxLimbs(b, |s|, signed), signed)
  {
    hide Value, Pow, Number, IsNegative;
    var top := MaxLimbs(b, |s|, signed);
    assert IsLimbs(b, top);
    LargestValue(b, |s|, signed);
    NumberResidue(b, s, signed);
    NumberResidue(b, top, signed);
    NumberOf(b, s, signed);
    NumberOf(b, top, signed);
  }

  lemma NumberOf(b: nat, s: seq<nat>, signed: bool)
    requires b > 1 && b % 2 == 0 && |s| > 0 && IsLimbs(b, s)
    ensures Number(b, s, signed) == Value(b, s) - (if signed && Pow(b, |s|) <= 2 * Value(b, s) then Pow(b, |s|) else 0)
    ensures Value(b, s) < Pow(b, |s|)
  {
    hide Value, Pow;
    NegativeHalf(b, s);
  }

  lemma LargestValue(b: nat, count: nat, signed: bool)
    requires b > 1 && b % 2 == 0 && count > 0
    ensures if signed then 2 * Value(b, MaxLimbs(b, count, true)) == Pow(b, count) - 2 else Value(b, MaxLimbs(b, count, false)) == Pow(b, count) - 1
  {
    hide Value, Pow;
    var s, n := MaxLimbs(b, count, signed), count - 1;
    assert s == s[..n] + [s[n]] && s[..n] == MaxLimbs(b, n, false);
    ValueSnoc(b, s[..n], s[n]);
    AllOnesResidue(b, s[..n]);
    NextPower(b, n);
    TopOnes(Pow(b, n), b, s[n]);
  }

  lemma TopOnes(p: nat, b: nat, top: nat)
    requires b % 2 == 0
    ensures top == b - 1 ==> p - 1 + p * top == p * b - 1
    ensures top == b / 2 - 1 ==> 2 * (p - 1 + p * top) == p * b - 2
  {
    var h := b / 2;
    assert p * (2 * h) == 2 * (p * h);
    assert p * (h - 1) == p * h - p && p * (b - 1) == p * b - p;
  }

  lemma ZeroResidue(m: nat)
    requires m > 0
    ensures 0 % m == 0 && (0 - 0) % m == 0
  {
  }

  /** operator -=, the borrow dropped. */
  method SubtractAssign(b: nat, values: array<nat>, other: array<nat>)
    requires b > 1 && 0 < values.Length == other.Length && values != other
    requires IsLimbs(b, values[..]) && IsLimbs(b, other[..])
    modifies values
    ensures IsLimbs(b, values[..]) && Pow(b, values.Length) > 0
    ensures Value(b, values[..]) == (old(Value(b, values[..])) - Value(b, other[..])) % Pow(b, values.Length)
  {
    hide Value, Pow;
    ghost var u: int, v: int, n := Value(b, values[..]), Value(b, other[..]), values.Length;
    assert values[0..values.Length] == values[..] && other[0..values.Length] == other[..];
    ValueBound(b, values[..]);
    var borrow := SubtractN(b, values, 0, values, 0, other, 0, values.Length, false);
    assert values[0..values.Length] == values[..];
    ValueBound(b, values[..]);
    DivModUnique(u - v, Pow(b, n), if borrow then -1 else 0, Value(b, values[..]));
  }

  lemma NegatedResidue(m: nat, u: nat, z: int)
    requires m > 0 && u == z % m
    ensures (0 - u) % m == (-z) % m
  {
    assert z == m * (z / m) + u;
    ModAddMultiple(0 - u, -(z / m), m);
  }

  /** The quotient of `divmod`, with the values it gives for a zero divisor. */
  function DivModQuotient(x: int, y: int): int {
    if y != 0 then FlooredQuotient(x, y) else if x < 0 then 1 else -1
  }

  function DivModRemainder(x: int, y: int): int {
    if y != 0 then FlooredRemainder(x, y) else 0
  }

  function SignedQuotient(u: int, rest: int, numerWasNeg: bool, denomWasNeg: bool): int {
    if numerWasNeg == denomWasNeg then u else if rest == 0 then -u else -(u + 1)
  }

  function SignedRemainder(rest: int, c: int, numerWasNeg: bool, denomWasNeg: bool): int {
    if numerWasNeg == denomWasNeg then if numerWasNeg then -rest else rest
    else if rest == 0 then 0 else if numerWasNeg then c - rest else rest - c
  }

  lemma FloorCases(m: nat, x: int, y: int, u: int, rest: int)
    requires m > 0
    requires y != 0 ==> u == Magnitude(x) / Magnitude(y) && rest == Magnitude(x) % Magnitude(y)
    requires y == 0 ==> u == m - 1 && rest == 0
    ensures SignedQuotient(u, rest, x < 0, y < 0) % m == DivModQuotient(x, y) % m
    ensures SignedRemainder(rest, Magnitude(y), x < 0, y < 0) == DivModRemainder(x, y)
  {
    if y != 0 {
      FlooredMagnitudes(x, y);
    } else {
      ModAddMultiple(-1, 1, m);
      ModAddMultiple(1, -1, m);
    }
  }

  /** `divmod` with at least one signed operand: quotient and remainder of the
      flooring division; by zero, -1 or 1 by the sign of the numerator, and 0. */
  method DivMod(b: nat, a: array<nat>, c: array<nat>, signedA: bool, signedC: bool) returns (q: array<nat>, r: array<nat>)
    requires b > 1 && b % 2 == 0 && 0 < a.Length == c.Length
    requires IsLimbs(b, a[..]) && IsLimbs(b, c[..])
    ensures fresh(q) && fresh(r) && q.Length == r.Length == a.Length
    ensures IsLimbs(b, q[..]) && IsLimbs(b, r[..]) && Pow(b, a.Length) > 0
    ensures Value(b, q[..]) == DivModQuotient(Number(b, a[..], signedA), Number(b, c[..], signedC)) % Pow(b, a.Length)
    ensures Value(b, r[..]) == DivModRemainder(Number(b, a[..], signedA), Number(b, c[..], signedC)) % Pow(b, a.Length)
  {
    hide Value, Pow, DivModQuotient, DivModRemainder, SignedQuotient, SignedRemainder;
    ghost var x, y, m := Number(b, a[..], signedA), Number(b, c[..], signedC), Pow(b, a.Length);
    NumberResidue(b, a[..], signedA);
    var numerWasNeg := IsNegative(b, a[..], signedA);
    var denomWasNeg := IsNegative(b, c[..], signedC);
    Signs(b, a[..], signedA);
    Signs(b, c[..], signedC);
    hide IsNegative;
    var v := MagnitudeOf(b, c, denomWasNeg);
    q := MagnitudeOf(b, a, numerWasNeg);
    r := new nat[a.Length];
    hide Number;
    Divide(b, q, v, r, false);
    if y == 0 {
      AllOnesResidue(b, q[..]);
    }
    FloorCases(m, x, y, Value(b, q[..]), Value(b, r[..]));
    FloorSigns(b, q, r, v, numerWasNeg, denomWasNeg);
  }

  /** The signs put back on the quotient and remainder of the magnitudes. */
  method FloorSigns(b: nat, q: array<nat>, r: array<nat>, v: array<nat>, numerWasNeg: bool, denomWasNeg: bool)
    requires b > 1 && b % 2 == 0 && 0 < q.Length == r.Length == v.Length && q != r && v != q && v != r
    requires IsLimbs(b, q[..]) && IsLimbs(b, r[..]) && IsLimbs(b, v[..])
    modifies q, r
    ensures IsLimbs(b, q[..]) && IsLimbs(b, r[..]) && Pow(b, q.Length) > 0
    ensures Value(b, q[..])
         == SignedQuotient(old(Value(b, q[..])), old(Value(b, r[..])), numerWasNeg, denomWasNeg) % Pow(b, q.Length)
    ensures Value(b, r[..])
         == SignedRemainder(old(Value(b, r[..])), Value(b, v[..]), numerWasNeg, denomWasNeg) % Pow(b, q.Length)
  {
    hide Value, Pow;
    ghost var u: int, rest: int, c: int, m := Value(b, q[..]), Value(b, r[..]), Value(b, v[..]), Pow(b, q.Length);
    NumberResidue(b, q[..], false);
    NumberResidue(b, r[..], false);
    ZeroResidue(m);
    if numerWasNeg == denomWasNeg {
      if numerWasNeg {
        Negate(b, r);
      }
    } else {
      var exact := IsZero(b, r);
      if !exact {
        Increment(b, q);
        SubtractAssign(b, r, v);
        NegatedResidue(m, Value(b, q[..]), u + 1);
        NegatedResidue(m, Value(b, r[..]), rest - c);
      }
      Negate(b, q);
      if !denomWasNeg {
        Negate(b, r);
      }
    }
  }

  lemma AllOnesResidue(b: nat, s: seq<nat>)
    requires b > 1 && s == MaxLimbs(b, |s|, false)
    ensures Pow(b, |s|) > 0 && Value(b, s) == -1 % Pow(b, |s|) == Pow(b, |s|) - 1
  {
    hide Value, Pow;
    ghost var zeros: seq<nat> := seq(|s|, _ => 0);
    ValueZeros(b, zeros);
    Complemented(b, s, zeros);
    ValueBound(b, s);
    DivModUnique(-1, Pow(b, |s|), -1, Pow(b, |s|) - 1);
  }
}