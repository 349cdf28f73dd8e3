/** Bit positions: `clz_unsafe`, `ctz_unsafe`, and `lsb` and `msb` over limbs. */
module Bits {
  import opened Powers
  import opened Limbs

  function BitLength(v: nat): nat {
    if v == 0 then 0 else 1 + BitLength(v / 2)
  }

  function Bit(x: nat, i: nat): nat {
    x / Pow(2, i) % 2
  }

  function TrailingZeros(v: nat): nat
    requires v > 0
  {
    if v % 2 == 1 then 0 else 1 + TrailingZeros(v / 2)
  }

  function And(x: nat, y: nat): nat {
    if x == 0 || y == 0 then 0 else (x % 2) * (y % 2) + 2 * And(x / 2, y / 2)
  }

  function Or(x: nat, y: nat): int {
    x + y - And(x, y)
  }

  lemma {:induction false} BitLengthBounds(v: nat)
    requires v > 0
    ensures BitLength(v) > 0 && Pow(2, BitLength(v) - 1) <= v < Pow(2, BitLength(v))
  {
    if v > 1 {
      BitLengthBounds(v / 2);
    }
  }

  lemma {:induction false} BitLengthUnique(v: nat, n: nat)
    requires n > 0 && Pow(2, n - 1) <= v < Pow(2, n)
    ensures BitLength(v) == n
  {
    BitLengthBounds(v);
    if BitLength(v) < n {
      PowMonotone(2, BitLength(v), n - 1);
    } else if BitLength(v) > n {
      PowMonotone(2, n, BitLength(v) - 1);
    }
  }

  lemma {:induction false} TrailingZerosFactor(v: nat)
    requires v > 0
    ensures var p := Pow(2, TrailingZeros(v)); p > 0 && v / p % 2 == 1 && v == v / p * p && v / p > 0
  {
    if v % 2 == 1 {
      assert Pow(2, 0) == 1;
    } else {
      var p, q := Pow(2, TrailingZeros(v / 2)), Pow(2, TrailingZeros(v));
      TrailingZerosFactor(v / 2);
      var k := v / 2 / p;
      assert v == k * q by { MulAssoc(k, p, 2); }
      DivModUnique(v, q, k, 0);
    }
  }

  lemma {:induction false} TrailingZerosUnique(v: nat, n: nat, k: nat)
    requires v == k * Pow(2, n) && k % 2 == 1
    ensures v > 0 && TrailingZeros(v) == n
  {
    if n > 0 {
      MulAssoc(k, Pow(2, n - 1), 2);
      TrailingZerosUnique(k * Pow(2, n - 1), n - 1, k);
      DivModUnique(v, 2, k * Pow(2, n - 1), 0);
    }
  }

  lemma DivideTwice(v: nat, a: nat, b: nat)
    requires a > 0 && b > 0
    ensures a * b > 0 && v / a / b == v / (a * b)
  {
    var q, r := v / a, v % a;
    assert v == q * a + r && q == q / b * b + q % b;
    assert v == q / b * (a * b) + (q % b * a + r);
    MulMonotone(q % b + 1, b, a);
    DivModUnique(v, a * b, q / b, q % b * a + r);
  }

  lemma {:induction false} BitLengthShift(v: nat, n: nat)
    requires Pow(2, n) > 0 && v / Pow(2, n) > 0
    ensures BitLength(v) == n + BitLength(v / Pow(2, n))
  {
    if n > 0 {
      FirstFactor(2, n);
      PowPositive(2, n - 1);
      assert v > 0 ==> BitLength(v) == 1 + BitLength(v / 2);
      hide Pow, BitLength;
      DivideTwice(v, 2, Pow(2, n - 1));
      DivModUnique(0, Pow(2, n - 1), 0, 0);
      BitLengthShift(v / 2, n - 1);
    }
  }

  /** `clz_unsafe` on a word of 2^h bits: binary halving. */
  method Clz(h: nat, word: nat) returns (n: int)
    requires h > 0 && word < Pow(2, Pow(2, h))
    ensures n == Pow(2, h) - BitLength(word)
  {
    hide Pow, BitLength;
    var v: nat, nn: int, k: nat := word, Pow(2, h), h;
    ghost var shift: nat := 0;
    while k > 0
      invariant 0 <= k <= h && nn + shift == Pow(2, h)
      invariant v < Pow(2, Pow(2, k)) && BitLength(word) == shift + BitLength(v)
    {
      k := k - 1;
      Halving(k, v);
      var cc := Pow(2, k);
      var yy := v / Pow(2, cc);
      if yy != 0 {
        BitLengthShift(v, cc);
        nn, shift := nn - cc, shift + cc;
        v := yy;
      }
    }
    LastBit(v);
    n := nn - v;
  }

  lemma Halving(k: nat, v: nat)
    requires v < Pow(2, Pow(2, k + 1))
    ensures Pow(2, k) > 0 && Pow(2, Pow(2, k)) > 0
    ensures v / Pow(2, Pow(2, k)) < Pow(2, Pow(2, k))
    ensures v / Pow(2, Pow(2, k)) == 0 ==> v < Pow(2, Pow(2, k))
  {
    var c := Pow(2, k);
    var p := Pow(2, c);
    assert Pow(2, k + 1) == c + c;
    PowAdd(2, c, c);
    if v / p >= p {
      MulMonotone(p, v / p, p);
    }
  }

  lemma LastBit(v: nat)
    requires v < Pow(2, Pow(2, 0))
    ensures BitLength(v) == v
  {
    assert Pow(2, 0) == 1 && Pow(2, 1) == 2;
  }

  lemma {:induction false} AndComplement(d: nat, v: nat)
    requires v < Pow(2, d)
    ensures And(Pow(2, d) - 1 - v, v) == 0
  {
    if d > 0 && v > 0 {
      var m := Pow(2, d - 1);
      AndComplement(d - 1, v / 2);
      DivModUnique(Pow(2, d) - 1 - v, 2, m - 1 - v / 2, 1 - v % 2);
    }
  }

  /** ~v & (v - 1): the trailing zeros of `v` become ones, the rest zero. */
  lemma {:induction false} TrailingMask(d: nat, v: nat)
    requires 0 < v < Pow(2, d)
    ensures And(Pow(2, d) - 1 - v, v - 1) == Pow(2, TrailingZeros(v)) - 1
  {
    var m := Pow(2, d - 1);
    assert Pow(2, d) == 2 * m;
    if v % 2 == 1 {
      assert Pow(2, TrailingZeros(v)) == 1;
      AndComplement(d - 1, v / 2);
      hide And, Pow, TrailingZeros;
      OddMask(m, v);
    } else {
      assert Pow(2, TrailingZeros(v)) == Pow(2, TrailingZeros(v / 2)) * 2;
      TrailingMask(d - 1, v / 2);
      hide And, Pow, TrailingZeros;
      EvenMask(m, v, Pow(2, TrailingZeros(v / 2)));
    }
  }

  lemma OddMask(m: nat, v: nat)
    requires v % 2 == 1 && v < 2 * m && And(m - 1 - v / 2, v / 2) == 0
    ensures And(2 * m - 1 - v, v - 1) == 0
  {
    hide And;
    AndHalves(m - 1 - v / 2, 0, v / 2, 0);
    assert 2 * m - 1 - v == 2 * (m - 1 - v / 2) + 0 && v - 1 == 2 * (v / 2) + 0;
  }

  lemma EvenMask(m: nat, v: nat, p: nat)
    requires v % 2 == 0 && 0 < v < 2 * m && And(m - 1 - v / 2, v / 2 - 1) == p - 1
    ensures And(2 * m - 1 - v, v - 1) == 2 * p - 1
  {
    hide And;
    AndHalves(m - 1 - v / 2, 1, v / 2 - 1, 1);
    assert 2 * m - 1 - v == 2 * (m - 1 - v / 2) + 1 && v - 1 == 2 * (v / 2 - 1) + 1;
  }

  lemma AndHalves(x: nat, p: nat, y: nat, q: nat)
    requires p <= 1 && q <= 1
    ensures And(2 * x + p, 2 * y + q) == p * q + 2 * And(x, y)
  {
  }

  lemma {:induction false} AndSelf(x: nat)
    ensures And(x, x) == x
  {
    if x > 0 {
      hide And;
      var w, p := x / 2, x % 2;
      AndSelf(w);
      AndHalves(w, p, w, p);
      BitSquared(p);
    }
  }

  lemma BitSquared(p: nat)
    requires p <= 1
    ensures p * p == p
  {
  }

  lemma BitLengthOnes(n: nat)
    ensures BitLength(Pow(2, n) - 1) == n
  {
    if n > 0 {
      BitLengthUnique(Pow(2, n) - 1, n);
    }
  }

  lemma {:induction false} AndBound(x: nat, y: nat)
    ensures And(x, y) <= x
  {
    if x > 0 && y > 0 {
      AndBound(x / 2, y / 2);
      assert (x % 2) * (y % 2) <= x % 2;
    }
  }

  /** Numbers without a common bit: a multiple of 2^n and one below 2^n. */
  lemma {:induction false} AndLow(k: nat, n: nat, d: nat)
    requires d < Pow(2, n)
    ensures And(k * Pow(2, n), d) == 0
  {
    if n > 0 && d > 0 && k * Pow(2, n) > 0 {
      var p := Pow(2, n - 1);
      AndLow(k, n - 1, d / 2);
      MulAssoc(k, p, 2);
      DivModUnique(k * Pow(2, n), 2, k * p, 0);
    }
  }

  /** `ctz_unsafe` on a word of 2^h bits; the word width on zero. */
  method Ctz(h: nat, v: nat) returns (n: int)
    requires h > 0 && v < Pow(2, Pow(2, h))
    ensures n == if v == 0 then Pow(2, h) else TrailingZeros(v)
  {
    var digits := Pow(2, h);
    var all := Pow(2, digits);
    var mask := And(all - 1 - v, if v == 0 then all - 1 else v - 1);
    AndBound(all - 1 - v, if v == 0 then all - 1 else v - 1);
    if v == 0 {
      AndSelf(all - 1);
      BitLengthOnes(digits);
    } else {
      TrailingMask(digits, v);
      BitLengthOnes(TrailingZeros(v));
    }
    var leading := Clz(h, mask);
    n := digits - leading;
  }

  /** `lsb_helper`: a linear search. */
  method LsbHelper(u: nat) returns (result: nat)
    requires u > 0
    ensures result == TrailingZeros(u)
  {
    var mask: nat := u;
    result := 0;
    while mask % 2 == 0
      invariant mask > 0 && result + TrailingZeros(mask) == TrailingZeros(u)
      decreases mask
    {
      mask := mask / 2;
      result := result + 1;
    }
  }

  /** `lsb`: the lowest set bit of the number, 0 for the number 0. */
  method Lsb(digits: nat, x: array<nat>) returns (bpos: nat)
    requires digits > 0 && IsLimbs(Pow(2, digits), x[..])
    ensures var v := Value(Pow(2, digits), x[..]); bpos == if v == 0 then 0 else TrailingZeros(v)
  {
    hide Value, Pow, TrailingZeros;
    for offset := 0 to x.Length
      invariant forall k :: 0 <= k < offset ==> x[k] == 0
    {
      if x[offset] != 0 {
        var low := LsbHelper(x[offset]);
        LowestLimb(digits, x[..], offset);
        return low + digits * offset;
      }
    }
    ValueZeros(Pow(2, digits), x[..]);
    bpos := 0;
  }

  lemma LowestLimb(digits: nat, s: seq<nat>, i: nat)
    requires digits > 0 && i < |s| && s[i] > 0 && forall k :: 0 <= k < i ==> s[k] == 0
    requires IsLimbs(Pow(2, digits), s)
    ensures Value(Pow(2, digits), s) > 0
    ensures TrailingZeros(Value(Pow(2, digits), s)) == TrailingZeros(s[i]) + digits * i
  {
    hide Value, Pow, TrailingZeros;
    var t, high := TrailingZeros(s[i]), Value(Pow(2, digits), s[i + 1..]);
    ValueAbove(Pow(2, digits), s, i);
    TrailingZerosFactor(s[i]);
    LimbPower(digits, t, s[i]);
    PowPow(2, digits, i);
    PowAdd(2, t, digits * i);
    LowestLimbAlgebra(Pow(2, t), Pow(2, digits - t), Pow(Pow(2, digits), i), s[i] / Pow(2, t), high, Value(Pow(2, digits), s));
    TrailingZerosUnique(Value(Pow(2, digits), s), t + digits * i, s[i] / Pow(2, t) + Pow(2, digits - t) * high);
  }

  lemma ValueAbove(b: nat, s: seq<nat>, i: nat)
    requires i < |s| && forall k :: 0 <= k < i ==> s[k] == 0
    ensures Value(b, s) == Pow(b, i) * (s[i] + b * Value(b, s[i + 1..]))
  {
    hide Value, Pow;
    assert s == s[..i] + s[i..];
    ValueConcat(b, s[..i], s[i..]);
    ValueZeros(b, s[..i]);
    ValueHead(b, s[i..]);
    assert s[i..][1..] == s[i + 1..];
  }

  /** A non-zero limb has fewer trailing zeros than bits. */
  lemma LimbPower(digits: nat, t: nat, x: nat)
    requires 0 < x < Pow(2, digits) && t == TrailingZeros(x)
    ensures t < digits && Pow(2, digits) == Pow(2, t) * Pow(2, digits - t) && Pow(2, digits - t) % 2 == 0
  {
    hide Pow, TrailingZeros;
    TrailingZerosFactor(x);
    MulMonotone(1, x / Pow(2, t), Pow(2, t));
    if t >= digits {
      PowMonotone(2, digits, t);
    }
    PowAdd(2, t, digits - t);
    EvenPower(digits - t);
  }

  lemma EvenPower(n: nat)
    requires n > 0
    ensures Pow(2, n) % 2 == 0
  {
  }

  lemma LowestLimbAlgebra(p: nat, q: nat, w: nat, k: nat, high: nat, v: nat)
    requires v == w * (k * p + (p * q) * high) && k % 2 == 1 && q % 2 == 0
    ensures v == (k + q * high) * (p * w) && (k + q * high) % 2 == 1
  {
    assert q * high == 2 * (q / 2 * high);
    assert k * p + (p * q) * high == (k + q * high) * p;
  }

  /** `msb_helper`: a linear search from the top bit, 0 for zero. */
  method MsbHelper(digits: nat, u: nat) returns (i: nat)
    requires digits > 0 && u < Pow(2, digits)
    ensures u == 0 ==> i == 0
    ensures u > 0 ==> BitLength(u) == i + 1
  {
    hide Pow, BitLength;
    var j: int := digits - 1;
    while j >= 0 && u / Pow(2, j) % 2 == 0
      invariant -1 <= j < digits && u < Pow(2, j + 1)
    {
      BitClear(u, j);
      j := j - 1;
    }
    i := if j < 0 then 0 else j;
    if j >= 0 {
      BitSet(u, j);
    } else {
      assert Pow(2, 0) == 1 by { ValueEmpty(2); }
    }
  }

  lemma BitClear(u: nat, j: nat)
    requires u < Pow(2, j + 1) && u / Pow(2, j) % 2 == 0
    ensures u < Pow(2, j)
  {
    var p := Pow(2, j);
    assert u == u / p * p + u % p;
    if u / p >= 1 {
      MulMonotone(2, u / p, p);
    }
  }

  lemma BitSet(u: nat, j: nat)
    requires u < Pow(2, j + 1) && Pow(2, j) > 0 && u / Pow(2, j) % 2 == 1
    ensures u > 0 && BitLength(u) == j + 1
  {
    var p := Pow(2, j);
    assert u == u / p * p + u % p;
    MulMonotone(1, u / p, p);
    BitLengthUnique(u, j + 1);
  }

  /** One test of the unrolled search: the upper k of 2k bits, moved down if one is set. */
  method HalveSearch(x: nat, k: nat, r: nat) returns (x': nat, r': nat)
    requires k > 0 && x < Pow(2, k + k)
    ensures x' < Pow(2, k) && BitLength(x') + r' == BitLength(x) + r && (x == 0 ==> x' == 0 && r' == r) && (x > 0 ==> x' > 0)
  {
    hide Pow, BitLength;
    x', r' := x, r;
    UpperBits(k, x);
    if x / Pow(2, k) % Pow(2, k) != 0 {
      BitLengthShift(x, k);
      x', r' := x / Pow(2, k), r + k;
    }
  }

  lemma UpperBits(k: nat, x: nat)
    requires x < Pow(2, k + k)
    ensures Pow(2, k) > 0 && x / Pow(2, k) < Pow(2, k) && x / Pow(2, k) % Pow(2, k) == x / Pow(2, k)
    ensures x / Pow(2, k) == 0 ==> x < Pow(2, k)
    ensures x == 0 ==> x / Pow(2, k) == 0
  {
    hide Pow;
    PowPositive(2, k);
    PowAdd(2, k, k);
    var p, q := Pow(2, k), x / Pow(2, k);
    assert x == q * p + x % p;
    if q >= p {
      MulMonotone(p, q, p);
    }
    DivModUnique(q, p, 0, q);
    DivModUnique(0, p, 0, 0);
  }

  /** `msb_helper` for limbs of 8, 16 and 32 bits: the unrolled halving. */
  method MsbHalving(digits: nat, u: nat) returns (r: nat)
    requires (digits == 8 || digits == 16 || digits == 32) && u < Pow(2, digits)
    ensures u == 0 ==> r == 0
    ensures u > 0 ==> BitLength(u) == r + 1
  {
    hide Pow, BitLength;
    var x := u;
    r := 0;
    if digits == 32 {
      x, r := HalveSearch(x, 16, r);
    }
    if digits >= 16 {
      x, r := HalveSearch(x, 8, r);
    }
    x, r := HalveSearch(x, 4, r);
    x, r := HalveSearch(x, 2, r);
    x, r := HalveSearch(x, 1, r);
    SmallPowers(2);
    OneBit(x);
  }

  lemma OneBit(x: nat)
    requires x < 2
    ensures BitLength(x) == x
  {
  }

  /** `msb`: the highest set bit of the number, 0 for the number 0. */
  method Msb(digits: nat, x: array<nat>) returns (bpos: nat)
    requires digits > 0 && x.Length > 0 && IsLimbs(Pow(2, digits), x[..])
    ensures var v := Value(Pow(2, digits), x[..]); if v == 0 then bpos == 0 else BitLength(v) == bpos + 1
  {
    hide Value, Pow, BitLength;
    var offset := x.Length;
    while offset > 0
      invariant 0 <= offset <= x.Length && forall k :: offset <= k < x.Length ==> x[k] == 0
    {
      offset := offset - 1;
      if x[offset] != 0 {
        var high;
        if digits == 8 || digits == 16 || digits == 32 {
          high := MsbHalving(digits, x[offset]);
        } else {
          high := MsbHelper(digits, x[offset]);
        }
        HighestLimb(digits, x[..], offset);
        return high + digits * offset;
      }
    }
    ValueZeros(Pow(2, digits), x[..]);
    bpos := 0;
  }

  lemma HighestLimb(digits: nat, s: seq<nat>, i: nat)
    requires digits > 0 && i < |s| && s[i] > 0 && forall k :: i < k < |s| ==> s[k] == 0
    requires IsLimbs(Pow(2, digits), s)
    ensures Value(Pow(2, digits), s) > 0
    ensures BitLength(Value(Pow(2, digits), s)) == BitLength(s[i]) + digits * i
  {
    hide Value, Pow, BitLength;
    var b, n := Pow(2, digits), BitLength(s[i]);
    var low := s[..i];
    TopLimbValue(b, s, i);
    ValueBound(b, low);
    BitLengthBounds(s[i]);
    PowPow(2, digits, i);
    PowAdd(2, n - 1, digits * i);
    PowAdd(2, n, digits * i);
    HighestLimbAlgebra(Pow(2, n - 1), Pow(2, n), Pow(b, i), s[i], Value(b, low), Value(b, s));
    BitLengthUnique(Value(b, s), n + digits * i);
  }

  lemma TopLimbValue(b: nat, s: seq<nat>, i: nat)
    requires i < |s| && forall k :: i < k < |s| ==> s[k] == 0
    ensures Value(b, s) == Value(b, s[..i]) + s[i] * Pow(b, i)
  {
    hide Value, Pow;
    var low, rest := s[..i], s[i + 1..];
    assert s == low + [s[i]] + rest;
    ValueConcat(b, low + [s[i]], rest);
    ValueZeros(b, rest);
    ValueSnoc(b, low, s[i]);
  }

  lemma HighestLimbAlgebra(p: nat, q: nat, w: nat, x: nat, low: nat, v: nat)
    requires p <= x < q && low < w && v == low + x * w && p > 0
    ensures 0 < v && p * w <= v < q * w
  {
    MulMonotone(p, x, w);
    MulMonotone(x + 1, q, w);
    MulMonotone(1, p, w);
  }
}
