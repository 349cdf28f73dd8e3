/**
  `eval_multiply_kara_n_by_n_to_2n`: Karatsuba multiplication with a scratch
  buffer of 4n limbs. Above 48 limbs the source splits with n / 2, so the
  result is the product exactly when every level above the cut-off is even.
 */
module Karatsuba {
  import opened Powers
  import opened Limbs
  import opened LimbArithmetic
  import opened Multiplication

  /** Every halving above the schoolbook cut-off is exact. */
  predicate HalvesEvenly(n: nat) {
    n <= 48 || (n % 2 == 0 && HalvesEvenly(n / 2))
  }

  /** The limb index that the first uneven split leaves out. */
  function LostLimb(n: nat): (k: nat)
    requires !HalvesEvenly(n)
    ensures k < n
  {
    if n % 2 != 0 then n - 1 else LostLimb(n / 2)
  }

  /** Inputs of a cleared multiplication whose computed result is zero. */
  ghost predicate Vanishes(b: nat, n: nat, x: nat, y: nat) {
    x == 0 || (!HalvesEvenly(n) && x == Pow(b, LostLimb(n)) && y == 1)
  }

  lemma Scaled(p: int, u: int, v: int, w: int, c: int)
    requires u + v == w + c
    ensures p * u + p * v == p * w + p * c
  {
    assert p * (u + v) == p * (w + c);
  }

  /** r[0..n+m) += t[0..n), dropping only a carry out of limb n+m. */
  method AddWithCarry(b: nat, r: array<nat>, ro: nat, n: nat, m: nat, t: array<nat>, to: nat)
    requires b > 1 && ro + n + m <= r.Length && to + n <= t.Length && Apart(r, ro, n + m, t, to, n)
    requires IsLimbs(b, r[ro..ro + n + m]) && IsLimbs(b, t[to..to + n])
    modifies r
    ensures IsLimbs(b, r[ro..ro + n + m])
    ensures var sum := old(Value(b, r[ro..ro + n + m])) + old(Value(b, t[to..to + n]));
            Value(b, r[ro..ro + n + m]) == sum || Value(b, r[ro..ro + n + m]) + Pow(b, n + m) == sum
    ensures forall k :: 0 <= k < r.Length && !(ro <= k < ro + n + m) ==> r[k] == old(r[k])
  {
    hide Value, Pow;
    ghost var lo, hi, x := r[ro..ro + n], r[ro + n..ro + n + m], Value(b, t[to..to + n]);
    assert r[ro..ro + n + m] == lo + hi;
    LimbsConcat(b, lo, hi);
    var carry := AddN(b, r, ro, r, ro, t, to, n, 0);
    ghost var lo' := r[ro..ro + n];
    assert r[ro + n..ro + n + m] == hi;
    PropagateCarry(b, r, ro + n, m, carry);
    ghost var hi' := r[ro + n..ro + n + m];
    assert r[ro..ro + n] == lo' && r[ro..ro + n + m] == lo' + hi';
    LimbsConcat(b, lo', hi');
    JoinSum(b, lo, lo', hi, hi', x, carry, n, m);
  }

  lemma JoinSum(b: nat, lo: seq<nat>, lo': seq<nat>, hi: seq<nat>, hi': seq<nat>, x: int, c: int, n: nat, m: nat)
    requires |lo| == |lo'| == n && |hi| == |hi'| == m
    requires Value(b, lo') + c * Pow(b, n) == Value(b, lo) + x
    requires Value(b, hi') == Value(b, hi) + c || Value(b, hi') + Pow(b, m) == Value(b, hi) + c
    ensures Value(b, lo' + hi') == Value(b, lo + hi) + x || Value(b, lo' + hi') + Pow(b, n + m) == Value(b, lo + hi) + x
  {
    hide Value, Pow;
    ValueConcat(b, lo, hi);
    ValueConcat(b, lo', hi');
    PowAdd(b, n, m);
    var wrap := if Value(b, hi') == Value(b, hi) + c then 0 else Pow(b, m);
    Scaled(Pow(b, n), Value(b, hi'), wrap, Value(b, hi), c);
    ZeroTimes(Pow(b, n));
  }

  /** r[0..n+m) -= t[0..n), dropping only a borrow out of limb n+m. */
  method SubtractWithBorrow(b: nat, r: array<nat>, ro: nat, n: nat, m: nat, t: array<nat>, to: nat)
    requires b > 1 && ro + n + m <= r.Length && to + n <= t.Length && Apart(r, ro, n + m, t, to, n)
    requires IsLimbs(b, r[ro..ro + n + m]) && IsLimbs(b, t[to..to + n])
    modifies r
    ensures IsLimbs(b, r[ro..ro + n + m])
    ensures var diff := old(Value(b, r[ro..ro + n + m])) - old(Value(b, t[to..to + n]));
            Value(b, r[ro..ro + n + m]) == diff || Value(b, r[ro..ro + n + m]) == diff + Pow(b, n + m)
    ensures forall k :: 0 <= k < r.Length && !(ro <= k < ro + n + m) ==> r[k] == old(r[k])
  {
    hide Value, Pow;
    ghost var lo, hi, x := r[ro..ro + n], r[ro + n..ro + n + m], Value(b, t[to..to + n]);
    assert r[ro..ro + n + m] == lo + hi;
    LimbsConcat(b, lo, hi);
    var borrow := SubtractN(b, r, ro, r, ro, t, to, n, false);
    ghost var lo' := r[ro..ro + n];
    assert r[ro + n..ro + n + m] == hi;
    PropagateBorrow(b, r, ro + n, m, borrow);
    ghost var hi' := r[ro + n..ro + n + m];
    assert r[ro..ro + n] == lo' && r[ro..ro + n + m] == lo' + hi';
    LimbsConcat(b, lo', hi');
    JoinDifference(b, lo, lo', hi, hi', x, if borrow then 1 else 0, n, m);
  }

  lemma JoinDifference(b: nat, lo: seq<nat>, lo': seq<nat>, hi: seq<nat>, hi': seq<nat>, x: int, c: int, n: nat, m: nat)
    requires |lo| == |lo'| == n && |hi| == |hi'| == m && 0 <= c <= 1
    requires Value(b, lo') + x == Value(b, lo) + (if c == 1 then Pow(b, n) else 0)
    requires Value(b, hi') + c == Value(b, hi) || Value(b, hi') + c == Value(b, hi) + Pow(b, m)
    ensures Value(b, lo' + hi') == Value(b, lo + hi) - x || Value(b, lo' + hi') == Value(b, lo + hi) - x + Pow(b, n + m)
  {
    hide Value, Pow;
    ValueConcat(b, lo, hi);
    ValueConcat(b, lo', hi');
    PowAdd(b, n, m);
    var wrap := if Value(b, hi') + c == Value(b, hi) then 0 else Pow(b, m);
    Scaled(Pow(b, n), Value(b, hi'), c, Value(b, hi), wrap);
    ZeroTimes(Pow(b, n));
  }

  lemma ZeroTimes(p: int)
    ensures p * 0 == 0 && p * 1 == p
  {
  }

  /** One middle update r1 +- x, seen on all 2n limbs: at even n nothing leaves
      the top while the running total stays below b^2n. */
  lemma MiddleSum(b: nat, h: nat, lo: seq<nat>, up: seq<nat>, up': seq<nat>, x: int)
    requires b > 1 && |lo| == h && |up| == |up'| == 3 * h
    requires Value(b, up') == Value(b, up) + x || Value(b, up') + Pow(b, 3 * h) == Value(b, up) + x
          || Value(b, up') == Value(b, up) + x + Pow(b, 3 * h)
    requires IsLimbs(b, lo) && IsLimbs(b, up')
    requires 0 <= Value(b, lo + up) + Pow(b, h) * x < Pow(b, 4 * h)
    ensures Value(b, lo + up') == Value(b, lo + up) + Pow(b, h) * x
  {
    hide Value, Pow;
    ValueConcat(b, lo, up);
    ValueConcat(b, lo, up');
    LimbsConcat(b, lo, up');
    ValueBound(b, lo + up');
    PowAdd(b, h, 3 * h);
    var k := if Value(b, up') == Value(b, up) + x then 0 else if Value(b, up') > Value(b, up) + x then 1 else -1;
    WrapOnce(Pow(b, h), Pow(b, 3 * h), Value(b, up'), Value(b, up), x, k);
  }

  lemma WrapOnce(p: int, q: int, u': int, u: int, x: int, k: int)
    requires u' == u + x + k * q
    ensures p * u' == p * u + p * x + k * (p * q)
  {
    assert p * u' == p * (u + x + k * q);
  }

  lemma ZeroMiddle(b: nat, lo: seq<nat>, up: seq<nat>, up': seq<nat>, rest: seq<nat>)
    requires b > 1 && |up| == |up'| && Value(b, lo + up + rest) == 0
    requires Value(b, up') == Value(b, up) || Value(b, up') + Pow(b, |up|) == Value(b, up)
    ensures Value(b, lo + up' + rest) == 0
  {
    hide Value, Pow;
    ValueConcat(b, lo + up, rest);
    ValueConcat(b, lo, up);
    ZeroFactor(Pow(b, |lo|), Value(b, up));
    PrefixShift(b, lo + up, lo + up', rest);
    ValueConcat(b, lo, up');
  }

  lemma ZeroFactor(p: nat, x: nat)
    requires p > 0 && p * x == 0
    ensures x == 0
  {
  }

  /** What a middle update does to the value of all 2n limbs: at an even split
      it adds b^h * x whenever the sum fits, and it never creates limbs from
      nothing. */
  ghost predicate MovedBy(b: nat, n: nat, h: nat, v: nat, v': nat, x: int) {
    && (n == 2 * h && 0 <= v + Pow(b, h) * x < Pow(b, 4 * h) ==> v' == v + Pow(b, h) * x)
    && (v == x == 0 ==> v' == 0)
  }

  lemma MiddleLimbs(b: nat, rs: seq<nat>, i: nat, j: nat)
    requires i <= j <= |rs| && IsLimbs(b, rs)
    ensures IsLimbs(b, rs[i..j])
  {
  }

  /** A range of which only the positions [i, j) have changed. */
  lemma Spliced(s: seq<nat>, s': seq<nat>, ro: nat, total: nat, i: nat, j: nat)
    requires |s| == |s'| && ro + total <= |s| && i <= j <= total
    requires forall k :: 0 <= k < |s| && !(ro + i <= k < ro + j) ==> s'[k] == s[k]
    ensures var rs := s[ro..ro + total]; s'[ro..ro + total] == rs[..i] + s'[ro + i..ro + j] + rs[j..]
  {
    var rs := s[ro..ro + total];
    assert s'[ro..ro + i] == rs[..i];
    assert s'[ro + j..ro + total] == rs[j..];
    assert s'[ro..ro + total] == s'[ro..ro + i] + s'[ro + i..ro + j] + s'[ro + j..ro + total];
  }

  lemma MiddleUpdate(b: nat, n: nat, h: nat, rs: seq<nat>, rs': seq<nat>, up: seq<nat>, up': seq<nat>, x: int)
    requires b > 1 && h == n / 2 && |rs| == |rs'| == 2 * n
    requires up == rs[h..h + n + h] && |up'| == |up| && rs' == rs[..h] + up' + rs[h + n + h..]
    requires IsLimbs(b, rs) && IsLimbs(b, up')
    requires Value(b, up') == Value(b, up) + x || Value(b, up') + Pow(b, n + h) == Value(b, up) + x
          || Value(b, up') == Value(b, up) + x + Pow(b, n + h)
    ensures IsLimbs(b, rs') && MovedBy(b, n, h, Value(b, rs), Value(b, rs'), x)
  {
    hide Value, Pow;
    var lo, rest := rs[..h], rs[h + n + h..];
    assert rs == lo + up + rest;
    LimbsConcat(b, lo + up, rest);
    LimbsConcat(b, lo, up);
    LimbsConcat(b, lo, up');
    LimbsConcat(b, lo + up', rest);
    if n == 2 * h && 0 <= Value(b, rs) + Pow(b, h) * x < Pow(b, 4 * h) {
      assert rest == [] && lo + up + rest == lo + up && lo + up' + rest == lo + up';
      MiddleSum(b, h, lo, up, up', x);
    }
    if Value(b, rs) == x == 0 {
      ValueBound(b, up');
      ZeroMiddle(b, lo, up, up', rest);
    }
  }

  lemma MiddleRange(b: nat, s: seq<nat>, ro: nat, n: nat, h: nat)
    requires h == n / 2 && ro + 2 * n <= |s| && IsLimbs(b, s[ro..ro + 2 * n])
    ensures IsLimbs(b, s[ro + h..ro + h + n + h])
  {
    MiddleLimbs(b, s[ro..ro + 2 * n], h, h + n + h);
    SubRange(s, ro, 2 * n, h, h + n + h);
  }

  /** A change of r1 and r3 by x, carry or borrow dropped, seen on all of `r`. */
  lemma MiddleMoved(b: nat, s: seq<nat>, s': seq<nat>, ro: nat, n: nat, h: nat, x: int)
    requires b > 1 && h == n / 2 && |s| == |s'| && ro + 2 * n <= |s|
    requires IsLimbs(b, s[ro..ro + 2 * n]) && IsLimbs(b, s'[ro + h..ro + h + n + h])
    requires var v, v' := Value(b, s[ro + h..ro + h + n + h]), Value(b, s'[ro + h..ro + h + n + h]);
      v' == v + x || v' + Pow(b, n + h) == v + x || v' == v + x + Pow(b, n + h)
    requires forall k :: 0 <= k < |s| && !(ro + h <= k < ro + h + n + h) ==> s'[k] == s[k]
    ensures IsLimbs(b, s'[ro..ro + 2 * n]) && MovedBy(b, n, h, Value(b, s[ro..ro + 2 * n]), Value(b, s'[ro..ro + 2 * n]), x)
  {
    hide Value, Pow, MovedBy;
    var rs, j := s[ro..ro + 2 * n], h + n + h;
    SubRange(s, ro, 2 * n, h, j);
    Spliced(s, s', ro, 2 * n, h, j);
    MiddleUpdate(b, n, h, rs, s'[ro..ro + 2 * n], rs[h..j], s'[ro + h..ro + j], x);
  }

  /** r1 += t[0..n) with the carry propagated into r3, seen on all of `r`. */
  method AddMiddle(b: nat, r: array<nat>, ro: nat, n: nat, h: nat, t: array<nat>, to: nat)
    requires b > 1 && h == n / 2 && ro + 2 * n <= r.Length && to + n <= t.Length && Apart(r, ro, 2 * n, t, to, n)
    requires IsLimbs(b, r[ro..ro + 2 * n]) && IsLimbs(b, t[to..to + n])
    modifies r
    ensures IsLimbs(b, r[ro..ro + 2 * n])
    ensures MovedBy(b, n, h, old(Value(b, r[ro..ro + 2 * n])), Value(b, r[ro..ro + 2 * n]), old(Value(b, t[to..to + n])))
    ensures forall k :: 0 <= k < r.Length && !(ro <= k < ro + 2 * n) ==> r[k] == old(r[k])
  {
    hide Value, Pow, MovedBy;
    ghost var s, x: int := r[..], Value(b, t[to..to + n]);
    MiddleRange(b, s, ro, n, h);
    AddWithCarry(b, r, ro + h, n, h, t, to);
    MiddleMoved(b, s, r[..], ro, n, h, x);
  }

  /** r1 -= t[0..n) with the borrow propagated into r3, seen on all of `r`. */
  method SubtractMiddle(b: nat, r: array<nat>, ro: nat, n: nat, h: nat, t: array<nat>, to: nat)
    requires b > 1 && h == n / 2 && ro + 2 * n <= r.Length && to + n <= t.Length && Apart(r, ro, 2 * n, t, to, n)
    requires IsLimbs(b, r[ro..ro + 2 * n]) && IsLimbs(b, t[to..to + n])
    modifies r
    ensures IsLimbs(b, r[ro..ro + 2 * n])
    ensures MovedBy(b, n, h, old(Value(b, r[ro..ro + 2 * n])), Value(b, r[ro..ro + 2 * n]), 0 - old(Value(b, t[to..to + n])))
    ensures forall k :: 0 <= k < r.Length && !(ro <= k < ro + 2 * n) ==> r[k] == old(r[k])
  {
    hide Value, Pow, MovedBy;
    ghost var s, x: int := r[..], Value(b, t[to..to + n]);
    MiddleRange(b, s, ro, n, h);
    SubtractWithBorrow(b, r, ro + h, n, h, t, to);
    MiddleMoved(b, s, r[..], ro, n, h, 0 - x);
  }

  /** |u - v| into t[0..n), left alone when the two are equal; the sign of u - v. */
  method AbsoluteDifference(b: nat, t: array<nat>, to: nat, u: array<nat>, uo: nat, v: array<nat>, vo: nat, n: nat)
    returns (sign: int)
    requires b > 1 && to + n <= t.Length && uo + n <= u.Length && vo + n <= v.Length
    requires Apart(t, to, n, u, uo, n) && Apart(t, to, n, v, vo, n)
    requires IsLimbs(b, u[uo..uo + n]) && IsLimbs(b, v[vo..vo + n]) && IsLimbs(b, t[to..to + n])
    modifies t
    ensures IsLimbs(b, t[to..to + n])
    ensures sign == Sign(old(Value(b, u[uo..uo + n])) - old(Value(b, v[vo..vo + n])))
    ensures Value(b, t[to..to + n]) == if sign == 0 then old(Value(b, t[to..to + n]))
                                       else sign * (old(Value(b, u[uo..uo + n])) - old(Value(b, v[vo..vo + n])))
    ensures sign == 0 ==> t[..] == old(t[..])
    ensures forall k :: 0 <= k < t.Length && !(to <= k < to + n) ==> t[k] == old(t[k])
  {
    hide Value, Pow;
    sign := CompareRanges(b, u, uo, v, vo, n);
    ghost var us, vs := u[uo..uo + n], v[vo..vo + n];
    ValueBound(b, us);
    ValueBound(b, vs);
    if sign == 1 {
      var borrow := SubtractN(b, t, to, u, uo, v, vo, n, false);
      ValueBound(b, t[to..to + n]);
    } else if sign == -1 {
      var borrow := SubtractN(b, t, to, v, vo, u, uo, n, false);
      ValueBound(b, t[to..to + n]);
    }
  }

  function Sign(x: int): int {
    if x > 0 then 1 else if x < 0 then -1 else 0
  }

  /** The value of `r` after steps 1 and 2, for halves a0 + p a1 and c0 + p c1. */
  ghost predicate IsOuterSum(p: nat, v: nat, a0: nat, a1: nat, c0: nat, c1: nat) {
    v == a0 * c0 + p * p * (a1 * c1) + p * (a1 * c1) + p * (a0 * c0)
  }

  /** No intermediate sum of the algorithm reaches b^2n. */
  lemma OuterBounds(p: nat, a0: nat, a1: nat, c0: nat, c1: nat)
    requires a0 < p && a1 < p && c0 < p && c1 < p
    ensures a0 * c0 + p * p * (a1 * c1) + p * (a1 * c1) + p * (a0 * c0) < p * p * (p * p)
  {
    var m := (p - 1) * (p - 1);
    ProductBound(a0, c0, p);
    ProductBound(a1, c1, p);
    MulMonotone(a0 * c0, m, p);
    MulMonotone(a1 * c1, m, p);
    MulMonotone(a1 * c1, m, p * p);
    SquareBound(p);
  }

  lemma ProductBound(x: nat, y: nat, p: nat)
    requires x < p && y < p
    ensures x * y <= (p - 1) * (p - 1)
  {
    MulMonotone(x, p - 1, y);
    MulMonotone(y, p - 1, p - 1);
  }

  lemma SquareBound(p: nat)
    requires p > 0
    ensures var m := (p - 1) * (p - 1); m + p * p * m + p * m + p * m < p * p * (p * p)
  {
    var m, q := (p - 1) * (p - 1), p * p;
    assert m == q - 2 * p + 1;
    calc {
      m + q * m + p * m + p * m;
    ==
      (q - 2 * p + 1) * (q + 2 * p + 1);
    ==
      q * q + 2 * q + 1 - 4 * (p * p);
    ==
      q * q - 2 * q + 1;
    }
  }

  /** Steps 1 and 2 on values: the two half products, then both added to r1. */
  lemma OuterUpdate(b: nat, n: nat, h: nat, rs: seq<nat>, v1: nat, v2: nat, a0: nat, a1: nat, c0: nat, c1: nat)
    requires b > 1 && n == 2 * h && |rs| == 2 * n
    requires a0 < Pow(b, h) && a1 < Pow(b, h) && c0 < Pow(b, h) && c1 < Pow(b, h)
    requires Value(b, rs[..n]) == a0 * c0 && Value(b, rs[n..]) == a1 * c1
    requires MovedBy(b, n, h, Value(b, rs), v1, a1 * c1) && MovedBy(b, n, h, v1, v2, a0 * c0)
    ensures IsOuterSum(Pow(b, h), v2, a0, a1, c0, c1)
  {
    hide Value, Pow;
    var p := Pow(b, h);
    assert rs == rs[..n] + rs[n..];
    ValueConcat(b, rs[..n], rs[n..]);
    PowerOfHalf(b, h);
    OuterBounds(p, a0, a1, c0, c1);
    OuterSteps(p, p * p * (p * p), a0 * c0, a1 * c1, Value(b, rs), v1, v2);
  }

  lemma OuterSteps(p: nat, q: nat, x: nat, y: nat, v0: nat, v1: nat, v2: nat)
    requires v0 == x + p * p * y && x + p * p * y + p * y + p * x < q
    requires 0 <= v0 + p * y < q ==> v1 == v0 + p * y
    requires 0 <= v1 + p * x < q ==> v2 == v1 + p * x
    ensures v2 == x + p * p * y + p * y + p * x
  {
    assert p * y >= 0 && p * x >= 0;
  }

  lemma PowerOfHalf(b: nat, h: nat)
    ensures Pow(b, 2 * h) == Pow(b, h) * Pow(b, h)
    ensures Pow(b, 4 * h) == Pow(b, h) * Pow(b, h) * (Pow(b, h) * Pow(b, h))
  {
    hide Pow;
    assert 2 * h == h + h && 4 * h == 2 * h + 2 * h;
    PowAdd(b, h, h);
    PowAdd(b, 2 * h, 2 * h);
  }

  /** Step 6 on values: the outer sum and the signed middle product make the
      product of the two numbers. */
  lemma FinishProduct(b: nat, n: nat, h: nat, v: nat, v': nat, a0: nat, a1: nat, c0: nat, c1: nat, x: int)
    requires b > 1 && n == 2 * h
    requires a0 < Pow(b, h) && a1 < Pow(b, h) && c0 < Pow(b, h) && c1 < Pow(b, h)
    requires IsOuterSum(Pow(b, h), v, a0, a1, c0, c1)
    requires x == (a1 - a0) * (c0 - c1)
    requires MovedBy(b, n, h, v, v', x) || (x == 0 && v' == v)
    ensures v' == (a0 + Pow(b, h) * a1) * (c0 + Pow(b, h) * c1)
  {
    hide Value, Pow, IsOuterSum, MovedBy;
    FinishedTotal(Pow(b, h), v, a0, a1, c0, c1, x);
    PowerOfHalf(b, h);
    MovedApply(b, n, h, v, v', x, (a0 + Pow(b, h) * a1) * (c0 + Pow(b, h) * c1));
  }

  lemma FinishedTotal(p: nat, v: nat, a0: nat, a1: nat, c0: nat, c1: nat, x: int)
    requires a0 < p && a1 < p && c0 < p && c1 < p && IsOuterSum(p, v, a0, a1, c0, c1) && x == (a1 - a0) * (c0 - c1)
    ensures var total := (a0 + p * a1) * (c0 + p * c1); v + p * x == total && 0 <= total < p * p * (p * p)
  {
    hide IsOuterSum;
    OuterAndMiddle(p, v, a0, a1, c0, c1);
    TotalBelow(p, a0, a1, c0, c1);
  }

  lemma OuterAndMiddle(p: nat, v: nat, a0: nat, a1: nat, c0: nat, c1: nat)
    requires IsOuterSum(p, v, a0, a1, c0, c1)
    ensures v + p * ((a1 - a0) * (c0 - c1)) == (a0 + p * a1) * (c0 + p * c1)
  {
    MiddleIdentity(p, a0, a1, c0, c1);
  }

  lemma TotalBelow(p: nat, a0: nat, a1: nat, c0: nat, c1: nat)
    requires a0 < p && a1 < p && c0 < p && c1 < p
    ensures 0 <= (a0 + p * a1) * (c0 + p * c1) < p * p * (p * p)
  {
    HalvesBound(p, a0, a1);
    HalvesBound(p, c0, c1);
    ProductBelow(a0 + p * a1, c0 + p * c1, p * p);
  }

  lemma MovedApply(b: nat, n: nat, h: nat, v: nat, v': nat, x: int, total: int)
    requires n == 2 * h && v + Pow(b, h) * x == total && 0 <= total < Pow(b, 4 * h)
    requires MovedBy(b, n, h, v, v', x) || (x == 0 && v' == v)
    ensures v' == total
  {
    hide Pow;
  }

  lemma MiddleIdentity(p: int, a0: int, a1: int, c0: int, c1: int)
    ensures a0 * c0 + p * p * (a1 * c1) + p * (a1 * c1) + p * (a0 * c0) + p * ((a1 - a0) * (c0 - c1))
         == (a0 + p * a1) * (c0 + p * c1)
  {
  }

  lemma HalvesBound(p: nat, x0: nat, x1: nat)
    requires x0 < p && x1 < p
    ensures x0 + p * x1 < p * p
  {
    MulMonotone(x1 + 1, p, p);
  }

  lemma ProductBelow(x: nat, y: nat, q: nat)
    requires x < q && y < q
    ensures 0 <= x * y < q * q
  {
    MulMonotone(x, q, y);
    MulMonotone(y, q - 1, q);
  }

  lemma SplitHalves(b: nat, s: seq<nat>, n: nat, h: nat)
    requires b > 0 && |s| == n && h == n / 2 && IsLimbs(b, s)
    ensures IsLimbs(b, s[..h]) && IsLimbs(b, s[h..2 * h]) && IsLimbs(b, s[2 * h..])
    ensures Value(b, s[..h]) < Pow(b, h) && Value(b, s[h..2 * h]) < Pow(b, h)
    ensures Value(b, s) == Value(b, s[..h]) + Pow(b, h) * Value(b, s[h..2 * h]) + Pow(b, 2 * h) * Value(b, s[2 * h..])
  {
    assert s == s[..h] + s[h..2 * h] + s[2 * h..];
    LimbsConcat(b, s[..h] + s[h..2 * h], s[2 * h..]);
    LimbsConcat(b, s[..h], s[h..2 * h]);
    ValueConcat(b, s[..h] + s[h..2 * h], s[2 * h..]);
    ValueConcat(b, s[..h], s[h..2 * h]);
    ValueBound(b, s[..h]);
    ValueBound(b, s[h..2 * h]);
  }

  function Abs(x: int): nat {
    if x < 0 then -x else x
  }

  /** A vanishing multiplication splits into vanishing ones: nothing of it
      reaches the half products. */
  lemma VanishHalves(b: nat, n: nat, h: nat, x: seq<nat>, y: seq<nat>)
    requires b > 1 && n > 48 && h == n / 2 && |x| == |y| == n && IsLimbs(b, x) && IsLimbs(b, y)
    requires Vanishes(b, n, Value(b, x), Value(b, y))
    ensures Vanishes(b, h, Value(b, x[..h]), Value(b, y[..h]))
    ensures Vanishes(b, h, Value(b, x[h..2 * h]), Value(b, y[h..2 * h]))
    ensures Vanishes(b, h, Abs(Value(b, x[h..2 * h]) - Value(b, x[..h])), Abs(Value(b, y[..h]) - Value(b, y[h..2 * h])))
  {
    hide Value, Pow;
    SplitHalves(b, x, n, h);
    SplitHalves(b, y, n, h);
    if Value(b, x) == 0 {
      ZeroSplit(Pow(b, h), Pow(b, 2 * h), Value(b, x[..h]), Value(b, x[h..2 * h]), Value(b, x[2 * h..]));
    } else if n % 2 != 0 {
      TopSplit(b, h, Value(b, x[..h]), Value(b, x[h..2 * h]), Value(b, x[2 * h..]));
    } else {
      assert x[2 * h..] == [] && y[2 * h..] == [];
      ValueEmpty(b);
      var k := LostLimb(h);
      PowStrict(b, k, h);
      LowSplit(Pow(b, h), Value(b, x[..h]), Value(b, x[h..2 * h]), Pow(b, k));
      PowAboveOne(b, h);
      LowSplit(Pow(b, h), Value(b, y[..h]), Value(b, y[h..2 * h]), 1);
    }
  }

  lemma PowAboveOne(b: nat, h: nat)
    requires b > 1 && h > 0
    ensures Pow(b, h) > 1
  {
    PowStrict(b, 0, h);
  }

  lemma ZeroSplit(p: nat, q: nat, x0: nat, x1: nat, x2: nat)
    requires p > 0 && q > 0 && x0 + p * x1 + q * x2 == 0
    ensures x0 == x1 == 0
  {
    assert p * x1 >= 0 && q * x2 >= 0;
    ZeroFactor(p, x1);
  }

  lemma LowSplit(p: nat, x0: nat, x1: nat, v: nat)
    requires v < p && x0 < p && x0 + p * x1 == v
    ensures x0 == v && x1 == 0
  {
    DivModUnique(v, p, x1, x0);
    DivModUnique(v, p, 0, v);
  }

  lemma TopSplit(b: nat, h: nat, x0: nat, x1: nat, x2: nat)
    requires b > 1 && x0 < Pow(b, h) && x1 < Pow(b, h)
    requires x0 + Pow(b, h) * x1 + Pow(b, 2 * h) * x2 == Pow(b, 2 * h)
    ensures x0 == x1 == 0
  {
    hide Pow;
    var p := Pow(b, h);
    PowerOfHalf(b, h);
    HalvesBound(p, x0, x1);
    assert p * p > 0;
    DivModUnique(p * p, p * p, x2, x0 + p * x1);
    DivModUnique(p * p, p * p, 1, 0);
    assert p * x1 >= 0;
    ZeroFactor(p, x1);
  }

  predicate Disjoint(x: nat, n: nat, y: nat, k: nat) {
    x + n <= y || y + k <= x
  }

  /** Operands `a`, `c`, result `r` and scratch `t` are ranges of one memory:
      what is written meets neither the operands nor itself. */
  predicate Layout(size: nat, r: nat, a: nat, c: nat, n: nat, t: nat) {
    && r + 2 * n <= size && t + 4 * n <= size && a + n <= size && c + n <= size
    && Disjoint(r, 2 * n, t, 4 * n)
    && Disjoint(r, 2 * n, a, n) && Disjoint(r, 2 * n, c, n)
    && Disjoint(t, 4 * n, a, n) && Disjoint(t, 4 * n, c, n)
  }

  lemma LayoutOfHalves(size: nat, r: nat, a: nat, c: nat, n: nat, h: nat, t: nat)
    requires Layout(size, r, a, c, n, t) && h == n / 2
    ensures Layout(size, r + n, a + h, c + h, h, t) && Layout(size, r, a, c, h, t)
  {
  }

  predicate Inside(i: int, r: nat, n: nat, t: nat, k: nat) {
    r <= i < r + n || t <= i < t + k
  }

  /** Two states of the memory agree outside the result and scratch ranges. */
  ghost predicate SameOutside(s: seq<nat>, s': seq<nat>, r: nat, n: nat, t: nat, k: nat) {
    |s| == |s'| && forall i :: 0 <= i < |s| && !Inside(i, r, n, t, k) ==> s[i] == s'[i]
  }

  ghost predicate Zeros(s: seq<nat>, x: nat, n: nat) {
    x + n <= |s| && forall k :: x <= k < x + n ==> s[k] == 0
  }

  ghost function ValueAt(b: nat, s: seq<nat>, x: nat, n: nat): nat
    requires x + n <= |s|
  {
    Value(b, s[x..x + n])
  }

  /** What the multiplication does to the memory `s`: `r` gets the product of
      `a` and `c` whenever every split is even; a cleared `r` stays zero on the
      inputs of `Vanishes`; only `r` and the 4n limbs of scratch change. */
  ghost predicate Multiplied(b: nat, s: seq<nat>, s': seq<nat>, r: nat, a: nat, c: nat, n: nat, t: nat)
    requires Layout(|s|, r, a, c, n, t)
  {
    && IsLimbs(b, s') && SameOutside(s, s', r, 2 * n, t, 4 * n)
    && (HalvesEvenly(n) ==> IsProduct(ValueAt(b, s', r, 2 * n), ValueAt(b, s, a, n), ValueAt(b, s, c, n)))
    && (Zeros(s, r, 2 * n) && Vanishes(b, n, ValueAt(b, s, a, n), ValueAt(b, s, c, n)) ==> Zeros(s', r, 2 * n))
  }

  /** After step 1: the lower and the upper half product stand in `r`. */
  ghost predicate HalvesMultiplied(b: nat, s: seq<nat>, s': seq<nat>, r: nat, a: nat, c: nat, n: nat, h: nat, t: nat)
    requires Layout(|s|, r, a, c, n, t) && h == n / 2
  {
    && IsLimbs(b, s') && SameOutside(s, s', r, 2 * n, t, 4 * n)
    && (HalvesEvenly(n) ==>
          && IsProduct(ValueAt(b, s', r, 2 * h), ValueAt(b, s, a, h), ValueAt(b, s, c, h))
          && IsProduct(ValueAt(b, s', r + n, 2 * h), ValueAt(b, s, a + h, h), ValueAt(b, s, c + h, h)))
    && (Zeros(s, r, 2 * n) && Vanishes(b, n, ValueAt(b, s, a, n), ValueAt(b, s, c, n)) ==> Zeros(s', r, 2 * n))
  }

  lemma SameRange(b: nat, s: seq<nat>, s': seq<nat>, r: nat, n: nat, t: nat, k: nat, x: nat, len: nat)
    requires SameOutside(s, s', r, n, t, k) && x + len <= |s| && Disjoint(r, n, x, len) && Disjoint(t, k, x, len)
    ensures ValueAt(b, s', x, len) == ValueAt(b, s, x, len)
    ensures Zeros(s, x, len) ==> Zeros(s', x, len)
  {
    assert s'[x..x + len] == s[x..x + len];
  }

  lemma SubRange(s: seq<nat>, a: nat, n: nat, i: nat, j: nat)
    requires i <= j <= n && a + n <= |s|
    ensures s[a..a + n][i..j] == s[a + i..a + j]
  {
    var x, z := s[a..a + n], s[a + i..a + j];
    var y := x[i..j];
    forall k | 0 <= k < j - i ensures y[k] == z[k] {
      assert y[k] == x[i + k];
      assert x[i + k] == s[a + (i + k)];
      assert z[k] == s[(a + i) + k];
    }
  }

  lemma VanishAt(b: nat, s: seq<nat>, a: nat, c: nat, n: nat, h: nat)
    requires b > 1 && n > 48 && h == n / 2 && a + n <= |s| && c + n <= |s| && IsLimbs(b, s)
    requires Vanishes(b, n, ValueAt(b, s, a, n), ValueAt(b, s, c, n))
    ensures Vanishes(b, h, ValueAt(b, s, a, h), ValueAt(b, s, c, h))
    ensures Vanishes(b, h, ValueAt(b, s, a + h, h), ValueAt(b, s, c + h, h))
    ensures Vanishes(b, h, Abs(ValueAt(b, s, a + h, h) - ValueAt(b, s, a, h)), Abs(ValueAt(b, s, c, h) - ValueAt(b, s, c + h, h)))
  {
    hide Value, Pow, Vanishes;
    SubRange(s, a, n, 0, h);
    SubRange(s, a, n, h, 2 * h);
    SubRange(s, c, n, 0, h);
    SubRange(s, c, n, h, 2 * h);
    VanishHalves(b, n, h, s[a..a + n], s[c..c + n]);
  }

  lemma OutsideCompose(s: seq<nat>, s1: seq<nat>, s2: seq<nat>, r: nat, n: nat, t: nat, k: nat,
                       r1: nat, n1: nat, t1: nat, k1: nat, r2: nat, n2: nat, t2: nat, k2: nat)
    requires SameOutside(s, s1, r1, n1, t1, k1) && SameOutside(s1, s2, r2, n2, t2, k2)
    requires forall i: int :: Inside(i, r1, n1, t1, k1) || Inside(i, r2, n2, t2, k2) ==> Inside(i, r, n, t, k)
    ensures SameOutside(s, s2, r, n, t, k)
  {
  }

  lemma ZeroCompose(s: seq<nat>, s1: seq<nat>, s2: seq<nat>, r: nat, n: nat, h: nat, t: nat)
    requires h == n / 2 && Disjoint(r, 2 * n, t, 4 * n)
    requires SameOutside(s, s1, r + n, 2 * h, t, 4 * h) && SameOutside(s1, s2, r, 2 * h, t, 4 * h)
    requires Zeros(s, r, 2 * n)
    ensures Zeros(s, r + n, 2 * h)
    ensures Zeros(s1, r + n, 2 * h) ==> Zeros(s1, r, 2 * h)
    ensures Zeros(s1, r + n, 2 * h) && Zeros(s2, r, 2 * h) ==> Zeros(s2, r, 2 * n)
  {
  }

  lemma HalvesCompose(b: nat, s: seq<nat>, s1: seq<nat>, s2: seq<nat>, r: nat, a: nat, c: nat, n: nat, h: nat, t: nat)
    requires b > 1 && n > 48 && h == n / 2 && Layout(|s|, r, a, c, n, t) && IsLimbs(b, s) && |s| == |s1|
    requires Layout(|s|, r + n, a + h, c + h, h, t) && Layout(|s1|, r, a, c, h, t)
    requires Multiplied(b, s, s1, r + n, a + h, c + h, h, t) && Multiplied(b, s1, s2, r, a, c, h, t)
    ensures HalvesMultiplied(b, s, s2, r, a, c, n, h, t)
  {
    hide Value, Pow, Vanishes, IsProduct, ValueAt, SameOutside, Zeros, IsLimbs;
    OutsideCompose(s, s1, s2, r, 2 * n, t, 4 * n, r + n, 2 * h, t, 4 * h, r, 2 * h, t, 4 * h);
    SameRange(b, s, s1, r + n, 2 * h, t, 4 * h, a, h);
    SameRange(b, s, s1, r + n, 2 * h, t, 4 * h, c, h);
    SameRange(b, s1, s2, r, 2 * h, t, 4 * h, r + n, 2 * h);
    if Zeros(s, r, 2 * n) && Vanishes(b, n, ValueAt(b, s, a, n), ValueAt(b, s, c, n)) {
      VanishAt(b, s, a, c, n, h);
      ZeroCompose(s, s1, s2, r, n, h, t);
    }
  }

  /** After step 2: `r` holds the outer sum, and of a vanishing product nothing
      is left in `r` or in the copy of it. */
  ghost predicate OuterSummed(b: nat, s: seq<nat>, s': seq<nat>, r: nat, a: nat, c: nat, n: nat, h: nat, t: nat)
    requires Layout(|s|, r, a, c, n, t) && h == n / 2
  {
    && IsLimbs(b, s') && SameOutside(s, s', r, 2 * n, t, 4 * n)
    && (HalvesEvenly(n) ==>
          IsOuterSum(Pow(b, h), ValueAt(b, s', r, 2 * n), ValueAt(b, s, a, h), ValueAt(b, s, a + h, h),
                     ValueAt(b, s, c, h), ValueAt(b, s, c + h, h)))
    && (Zeros(s, r, 2 * n) && Vanishes(b, n, ValueAt(b, s, a, n), ValueAt(b, s, c, n)) ==>
          Zeros(s', r, 2 * n) && Zeros(s', t, 2 * n))
  }

  ghost predicate CopiedAt(s: seq<nat>, s': seq<nat>, x: nat, t: nat, n: nat)
    requires x + n <= |s| && t + n <= |s|
  {
    SameOutside(s, s', t, n, t, 0) && s'[t..t + n] == s[x..x + n]
  }

  /** A middle update by the n limbs at `x`, added (1) or subtracted (-1). */
  ghost predicate MovedAt(b: nat, s: seq<nat>, s': seq<nat>, r: nat, n: nat, h: nat, x: nat, sign: int)
    requires r + 2 * n <= |s| && x + n <= |s|
  {
    && IsLimbs(b, s') && SameOutside(s, s', r, 2 * n, r, 0)
    && MovedBy(b, n, h, ValueAt(b, s, r, 2 * n), ValueAt(b, s', r, 2 * n), sign * ValueAt(b, s, x, n))
  }

  lemma CopyLimbs(b: nat, s: seq<nat>, s': seq<nat>, x: nat, t: nat, n: nat)
    requires x + n <= |s| && t + n <= |s| && CopiedAt(s, s', x, t, n) && IsLimbs(b, s)
    ensures IsLimbs(b, s')
    ensures Zeros(s, x, n) ==> Zeros(s', t, n)
  {
    assert forall k :: t <= k < t + n ==> s'[k] == s'[t..t + n][k - t] == s[x..x + n][k - t] == s[x + (k - t)];
  }

  lemma ZeroMoved(b: nat, s: seq<nat>, s': seq<nat>, r: nat, n: nat, h: nat, x: nat, sign: int)
    requires b > 1 && r + 2 * n <= |s| && x + n <= |s| && MovedAt(b, s, s', r, n, h, x, sign)
    requires Zeros(s, r, 2 * n) && Zeros(s, x, n)
    ensures Zeros(s', r, 2 * n)
  {
    hide Value, Pow;
    ValueZeros(b, s[r..r + 2 * n]);
    ValueZeros(b, s[x..x + n]);
    assert sign * ValueAt(b, s, x, n) == 0;
    ZeroValue(b, s'[r..r + 2 * n]);
    assert forall k :: r <= k < r + 2 * n ==> s'[k] == s'[r..r + 2 * n][k - r];
  }

  lemma CopiedParts(b: nat, s: seq<nat>, s': seq<nat>, x: nat, t: nat, n: nat)
    requires x + 2 * n <= |s| && t + 2 * n <= |s| && CopiedAt(s, s', x, t, 2 * n)
    ensures ValueAt(b, s', t, n) == ValueAt(b, s, x, n)
    ensures ValueAt(b, s', t + n, n) == ValueAt(b, s, x + n, n)
  {
    assert s'[t..t + n] == s'[t..t + 2 * n][..n] == s[x..x + 2 * n][..n] == s[x..x + n];
    assert s'[t + n..t + n + n] == s'[t..t + 2 * n][n..] == s[x..x + 2 * n][n..] == s[x + n..x + n + n];
  }

  lemma ValueAtBound(b: nat, s: seq<nat>, x: nat, n: nat)
    requires b > 0 && x + n <= |s| && IsLimbs(b, s)
    ensures ValueAt(b, s, x, n) < Pow(b, n)
  {
    hide Value, Pow;
    ValueBound(b, s[x..x + n]);
  }

  lemma OuterValues(b: nat, s: seq<nat>, s1: seq<nat>, s2: seq<nat>, s3: seq<nat>, s4: seq<nat>,
                    r: nat, a: nat, c: nat, n: nat, h: nat, t: nat)
    requires b > 1 && n == 2 * h && Layout(|s|, r, a, c, n, t) && IsLimbs(b, s)
    requires |s| == |s1| == |s2| == |s3| == |s4|
    requires IsProduct(ValueAt(b, s1, r, 2 * h), ValueAt(b, s, a, h), ValueAt(b, s, c, h))
    requires IsProduct(ValueAt(b, s1, r + n, 2 * h), ValueAt(b, s, a + h, h), ValueAt(b, s, c + h, h))
    requires CopiedAt(s1, s2, r, t, 2 * n)
    requires MovedAt(b, s2, s3, r, n, h, t + n, 1) && MovedAt(b, s3, s4, r, n, h, t, 1)
    ensures IsOuterSum(Pow(b, h), ValueAt(b, s4, r, 2 * n), ValueAt(b, s, a, h), ValueAt(b, s, a + h, h),
                       ValueAt(b, s, c, h), ValueAt(b, s, c + h, h))
  {
    hide Value, Pow, MovedBy, IsOuterSum, ValueAt, SameOutside, Zeros, CopiedAt;
    OuterKept(b, s1, s2, s3, r, n, h, t);
    ValueAtBound(b, s, a, h);
    ValueAtBound(b, s, a + h, h);
    ValueAtBound(b, s, c, h);
    ValueAtBound(b, s, c + h, h);
    OuterMoves(b, s2, s3, s4, r, n, h, t, ValueAt(b, s, a, h), ValueAt(b, s, a + h, h), ValueAt(b, s, c, h), ValueAt(b, s, c + h, h));
  }

  /** What the two middle updates read is what the copy left in the scratch. */
  lemma OuterKept(b: nat, s1: seq<nat>, s2: seq<nat>, s3: seq<nat>, r: nat, n: nat, h: nat, t: nat)
    requires |s1| == |s2| == |s3| && r + 2 * n <= |s1| && t + 4 * n <= |s1| && Disjoint(r, 2 * n, t, 4 * n)
    requires CopiedAt(s1, s2, r, t, 2 * n) && MovedAt(b, s2, s3, r, n, h, t + n, 1)
    ensures ValueAt(b, s2, r, n) == ValueAt(b, s1, r, n) && ValueAt(b, s2, r + n, n) == ValueAt(b, s1, r + n, n)
    ensures ValueAt(b, s2, t + n, n) == ValueAt(b, s1, r + n, n) && ValueAt(b, s3, t, n) == ValueAt(b, s1, r, n)
  {
    hide Value, Pow, MovedBy, ValueAt, SameOutside, Zeros;
    CopiedParts(b, s1, s2, r, t, n);
    SameRange(b, s1, s2, t, 2 * n, t, 0, r, n);
    SameRange(b, s1, s2, t, 2 * n, t, 0, r + n, n);
    SameRange(b, s2, s3, r, 2 * n, r, 0, t, n);
  }

  lemma OuterMoves(b: nat, s2: seq<nat>, s3: seq<nat>, s4: seq<nat>, r: nat, n: nat, h: nat, t: nat, a0: nat, a1: nat, c0: nat, c1: nat)
    requires b > 1 && n == 2 * h && |s2| == |s3| == |s4| && r + 2 * n <= |s2| && t + 2 * n <= |s2|
    requires MovedAt(b, s2, s3, r, n, h, t + n, 1) && MovedAt(b, s3, s4, r, n, h, t, 1)
    requires a0 < Pow(b, h) && a1 < Pow(b, h) && c0 < Pow(b, h) && c1 < Pow(b, h)
    requires IsProduct(ValueAt(b, s2, r, n), a0, c0) && IsProduct(ValueAt(b, s2, r + n, n), a1, c1)
    requires IsProduct(ValueAt(b, s2, t + n, n), a1, c1) && IsProduct(ValueAt(b, s3, t, n), a0, c0)
    ensures IsOuterSum(Pow(b, h), ValueAt(b, s4, r, 2 * n), a0, a1, c0, c1)
  {
    hide Value, Pow, MovedBy, IsOuterSum, SameOutside;
    var rs := s2[r..r + 2 * n];
    assert rs[..n] == s2[r..r + n] && rs[n..] == s2[r + n..r + n + n];
    OuterUpdate(b, n, h, rs, ValueAt(b, s3, r, 2 * n), ValueAt(b, s4, r, 2 * n), a0, a1, c0, c1);
  }

  lemma OuterZeros(b: nat, s1: seq<nat>, s2: seq<nat>, s3: seq<nat>, s4: seq<nat>, r: nat, n: nat, h: nat, t: nat)
    requires b > 1 && r + 2 * n <= |s1| && t + 4 * n <= |s1| && Disjoint(r, 2 * n, t, 4 * n) && IsLimbs(b, s1)
    requires |s1| == |s2| == |s3| == |s4|
    requires CopiedAt(s1, s2, r, t, 2 * n)
    requires MovedAt(b, s2, s3, r, n, h, t + n, 1) && MovedAt(b, s3, s4, r, n, h, t, 1)
    requires Zeros(s1, r, 2 * n)
    ensures Zeros(s4, r, 2 * n) && Zeros(s4, t, 2 * n)
  {
    hide Value, Pow, MovedBy, ValueAt;
    CopyLimbs(b, s1, s2, r, t, 2 * n);
    ZeroMoved(b, s2, s3, r, n, h, t + n, 1);
    ZeroMoved(b, s3, s4, r, n, h, t, 1);
  }

  lemma OuterCompose(b: nat, s: seq<nat>, s1: seq<nat>, s2: seq<nat>, s3: seq<nat>, s4: seq<nat>,
                     r: nat, a: nat, c: nat, n: nat, h: nat, t: nat)
    requires b > 1 && n > 48 && h == n / 2 && Layout(|s|, r, a, c, n, t) && IsLimbs(b, s)
    requires |s| == |s1| == |s2| == |s3| == |s4|
    requires HalvesMultiplied(b, s, s1, r, a, c, n, h, t)
    requires CopiedAt(s1, s2, r, t, 2 * n)
    requires MovedAt(b, s2, s3, r, n, h, t + n, 1) && MovedAt(b, s3, s4, r, n, h, t, 1)
    ensures OuterSummed(b, s, s4, r, a, c, n, h, t)
  {
    hide Value, Pow, Vanishes, IsProduct, ValueAt, SameOutside, Zeros, IsLimbs, MovedBy, IsOuterSum;
    OutsideCompose(s, s1, s2, r, 2 * n, t, 4 * n, r, 2 * n, t, 4 * n, t, 2 * n, t, 0);
    OutsideCompose(s, s2, s3, r, 2 * n, t, 4 * n, r, 2 * n, t, 4 * n, r, 2 * n, r, 0);
    OutsideCompose(s, s3, s4, r, 2 * n, t, 4 * n, r, 2 * n, t, 4 * n, r, 2 * n, r, 0);
    if HalvesEvenly(n) {
      OuterValues(b, s, s1, s2, s3, s4, r, a, c, n, h, t);
    }
    if Zeros(s, r, 2 * n) && Vanishes(b, n, ValueAt(b, s, a, n), ValueAt(b, s, c, n)) {
      OuterZeros(b, s1, s2, s3, s4, r, n, h, t);
    }
  }

  /** `s'[x..x+n)` gets |u - v|, or keeps its limbs when the two are equal. */
  ghost predicate DifferenceAt(b: nat, s: seq<nat>, s': seq<nat>, x: nat, u: nat, v: nat, n: nat)
    requires x + n <= |s| && u + n <= |s| && v + n <= |s|
  {
    && IsLimbs(b, s') && SameOutside(s, s', x, n, x, 0)
    && (ValueAt(b, s, u, n) == ValueAt(b, s, v, n) ==> s' == s)
    && (ValueAt(b, s, u, n) != ValueAt(b, s, v, n) ==>
          ValueAt(b, s', x, n) == Abs(ValueAt(b, s, u, n) - ValueAt(b, s, v, n)))
  }

  /** The signed last step: what `sign` says about the two differences decides
      between adding, subtracting and leaving r1 alone. */
  ghost predicate SignedMove(b: nat, s: seq<nat>, s': seq<nat>, r: nat, n: nat, h: nat, x: nat, sign: int)
    requires r + 2 * n <= |s| && x + n <= |s|
  {
    if sign == 0 then s' == s else MovedAt(b, s, s', r, n, h, x, sign)
  }

  lemma SignedProduct(x: int, y: int, p: nat, q: nat, v: nat)
    requires IsProduct(v, p, q) && (x != 0 ==> p == Abs(x)) && (y != 0 ==> q == Abs(y))
    ensures Sign(x) * Sign(y) * v == x * y || (Sign(x) * Sign(y) == 0 && x * y == 0)
  {
  }

  /** The ranges that steps 3 to 5 read still hold what step 2 left there. */
  lemma InnerRanges(b: nat, s: seq<nat>, s4: seq<nat>, s5: seq<nat>, s6: seq<nat>, s7: seq<nat>,
                    r: nat, a: nat, c: nat, n: nat, h: nat, t: nat)
    requires h == n / 2 && Layout(|s|, r, a, c, n, t)
    requires |s| == |s4| == |s5| == |s6| == |s7|
    requires SameOutside(s, s4, r, 2 * n, t, 4 * n)
    requires SameOutside(s4, s5, t, h, t, 0) && SameOutside(s5, s6, t + h, h, t + h, 0)
    requires SameOutside(s6, s7, t + n, 2 * h, t + 2 * n, 4 * h)
    ensures ValueAt(b, s4, a, h) == ValueAt(b, s, a, h) && ValueAt(b, s4, a + h, h) == ValueAt(b, s, a + h, h)
    ensures ValueAt(b, s5, c, h) == ValueAt(b, s, c, h) && ValueAt(b, s5, c + h, h) == ValueAt(b, s, c + h, h)
    ensures ValueAt(b, s6, t, h) == ValueAt(b, s5, t, h)
    ensures ValueAt(b, s7, r, 2 * n) == ValueAt(b, s4, r, 2 * n)
    ensures Zeros(s4, r, 2 * n) ==> Zeros(s7, r, 2 * n)
    ensures Zeros(s4, t + n, n) ==> Zeros(s6, t + n, n)
    ensures Zeros(s4, t + h, h) ==> Zeros(s5, t + h, h)
  {
    hide Value, ValueAt, SameOutside, Zeros;
    OperandKept(b, s, s4, r, a, n, h, t);
    OperandKept(b, s, s4, r, c, n, h, t);
    DifferenceRanges(b, s4, s5, c, t, t + h, n, h);
    ScratchKept(b, s5, s6, t, n, h);
    ResultKept(b, s4, s5, s6, s7, r, n, h, t);
  }

  lemma OperandKept(b: nat, s: seq<nat>, s': seq<nat>, r: nat, a: nat, n: nat, h: nat, t: nat)
    requires h == n / 2 && a + n <= |s| && SameOutside(s, s', r, 2 * n, t, 4 * n)
    requires Disjoint(r, 2 * n, a, n) && Disjoint(t, 4 * n, a, n)
    ensures ValueAt(b, s', a, h) == ValueAt(b, s, a, h) && ValueAt(b, s', a + h, h) == ValueAt(b, s, a + h, h)
  {
    hide Value, ValueAt, SameOutside, Zeros;
    SameRange(b, s, s', r, 2 * n, t, 4 * n, a, h);
    SameRange(b, s, s', r, 2 * n, t, 4 * n, a + h, h);
  }

  lemma ScratchKept(b: nat, s: seq<nat>, s': seq<nat>, t: nat, n: nat, h: nat)
    requires h == n / 2 && t + 4 * n <= |s| && SameOutside(s, s', t + h, h, t + h, 0)
    ensures ValueAt(b, s', t, h) == ValueAt(b, s, t, h) && (Zeros(s, t + n, n) ==> Zeros(s', t + n, n))
  {
    hide Value, ValueAt, SameOutside, Zeros;
    SameRange(b, s, s', t + h, h, t + h, 0, t, h);
    SameRange(b, s, s', t + h, h, t + h, 0, t + n, n);
  }

  lemma ResultKept(b: nat, s4: seq<nat>, s5: seq<nat>, s6: seq<nat>, s7: seq<nat>, r: nat, n: nat, h: nat, t: nat)
    requires h == n / 2 && r + 2 * n <= |s4| && |s4| == |s5| == |s6| == |s7| && Disjoint(r, 2 * n, t, 4 * n)
    requires SameOutside(s4, s5, t, h, t, 0) && SameOutside(s5, s6, t + h, h, t + h, 0)
    requires SameOutside(s6, s7, t + n, 2 * h, t + 2 * n, 4 * h)
    ensures ValueAt(b, s7, r, 2 * n) == ValueAt(b, s4, r, 2 * n) && (Zeros(s4, r, 2 * n) ==> Zeros(s7, r, 2 * n))
  {
    hide Value, ValueAt, SameOutside, Zeros;
    SameRange(b, s4, s5, t, h, t, 0, r, 2 * n);
    SameRange(b, s5, s6, t + h, h, t + h, 0, r, 2 * n);
    SameRange(b, s6, s7, t + n, 2 * h, t + 2 * n, 4 * h, r, 2 * n);
  }

  lemma DifferenceRanges(b: nat, s: seq<nat>, s': seq<nat>, c: nat, t: nat, t1: nat, n: nat, h: nat)
    requires h == n / 2 && t1 == t + h && c + n <= |s| && t + 4 * n <= |s| && Disjoint(t, 4 * n, c, n) && SameOutside(s, s', t, h, t, 0)
    ensures ValueAt(b, s', c, h) == ValueAt(b, s, c, h) && ValueAt(b, s', c + h, h) == ValueAt(b, s, c + h, h)
    ensures Zeros(s, t1, h) ==> Zeros(s', t1, h)
    ensures Zeros(s, t + n, n) ==> Zeros(s', t + n, n)
  {
    hide Value, ValueAt, SameOutside, Zeros;
    SameRange(b, s, s', t, h, t, 0, c, h);
    SameRange(b, s, s', t, h, t, 0, c + h, h);
    SameRange(b, s, s', t, h, t, 0, t1, h);
    SameRange(b, s, s', t, h, t, 0, t + n, n);
  }

  lemma InnerValues(b: nat, s: seq<nat>, n: nat, h: nat, a: nat, c: nat, v7: nat, v8: nat, p: nat, q: nat, x: nat, sign: int)
    requires b > 1 && n == 2 * h && a + n <= |s| && c + n <= |s| && IsLimbs(b, s)
    requires IsOuterSum(Pow(b, h), v7, ValueAt(b, s, a, h), ValueAt(b, s, a + h, h), ValueAt(b, s, c, h), ValueAt(b, s, c + h, h))
    requires var da, dc := ValueAt(b, s, a + h, h) - ValueAt(b, s, a, h), ValueAt(b, s, c, h) - ValueAt(b, s, c + h, h);
             sign == Sign(da) * Sign(dc) && (da != 0 ==> p == Abs(da)) && (dc != 0 ==> q == Abs(dc))
    requires IsProduct(x, p, q)
    requires if sign == 0 then v8 == v7 else MovedBy(b, n, h, v7, v8, sign * x)
    ensures IsProduct(v8, ValueAt(b, s, a, n), ValueAt(b, s, c, n))
  {
    hide Value, Pow, MovedBy, IsOuterSum, ValueAt, Sign, Abs, IsProduct;
    var a0: int, a1: int, c0: int, c1: int := ValueAt(b, s, a, h), ValueAt(b, s, a + h, h), ValueAt(b, s, c, h), ValueAt(b, s, c + h, h);
    SignedProduct(a1 - a0, c0 - c1, p, q, x);
    ValueAtBound(b, s, a, h);
    ValueAtBound(b, s, a + h, h);
    ValueAtBound(b, s, c, h);
    ValueAtBound(b, s, c + h, h);
    FinishProduct(b, n, h, v7, v8, a0, a1, c0, c1, (a1 - a0) * (c0 - c1));
    JoinHalves(b, s, a, n, h);
    JoinHalves(b, s, c, n, h);
    ProductOf(v8, ValueAt(b, s, a, n), ValueAt(b, s, c, n));
  }

  lemma InnerOutside(s: seq<nat>, s4: seq<nat>, s5: seq<nat>, s6: seq<nat>, s7: seq<nat>, s8: seq<nat>,
                     r: nat, n: nat, h: nat, t: nat)
    requires h == n / 2 && |s| == |s8|
    requires SameOutside(s, s4, r, 2 * n, t, 4 * n)
    requires SameOutside(s4, s5, t, h, t, 0) && SameOutside(s5, s6, t + h, h, t + h, 0)
    requires SameOutside(s6, s7, t + n, 2 * h, t + 2 * n, 4 * h)
    requires s8 == s7 || SameOutside(s7, s8, r, 2 * n, r, 0)
    ensures SameOutside(s, s8, r, 2 * n, t, 4 * n)
  {
    hide SameOutside;
    OutsideCompose(s, s4, s5, r, 2 * n, t, 4 * n, r, 2 * n, t, 4 * n, t, h, t, 0);
    OutsideCompose(s, s5, s6, r, 2 * n, t, 4 * n, r, 2 * n, t, 4 * n, t + h, h, t + h, 0);
    OutsideCompose(s, s6, s7, r, 2 * n, t, 4 * n, r, 2 * n, t, 4 * n, t + n, 2 * h, t + 2 * n, 4 * h);
    if s8 != s7 {
      OutsideCompose(s, s7, s8, r, 2 * n, t, 4 * n, r, 2 * n, t, 4 * n, r, 2 * n, r, 0);
    }
  }

  lemma ZeroParts(b: nat, s: seq<nat>, t: nat, n: nat, h: nat)
    requires h == n / 2 && Zeros(s, t, 2 * n)
    ensures Zeros(s, t, h) && Zeros(s, t + h, h) && Zeros(s, t + n, n)
    ensures ValueAt(b, s, t, h) == ValueAt(b, s, t + h, h) == 0
  {
    ValueZeros(b, s[t..t + h]);
    ValueZeros(b, s[t + h..t + h + h]);
  }

  lemma ZeroAt(b: nat, s: seq<nat>, t: nat, h: nat)
    requires Zeros(s, t, h)
    ensures ValueAt(b, s, t, h) == 0
  {
    ValueZeros(b, s[t..t + h]);
  }

  /** Steps 3 to 6 on a vanishing product only ever add and multiply zeros. */
  lemma InnerZeros(b: nat, s4: seq<nat>, s5: seq<nat>, s6: seq<nat>, s7: seq<nat>, s8: seq<nat>,
                   r: nat, n: nat, h: nat, t: nat, da: int, dc: int, sign: int)
    requires b > 1 && h == n / 2 && r + 2 * n <= |s4| && t + 4 * n <= |s4| && |s4| == |s5| == |s6| == |s7|
    requires Zeros(s4, r, 2 * n) && Zeros(s4, t, 2 * n) && Zeros(s7, r, 2 * n)
    requires Zeros(s4, t + n, n) ==> Zeros(s6, t + n, n)
    requires Zeros(s4, t + h, h) ==> Zeros(s5, t + h, h)
    requires ValueAt(b, s6, t, h) == ValueAt(b, s5, t, h)
    requires if da == 0 then s5 == s4 else ValueAt(b, s5, t, h) == Abs(da)
    requires if dc == 0 then s6 == s5 else ValueAt(b, s6, t + h, h) == Abs(dc)
    requires Vanishes(b, h, Abs(da), Abs(dc))
    requires Layout(|s4|, t + n, t, t + h, h, t + 2 * n) && Multiplied(b, s6, s7, t + n, t, t + h, h, t + 2 * n)
    requires SignedMove(b, s7, s8, r, n, h, t + n, sign)
    ensures Zeros(s8, r, 2 * n)
  {
    hide Value, Pow, MovedBy, ValueAt, IsProduct, Vanishes, IsLimbs;
    ZeroParts(b, s4, t, n, h);
    ZeroAt(b, s5, t + h, h);
    assert ValueAt(b, s6, t, h) == Abs(da) && ValueAt(b, s6, t + h, h) == Abs(dc);
    assert Zeros(s7, t + n, n);
    if sign != 0 {
      ZeroMoved(b, s7, s8, r, n, h, t + n, sign);
    }
  }

  lemma InnerCompose(b: nat, s: seq<nat>, s4: seq<nat>, s5: seq<nat>, s6: seq<nat>, s7: seq<nat>, s8: seq<nat>,
                     r: nat, a: nat, c: nat, n: nat, h: nat, t: nat, sa: int, sc: int)
    requires b > 1 && n > 48 && h == n / 2 && Layout(|s|, r, a, c, n, t) && IsLimbs(b, s)
    requires |s| == |s4| == |s5| == |s6| == |s7| == |s8|
    requires OuterSummed(b, s, s4, r, a, c, n, h, t)
    requires DifferenceAt(b, s4, s5, t, a + h, a, h) && DifferenceAt(b, s5, s6, t + h, c, c + h, h)
    requires sa == Sign(ValueAt(b, s4, a + h, h) - ValueAt(b, s4, a, h))
    requires sc == Sign(ValueAt(b, s5, c, h) - ValueAt(b, s5, c + h, h))
    requires Layout(|s|, t + n, t, t + h, h, t + 2 * n) && Multiplied(b, s6, s7, t + n, t, t + h, h, t + 2 * n)
    requires SignedMove(b, s7, s8, r, n, h, t + n, sa * sc)
    ensures Multiplied(b, s, s8, r, a, c, n, t)
  {
    hide Value, Pow, MovedBy, IsOuterSum, ValueAt, Sign, Abs, IsProduct, SameOutside, Zeros, Vanishes, IsLimbs;
    InnerRanges(b, s, s4, s5, s6, s7, r, a, c, n, h, t);
    InnerOutside(s, s4, s5, s6, s7, s8, r, n, h, t);
    if HalvesEvenly(n) {
      InnerValues(b, s, n, h, a, c, ValueAt(b, s7, r, 2 * n), ValueAt(b, s8, r, 2 * n), ValueAt(b, s6, t, h), ValueAt(b, s6, t + h, h),
                  ValueAt(b, s7, t + n, n), sa * sc);
    }
    if Zeros(s, r, 2 * n) && Vanishes(b, n, ValueAt(b, s, a, n), ValueAt(b, s, c, n)) {
      VanishAt(b, s, a, c, n, h);
      InnerZeros(b, s4, s5, s6, s7, s8, r, n, h, t, ValueAt(b, s, a + h, h) - ValueAt(b, s, a, h),
                 ValueAt(b, s, c, h) - ValueAt(b, s, c + h, h), sa * sc);
    }
  }

  lemma ProductOf(v: nat, x: nat, y: nat)
    requires v == x * y
    ensures IsProduct(v, x, y)
  {
  }

  lemma JoinHalves(b: nat, s: seq<nat>, x: nat, n: nat, h: nat)
    requires n == 2 * h && x + n <= |s|
    ensures ValueAt(b, s, x, n) == ValueAt(b, s, x, h) + Pow(b, h) * ValueAt(b, s, x + h, h)
  {
    assert s[x..x + n] == s[x..x + h] + s[x + h..x + h + h];
    ValueConcat(b, s[x..x + h], s[x + h..x + h + h]);
  }

  /** `eval_multiply_kara_n_by_n_to_2n` over one memory: the operands stand at
      `a` and `c`, the product goes to r[0..2n), and t[0..4n) is the scratch
      space. Below the cut-off of 48 limbs the schoolbook code is used. */
  method KaratsubaMultiply(b: nat, m: array<nat>, r: nat, a: nat, c: nat, n: nat, t: nat)
    requires b > 1 && Layout(m.Length, r, a, c, n, t) && IsLimbs(b, m[..])
    modifies m
    ensures Multiplied(b, old(m[..]), m[..], r, a, c, n, t)
    decreases n, 2
  {
    hide Value, Pow, Multiplied, HalvesMultiplied;
    ghost var s := m[..];
    if n <= 48 {
      Schoolbook(b, m, r, a, c, n, t);
    } else {
      var h := n / 2;
      OuterProducts(b, m, r, a, c, n, h, t);
      InnerProduct(b, m, r, a, c, n, h, t, s);
    }
  }

  /** At or below the cut-off the schoolbook product does the work. */
  method Schoolbook(b: nat, m: array<nat>, r: nat, a: nat, c: nat, n: nat, t: nat)
    requires b > 1 && n <= 48 && Layout(m.Length, r, a, c, n, t) && IsLimbs(b, m[..])
    modifies m
    ensures Multiplied(b, old(m[..]), m[..], r, a, c, n, t)
  {
    hide Value, Pow, Vanishes;
    ghost var s := m[..];
    assert s[a..a + n] == m[a..a + n] && s[c..c + n] == m[c..c + n];
    MultiplyFull(b, m, r, m, a, m, c, n);
    ghost var s' := m[..];
    assert s'[r..r + 2 * n] == m[r..r + 2 * n];
    SmallMultiplied(b, s, s', r, a, c, n, t);
  }

  lemma SmallMultiplied(b: nat, s: seq<nat>, s': seq<nat>, r: nat, a: nat, c: nat, n: nat, t: nat)
    requires b > 1 && n <= 48 && Layout(|s|, r, a, c, n, t) && |s'| == |s| && IsLimbs(b, s) && IsLimbs(b, s'[r..r + 2 * n])
    requires ValueAt(b, s', r, 2 * n) == ValueAt(b, s, a, n) * ValueAt(b, s, c, n)
    requires forall k :: 0 <= k < |s| && !(r <= k < r + 2 * n) ==> s'[k] == s[k]
    ensures Multiplied(b, s, s', r, a, c, n, t)
  {
    hide Value, Pow, Vanishes;
    forall k | 0 <= k < |s'| ensures s'[k] < b {
      assert r <= k < r + 2 * n ==> s'[k] == s'[r..r + 2 * n][k - r];
    }
    if Vanishes(b, n, ValueAt(b, s, a, n), ValueAt(b, s, c, n)) {
      VanishSmall(b, n, ValueAt(b, s, a, n), ValueAt(b, s, c, n));
      ZeroValue(b, s'[r..r + 2 * n]);
      assert forall k :: r <= k < r + 2 * n ==> s'[k] == s'[r..r + 2 * n][k - r];
    }
  }

  lemma VanishSmall(b: nat, n: nat, x: nat, y: nat)
    requires n <= 48 && Vanishes(b, n, x, y)
    ensures x * y == 0
  {
  }

  /** Step 1: the upper and the lower half product, with t[0..2n) as scratch. */
  method HalfProducts(b: nat, m: array<nat>, r: nat, a: nat, c: nat, n: nat, h: nat, t: nat)
    requires b > 1 && n > 48 && h == n / 2 && Layout(m.Length, r, a, c, n, t) && IsLimbs(b, m[..])
    modifies m
    ensures HalvesMultiplied(b, old(m[..]), m[..], r, a, c, n, h, t)
    decreases n, 0
  {
    hide Value, Pow, HalvesMultiplied, IsProduct, Vanishes, ValueAt, SameOutside;
    LayoutOfHalves(m.Length, r, a, c, n, h, t);
    KaratsubaMultiply(b, m, r + n, a + h, c + h, h, t);
    ghost var s1 := m[..];
    KaratsubaMultiply(b, m, r, a, c, h, t);
    HalvesCompose(b, old(m[..]), s1, m[..], r, a, c, n, h, t);
  }

  /** Steps 1 and 2. */
  method OuterProducts(b: nat, m: array<nat>, r: nat, a: nat, c: nat, n: nat, h: nat, t: nat)
    requires b > 1 && n > 48 && h == n / 2 && Layout(m.Length, r, a, c, n, t) && IsLimbs(b, m[..])
    modifies m
    ensures OuterSummed(b, old(m[..]), m[..], r, a, c, n, h, t)
    decreases n, 1
  {
    hide Value, Pow, IsProduct, ValueAt, Vanishes, SameOutside, CopiedAt, MovedAt, OuterSummed;
    HalfProducts(b, m, r, a, c, n, h, t);
    ghost var s1 := m[..];
    CopyScratch(b, m, r, t, 2 * n, h);
    ghost var s2 := m[..];
    AddMiddleAt(b, m, r, n, h, t + n);
    ghost var s3 := m[..];
    AddMiddleAt(b, m, r, n, h, t);
    OuterCompose(b, old(m[..]), s1, s2, s3, m[..], r, a, c, n, h, t);
  }

  lemma MultipliedLimbs(b: nat, s: seq<nat>, s': seq<nat>, r: nat, a: nat, c: nat, n: nat, t: nat)
    requires Layout(|s|, r, a, c, n, t) && Multiplied(b, s, s', r, a, c, n, t)
    ensures IsLimbs(b, s') && |s'| == |s|
  {
  }

  method CopyScratch(b: nat, m: array<nat>, r: nat, t: nat, n: nat, ghost h: nat)
    requires r + n <= m.Length && t + n <= m.Length && Disjoint(r, n, t, n) && IsLimbs(b, m[..])
    modifies m
    ensures CopiedAt(old(m[..]), m[..], r, t, n) && IsLimbs(b, m[..])
  {
    ghost var s := m[..];
    CopyRange(m, r, m, t, n);
    assert m[..][t..t + n] == m[t..t + n] && s[r..r + n] == old(m[r..r + n]);
    CopyLimbs(b, s, m[..], r, t, n);
  }

  method AddMiddleAt(b: nat, m: array<nat>, r: nat, n: nat, h: nat, x: nat)
    requires b > 1 && h == n / 2 && r + 2 * n <= m.Length && x + n <= m.Length && Disjoint(r, 2 * n, x, n) && IsLimbs(b, m[..])
    modifies m
    ensures MovedAt(b, old(m[..]), m[..], r, n, h, x, 1) && IsLimbs(b, m[..])
  {
    hide Value, Pow, MovedBy;
    ghost var s := m[..];
    assert s[r..r + 2 * n] == m[r..r + 2 * n] && s[x..x + n] == m[x..x + n];
    AddMiddle(b, m, r, n, h, m, x);
    MovedLimbs(b, s, m, r, n);
  }

  method SubtractMiddleAt(b: nat, m: array<nat>, r: nat, n: nat, h: nat, x: nat)
    requires b > 1 && h == n / 2 && r + 2 * n <= m.Length && x + n <= m.Length && Disjoint(r, 2 * n, x, n) && IsLimbs(b, m[..])
    modifies m
    ensures MovedAt(b, old(m[..]), m[..], r, n, h, x, -1) && IsLimbs(b, m[..])
  {
    hide Value, Pow, MovedBy;
    ghost var s := m[..];
    assert s[r..r + 2 * n] == m[r..r + 2 * n] && s[x..x + n] == m[x..x + n];
    SubtractMiddle(b, m, r, n, h, m, x);
    MovedLimbs(b, s, m, r, n);
  }

  lemma MovedLimbs(b: nat, s: seq<nat>, m: array<nat>, r: nat, n: nat)
    requires m.Length == |s| && r + 2 * n <= |s| && IsLimbs(b, s) && IsLimbs(b, m[r..r + 2 * n])
    requires forall k :: 0 <= k < m.Length && !(r <= k < r + 2 * n) ==> m[k] == s[k]
    ensures m[..][r..r + 2 * n] == m[r..r + 2 * n]
    ensures IsLimbs(b, m[..]) && SameOutside(s, m[..], r, 2 * n, r, 0)
  {
    assert forall k :: r <= k < r + 2 * n ==> m[k] == m[r..r + 2 * n][k - r];
  }

  /** Steps 3 to 6, from the state that step 2 left. */
  method InnerProduct(b: nat, m: array<nat>, r: nat, a: nat, c: nat, n: nat, h: nat, t: nat, ghost s: seq<nat>)
    requires b > 1 && n > 48 && h == n / 2 && |s| == m.Length && Layout(|s|, r, a, c, n, t) && IsLimbs(b, s)
    requires OuterSummed(b, s, m[..], r, a, c, n, h, t)
    modifies m
    ensures Multiplied(b, s, m[..], r, a, c, n, t)
    decreases n, 1
  {
    hide Value, Pow, Multiplied, MovedAt, ValueAt, Sign;
    assert IsLimbs(b, m[..]);
    ghost var s4 := m[..];
    var sa := DifferenceInto(b, m, t, a + h, a, h);
    ghost var s5 := m[..];
    var sc := DifferenceInto(b, m, t + h, c, c + h, h);
    ghost var s6 := m[..];
    KaratsubaMultiply(b, m, t + n, t, t + h, h, t + 2 * n);
    ghost var s7 := m[..];
    MultipliedLimbs(b, s6, s7, t + n, t, t + h, h, t + 2 * n);
    SignCases(sa, sc);
    if sa * sc == 1 {
      AddMiddleAt(b, m, r, n, h, t + n);
    } else if sa * sc == -1 {
      SubtractMiddleAt(b, m, r, n, h, t + n);
    }
    InnerCompose(b, s, s4, s5, s6, s7, m[..], r, a, c, n, h, t, sa, sc);
  }

  lemma SignCases(x: int, y: int)
    requires -1 <= x <= 1 && -1 <= y <= 1
    ensures -1 <= x * y <= 1
  {
  }

  method DifferenceInto(b: nat, m: array<nat>, x: nat, u: nat, v: nat, n: nat) returns (sign: int)
    requires b > 1 && x + n <= m.Length && u + n <= m.Length && v + n <= m.Length && IsLimbs(b, m[..])
    requires Disjoint(x, n, u, n) && Disjoint(x, n, v, n)
    modifies m
    ensures DifferenceAt(b, old(m[..]), m[..], x, u, v, n)
    ensures sign == Sign(ValueAt(b, old(m[..]), u, n) - ValueAt(b, old(m[..]), v, n)) && -1 <= sign <= 1
  {
    hide Value, Pow;
    ghost var s := m[..];
    assert s[x..x + n] == m[x..x + n] && s[u..u + n] == m[u..u + n] && s[v..v + n] == m[v..v + n];
    sign := AbsoluteDifference(b, m, x, m, u, m, v, n);
    assert m[..][x..x + n] == m[x..x + n];
    assert forall k :: x <= k < x + n ==> m[k] == m[x..x + n][k - x];
  }

  /** The condition is exact: below an uneven split the computed result of
      b^LostLimb * 1 in cleared storage is 0. */
  lemma UnevenSplitLosesProduct(b: nat, s: seq<nat>, s': seq<nat>, r: nat, a: nat, c: nat, n: nat, t: nat)
    requires b > 1 && !HalvesEvenly(n) && Layout(|s|, r, a, c, n, t) && Multiplied(b, s, s', r, a, c, n, t)
    requires Zeros(s, r, 2 * n) && ValueAt(b, s, a, n) == Pow(b, LostLimb(n)) && ValueAt(b, s, c, n) == 1
    ensures ValueAt(b, s', r, 2 * n) == 0 != ValueAt(b, s, a, n) * ValueAt(b, s, c, n)
  {
    ValueZeros(b, s'[r..r + 2 * n]);
  }

  /** 252 limbs of 32 bits, the width 8064 = 63 * 2^7, split unevenly at 63. */
  lemma Width8064SplitsUnevenly()
    ensures !HalvesEvenly(252) && LostLimb(252) == 62
  {
    assert !HalvesEvenly(63);
    assert !HalvesEvenly(126) && LostLimb(126) == 62;
  }

  /** `eval_mul_unary`: u *= v modulo b^n, by the four-limb code, the schoolbook
      low half, or from 129 limbs on by Karatsuba in fresh storage. */
  method MultiplyUnary(b: nat, u: array<nat>, v: array<nat>)
    requires b >= 256 && u.Length == v.Length && u != v
    requires IsLimbs(b, u[..]) && IsLimbs(b, v[..])
    modifies u
    ensures IsLimbs(b, u[..])
    ensures u.Length < 129 || HalvesEvenly(u.Length) ==>
              Value(b, u[..]) == (old(Value(b, u[..])) * Value(b, v[..])) % Pow(b, u.Length)
    ensures u.Length >= 129 && Vanishes(b, u.Length, old(Value(b, u[..])), Value(b, v[..])) ==> Value(b, u[..]) == 0
  {
    hide Value, Pow, Vanishes;
    var n := u.Length;
    assert u[0..n] == u[..] && v[0..n] == v[..];
    if n < 129 {
      var result := new nat[n];
      if n == 4 {
        MultiplyLowFour(b, result, 0, u, 0, v, 0);
      } else {
        MultiplyLow(b, result, 0, u, 0, v, 0, n);
      }
      CopyRange(result, 0, u, 0, n);
    } else {
      KaratsubaUnary(b, u, v, n);
    }
    assert u[0..n] == u[..];
  }

  method KaratsubaUnary(b: nat, u: array<nat>, v: array<nat>, n: nat)
    requires b > 1 && n == u.Length == v.Length && u != v
    requires IsLimbs(b, u[0..n]) && IsLimbs(b, v[0..n])
    modifies u
    ensures IsLimbs(b, u[0..n])
    ensures HalvesEvenly(n) ==> Value(b, u[0..n]) == (old(Value(b, u[0..n])) * Value(b, v[0..n])) % Pow(b, n)
    ensures Vanishes(b, n, old(Value(b, u[0..n])), Value(b, v[0..n])) ==> Value(b, u[0..n]) == 0
  {
    hide Value, Pow, Multiplied, Vanishes;
    ghost var us, vs := u[0..n], v[0..n];
    var m := new nat[8 * n](_ => 0);
    CopyRange(u, 0, m, 0, n);
    CopyRange(v, 0, m, n, n);
    assert m[0..n] == us && m[n..2 * n] == vs;
    ghost var s := m[..];
    assert s[0..n] == us && s[n..2 * n] == vs;
    PackedLimbs(b, s, us, vs, n);
    KaratsubaMultiply(b, m, 2 * n, 0, n, n, 4 * n);
    CopyRange(m, 2 * n, u, 0, n);
    LowHalf(b, s, m[..], u[0..n], us, vs, n);
  }

  lemma PackedLimbs(b: nat, s: seq<nat>, us: seq<nat>, vs: seq<nat>, n: nat)
    requires b > 0 && |s| == 8 * n && s[0..n] == us && s[n..2 * n] == vs && IsLimbs(b, us) && IsLimbs(b, vs)
    requires forall k :: 2 * n <= k < 8 * n ==> s[k] == 0
    ensures IsLimbs(b, s)
  {
    assert s == us + vs + s[2 * n..];
    LimbsConcat(b, us, vs);
    LimbsConcat(b, us + vs, s[2 * n..]);
  }

  lemma LowResidue(v: nat, p: nat, q: nat, lo: nat, x: nat, y: nat)
    requires p > 0 && IsProduct(v, x, y) && v == lo + p * q && lo < p
    ensures lo == (x * y) % p
  {
    DivModUnique(v, p, q, lo);
  }

  lemma FullProduct(b: nat, s: seq<nat>, s': seq<nat>, full: seq<nat>, us: seq<nat>, vs: seq<nat>, n: nat)
    requires b > 1 && |s| == |s'| == 8 * n && Multiplied(b, s, s', 2 * n, 0, n, n, 4 * n)
    requires us == s[0..n] && vs == s[n..2 * n] && full == s'[2 * n..4 * n]
    ensures IsLimbs(b, full)
    ensures HalvesEvenly(n) ==> IsProduct(Value(b, full), Value(b, us), Value(b, vs))
    ensures Zeros(s, 2 * n, 2 * n) && Vanishes(b, n, Value(b, us), Value(b, vs)) ==> Value(b, full) == 0
  {
    hide Value, IsProduct, Vanishes, HalvesEvenly;
    assert s[0..0 + n] == us && s[n..n + n] == vs && s'[2 * n..2 * n + 2 * n] == full;
    if Zeros(s, 2 * n, 2 * n) && Vanishes(b, n, Value(b, us), Value(b, vs)) {
      ValueZeros(b, full);
    }
  }

  lemma LowHalf(b: nat, s: seq<nat>, s': seq<nat>, low: seq<nat>, us: seq<nat>, vs: seq<nat>, n: nat)
    requires b > 1 && |s| == |s'| == 8 * n && Multiplied(b, s, s', 2 * n, 0, n, n, 4 * n)
    requires us == s[0..n] && vs == s[n..2 * n] && low == s'[2 * n..3 * n]
    ensures IsLimbs(b, low)
    ensures Zeros(s, 2 * n, 2 * n) && Vanishes(b, n, Value(b, us), Value(b, vs)) ==> Value(b, low) == 0
    ensures HalvesEvenly(n) ==> Value(b, low) == (Value(b, us) * Value(b, vs)) % Pow(b, n)
  {
    hide Value, Pow, IsProduct, Vanishes, HalvesEvenly, Multiplied, Zeros;
    var high := s'[3 * n..4 * n];
    assert s'[2 * n..4 * n] == low + high;
    FullProduct(b, s, s', low + high, us, vs, n);
    LowPart(b, low, high);
    if HalvesEvenly(n) {
      LowResidue(Value(b, low + high), Pow(b, n), Value(b, high), Value(b, low), Value(b, us), Value(b, vs));
    }
  }

  lemma LowPart(b: nat, low: seq<nat>, high: seq<nat>)
    requires b > 1 && IsLimbs(b, low + high)
    ensures IsLimbs(b, low) && Value(b, low) < Pow(b, |low|)
    ensures Value(b, low + high) == Value(b, low) + Pow(b, |low|) * Value(b, high)
    ensures Value(b, low + high) == 0 ==> Value(b, low) == 0
  {
    hide Value, Pow;
    LimbsConcat(b, low, high);
    ValueConcat(b, low, high);
    ValueBound(b, low);
    NoneNegative(Pow(b, |low|), Value(b, high));
  }

  lemma NoneNegative(p: nat, q: nat)
    ensures 0 <= p * q
  {
  }
}
