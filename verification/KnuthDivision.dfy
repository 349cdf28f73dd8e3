/**
  `eval_divide_knuth`: long division of limb ranges by Knuth's Algorithm D
  (section 4.3.1 of The Art of Computer Programming, Volume 2), with the
  one-limb shortcut.
 */
module KnuthDivision {
  import opened Powers
  import opened Limbs
  import opened LimbArithmetic
  import opened Multiplication

  /** Step D3 before any correction. */
  function FirstEstimate(b: nat, u0: nat, u1: nat, v1: nat): nat
    requires v1 > 0 && b > 0
  {
    if u0 == v1 then b - 1 else (u0 * b + u1) / v1
  }

  /** The leading limbs `uj` = (u0 u1), `u2` do not reject `q` as too large. */
  ghost predicate NotRejected(b: nat, q: nat, uj: nat, u2: nat, v1: nat, v2: nat) {
    q * (v1 * b + v2) <= uj * b + u2
  }

  /** Any larger digit is impossible or rejected. */
  ghost predicate NotBelow(b: nat, q: nat, uj: nat, u2: nat, v1: nat, v2: nat) {
    q == b - 1 || (q + 1) * (v1 * b + v2) > uj * b + u2
  }

  lemma AboveLeading(b: nat, q: nat, uj: nat, u2: nat, v1: nat, v2: nat)
    requires q * v1 > uj && u2 < b
    ensures q * (v1 * b + v2) > uj * b + u2
  {
    MulMonotone(uj + 1, q * v1, b);
    assert q * (v1 * b + v2) == q * v1 * b + q * v2;
    assert q * v2 >= 0;
  }

  lemma LeadingDecides(b: nat, q: nat, uj: nat, u2: nat, v1: nat, v2: nat)
    requires q == b - 1 || ((q + 1) * v1 > uj && u2 < b)
    ensures NotBelow(b, q, uj, u2, v1, v2)
  {
    if q != b - 1 {
      AboveLeading(b, q + 1, uj, u2, v1, v2);
    }
  }

  lemma FirstEstimateBounds(b: nat, u0: nat, u1: nat, u2: nat, v1: nat, v2: nat)
    requires b > 1 && u0 <= v1 < b && u1 < b && u2 < b && v1 > 0
    ensures var q, uj := FirstEstimate(b, u0, u1, v1), u0 * b + u1;
            q < b && q * v1 <= uj && uj - q * v1 < 2 * b && NotBelow(b, q, uj, u2, v1, v2)
  {
    hide NotBelow, FirstEstimate;
    if u0 == v1 {
      LargestEstimate(b, u0, u1);
    } else {
      PlainEstimate(b, u0, u1, v1);
    }
    FirstEstimateCases(b, u0, u1, v1);
    LeadingDecides(b, FirstEstimate(b, u0, u1, v1), u0 * b + u1, u2, v1, v2);
  }

  lemma FirstEstimateCases(b: nat, u0: nat, u1: nat, v1: nat)
    requires b > 0 && v1 > 0
    ensures FirstEstimate(b, u0, u1, v1) == if u0 == v1 then b - 1 else (u0 * b + u1) / v1
  {
  }

  lemma LargestEstimate(b: nat, v1: nat, u1: nat)
    requires 0 < v1 < b && u1 < b
    ensures (b - 1) * v1 <= v1 * b + u1 && v1 * b + u1 - (b - 1) * v1 < 2 * b
  {
    assert (b - 1) * v1 == v1 * b - v1;
  }

  lemma PlainEstimate(b: nat, u0: nat, u1: nat, v1: nat)
    requires u0 < v1 < b && u1 < b
    ensures var x := u0 * b + u1; var q := x / v1; q < b && q * v1 <= x < q * v1 + b && x < (q + 1) * v1
  {
    var x := u0 * b + u1;
    MulMonotone(u0 + 1, v1, b);
    QuotientFits(b, v1, x);
    assert (x / v1 + 1) * v1 == x / v1 * v1 + v1;
  }

  /** Step D3: the estimate from the leading limbs and its correction loop,
      which runs at most twice on a normalised divisor. */
  method EstimateQuotient(b: nat, u0: nat, u1: nat, u2: nat, v1: nat, v2: nat) returns (q: nat)
    requires b > 1 && u0 <= v1 < b && u1 < b && u2 < b && v2 < b && b <= 2 * v1
    ensures q < b && NotRejected(b, q, u0 * b + u1, u2, v1, v2) && NotBelow(b, q, u0 * b + u1, u2, v1, v2)
    ensures FirstEstimate(b, u0, u1, v1) <= q + 2
  {
    hide NotRejected, NotBelow, Hi;
    FirstEstimateBounds(b, u0, u1, u2, v1, v2);
    var uj := u0 * b + u1;
    q := if u0 == v1 then b - 1 else uj / v1;
    ghost var first, steps: nat := q, 0;
    var t: nat := uj - q * v1;
    while !(Hi(b, t) != 0 || v2 * q <= t * b + u2)
      invariant q < b && q * v1 + t == uj && t < 2 * b
      invariant steps + q == first && steps <= 2 && (steps > 0 ==> t >= v1) && (steps == 2 ==> t >= b)
      invariant NotBelow(b, q, uj, u2, v1, v2)
      decreases q
    {
      SmallDouble(b, t);
      Rejected(b, q, uj, u2, v1, v2, t);
      q, t, steps := q - 1, t + v1, steps + 1;
    }
    SmallDouble(b, t);
    Accepted(b, q, uj, u2, v1, v2, t);
  }

  lemma SmallDouble(b: nat, t: nat)
    requires b > 1
    ensures Hi(b, t) != 0 <==> t >= b
  {
    if t < b {
      DivModUnique(t, b, 0, t);
    }
  }

  lemma Rejected(b: nat, q: nat, uj: nat, u2: nat, v1: nat, v2: nat, t: nat)
    requires q * v1 + t == uj && v2 * q > t * b + u2
    ensures q > 0 && NotBelow(b, q - 1, uj, u2, v1, v2) && (q - 1) * v1 + (t + v1) == uj
  {
    assert t * b == uj * b - q * (v1 * b);
    assert q * (v1 * b + v2) == q * (v1 * b) + v2 * q;
  }

  lemma Accepted(b: nat, q: nat, uj: nat, u2: nat, v1: nat, v2: nat, t: nat)
    requires b > 0 && q < b && v2 < b && q * v1 + t == uj && (t >= b || v2 * q <= t * b + u2)
    ensures NotRejected(b, q, uj, u2, v1, v2)
  {
    assert uj * b == q * v1 * b + t * b;
    assert q * (v1 * b + v2) == q * v1 * b + v2 * q;
    if t >= b {
      LowProduct(b, q, v2, t);
    }
  }

  lemma LowProduct(b: nat, q: nat, v2: nat, t: nat)
    requires q < b && v2 < b <= t
    ensures v2 * q <= t * b
  {
    MulMonotone(q, b, v2);
    MulMonotone(v2, t, b);
  }

  /** The estimate is the digit or one more. `p` is the weight b^(n-2) of the
      third leading limb; `w` is the window of the numerator, `v` the divisor. */
  lemma EstimateBounds(b: nat, p: nat, q: nat, uj: nat, u2: nat, wl: nat, v1: nat, v2: nat, vl: nat, w: nat, v: nat)
    requires b > 1 && wl < p && vl < p && v1 > 0 && q < b
    requires w == (uj * b + u2) * p + wl && v == (v1 * b + v2) * p + vl && w < b * v
    requires NotRejected(b, q, uj, u2, v1, v2) && NotBelow(b, q, uj, u2, v1, v2)
    ensures w < (q + 1) * v
    ensures q > 0 ==> (q - 1) * v <= w
  {
    var x, y := v1 * b + v2, uj * b + u2;
    MulMonotone(1, v1, b);
    if q != b - 1 {
      NotSmall(p, q, x, y, wl, vl);
    }
    if q > 0 {
      NotLarge(b, p, q, x, y, wl, vl);
    }
  }

  lemma NotSmall(p: nat, q: nat, x: nat, y: nat, wl: nat, vl: nat)
    requires wl < p && (q + 1) * x > y
    ensures y * p + wl < (q + 1) * (x * p + vl)
  {
    MulMonotone(y + 1, (q + 1) * x, p);
    assert (q + 1) * (x * p + vl) == (q + 1) * x * p + (q + 1) * vl;
    assert (q + 1) * vl >= 0;
  }

  lemma NotLarge(b: nat, p: nat, q: nat, x: nat, y: nat, wl: nat, vl: nat)
    requires vl < p && 0 < q < b <= x && q * x <= y
    ensures (q - 1) * (x * p + vl) <= y * p + wl
  {
    MulMonotone(q * x, y, p);
    assert (q - 1) * (x * p + vl) == q * x * p - x * p + (q - 1) * vl;
    MulMonotone(q - 1, b, vl);
    MulMonotone(vl, p, b);
    MulMonotone(b, x, p);
  }

  /** The two leading limbs of a range, split off its value. */
  lemma LeadingTwo(b: nat, s: seq<nat>, n: nat)
    requires |s| == n >= 2
    ensures Value(b, s) == (s[n - 1] * b + s[n - 2]) * Pow(b, n - 2) + Value(b, s[..n - 2])
  {
    var p := Pow(b, n - 2);
    assert s[..n - 1][..n - 2] == s[..n - 2];
    assert Value(b, s[..n - 1]) == Value(b, s[..n - 2]) + s[n - 2] * p;
    assert Value(b, s) == Value(b, s[..n - 1]) + s[n - 1] * (p * b);
  }

  lemma LeadingThree(b: nat, s: seq<nat>, n: nat)
    requires |s| == n + 1 >= 3
    ensures Value(b, s) == ((s[n] * b + s[n - 1]) * b + s[n - 2]) * Pow(b, n - 2) + Value(b, s[..n - 2])
  {
    var p := Pow(b, n - 2);
    LeadingTwo(b, s, n + 1);
    assert s[..n - 1][..n - 2] == s[..n - 2];
    assert Value(b, s[..n - 1]) == Value(b, s[..n - 2]) + s[n - 2] * p;
    ThreeLimbs(s[n] * b + s[n - 1], b, p, s[n - 2]);
  }

  lemma ThreeLimbs(x: int, b: int, p: int, y: int)
    ensures x * (p * b) + y * p == (x * b + y) * p
  {
  }

  lemma LeadingOrder(b: nat, s: seq<nat>, t: seq<nat>, n: nat)
    requires b > 0 && |s| == |t| == n > 0 && IsLimbs(b, s) && IsLimbs(b, t) && Value(b, s) < Value(b, t)
    ensures s[n - 1] <= t[n - 1]
  {
    hide Value, Pow;
    var s', t' := s[..n - 1], t[..n - 1];
    assert s == s' + [s[n - 1]] && t == t' + [t[n - 1]];
    ValueSnoc(b, s', s[n - 1]);
    ValueSnoc(b, t', t[n - 1]);
    ValueBound(b, t');
    OrderOfTops(Pow(b, n - 1), Value(b, s'), s[n - 1], Value(b, t'), t[n - 1]);
  }

  lemma OrderOfTops(p: nat, x: nat, s: nat, y: nat, t: nat)
    requires y < p && x + s * p < y + t * p
    ensures s <= t
  {
    if s > t {
      MulMonotone(t + 1, s, p);
    }
  }

  lemma WindowBelow(b: nat, s: seq<nat>, v: nat)
    requires b > 0 && |s| > 0 && IsLimbs(b, s) && Value(b, s[1..]) < v
    ensures Value(b, s) < b * v
  {
    hide Value, Pow;
    ValueHead(b, s);
    MulMonotone(Value(b, s[1..]) + 1, v, b);
  }

  /** D4 and D5 without a borrow: the window holds the remainder. */
  lemma NoBorrow(b: nat, n: nat, low: seq<nat>, top: nat, w: nat, q: nat, v: nat)
    requires b > 0 && |low| == n && v < Pow(b, n)
    requires Value(b, low + [top]) + q * v == w && w < (q + 1) * v
    ensures Value(b, low) + q * v == w && Value(b, low) < v
  {
    hide Value, Pow;
    ValueSnoc(b, low, top);
    assert (q + 1) * v == q * v + v;
    if top > 0 {
      MulMonotone(1, top, Pow(b, n));
    }
    assert top == 0;
  }

  /** D6: adding the divisor back on n limbs is enough; the limb above is left
      as it is and not read again. */
  lemma AddBack(b: nat, n: nat, low: seq<nat>, top: nat, low': seq<nat>, c: nat, w: nat, q: nat, v: nat)
    requires b > 0 && |low| == |low'| == n && v < Pow(b, n) && IsLimbs(b, low')
    requires Value(b, low + [top]) + q * v == w + Pow(b, n + 1) && Value(b, low + [top]) < Pow(b, n + 1)
    requires q > 0 ==> (q - 1) * v <= w
    requires Value(b, low') + c * Pow(b, n) == Value(b, low) + v
    ensures q > 0 && Value(b, low') + (q - 1) * v == w && Value(b, low') < v
  {
    hide Value, Pow;
    var p := Pow(b, n);
    ValueSnoc(b, low, top);
    ValueBound(b, low');
    assert Pow(b, n + 1) == p * b by { PowAdd(b, n, 1); assert Pow(b, 1) == b by { SmallPowers(b); } }
    assert q * v > w;
    assert q > 0;
    assert (q - 1) * v == q * v - v;
    var r := w - (q - 1) * v;
    assert 0 <= r < v;
    assert Value(b, low') == r + p * b - top * p - c * p;
    assert Value(b, low') == (b - top - c) * p + r;
    DivModUnique(Value(b, low'), p, b - top - c, r);
    DivModUnique(Value(b, low'), p, 0, Value(b, low'));
  }

  /** One pass of steps D3 to D6: divides the window uu[lo..lo+n] by `vv`,
      leaving the remainder in its low n limbs. */
  method DivideDigit(b: nat, uu: array<nat>, lo: nat, vv: array<nat>, n: nat) returns (q: nat)
    requires b > 1 && n >= 2 && lo + n < uu.Length && n <= vv.Length && uu != vv
    requires IsLimbs(b, uu[lo..lo + n + 1]) && IsLimbs(b, vv[..n])
    requires b <= 2 * vv[n - 1]
    requires Value(b, uu[lo + 1..lo + n + 1]) < Value(b, vv[..n])
    modifies uu
    ensures q < b && IsLimbs(b, uu[lo..lo + n])
    ensures Value(b, uu[lo..lo + n]) + q * Value(b, vv[..n]) == old(Value(b, uu[lo..lo + n + 1]))
    ensures Value(b, uu[lo..lo + n]) < Value(b, vv[..n])
    ensures forall k :: 0 <= k < uu.Length && !(lo <= k <= lo + n) ==> uu[k] == old(uu[k])
  {
    hide Value, Pow, NotRejected, NotBelow;
    ghost var ws, vs := uu[lo..lo + n + 1], vv[..n];
    ghost var w, v := Value(b, ws), Value(b, vs);
    assert ws[1..] == uu[lo + 1..lo + n + 1] && vv[0..n] == vs;
    WindowFacts(b, n, ws, vs);
    q := EstimateQuotient(b, uu[lo + n], uu[lo + n - 1], uu[lo + n - 2], vv[n - 1], vv[n - 2]);
    EstimateBounds(b, Pow(b, n - 2), q, ws[n] * b + ws[n - 1], ws[n - 2], Value(b, ws[..n - 2]), vs[n - 1], vs[n - 2],
                   Value(b, vs[..n - 2]), w, v);
    var nv := new nat[n + 1];
    var carry := MultiplyByLimb(b, nv, 0, vv, 0, q, n);
    nv[n] := carry;
    ghost var qs := nv[0..n];
    assert nv[0..n + 1] == qs + [carry];
    ValueSnoc(b, qs, carry);
    var borrow := SubtractN(b, uu, lo, uu, lo, nv, 0, n + 1, false);
    ghost var low, top := uu[lo..lo + n], uu[lo + n];
    assert uu[lo..lo + n + 1] == low + [top];
    ValueBound(b, low + [top]);
    LimbsConcat(b, low, [top]);
    if borrow {
      assert vv[0..n] == vs;
      var c := AddN(b, uu, lo, uu, lo, vv, 0, n, 0);
      AddBack(b, n, low, top, uu[lo..lo + n], c, w, q, v);
      q := q - 1;
    } else {
      NoBorrow(b, n, low, top, w, q, v);
    }
    assert vv[..n] == vs;
  }

  lemma WindowFacts(b: nat, n: nat, ws: seq<nat>, vs: seq<nat>)
    requires b > 1 && n >= 2 && |ws| == n + 1 && |vs| == n && IsLimbs(b, ws) && IsLimbs(b, vs)
    requires Value(b, ws[1..]) < Value(b, vs)
    ensures ws[n] <= vs[n - 1]
    ensures Value(b, ws) == ((ws[n] * b + ws[n - 1]) * b + ws[n - 2]) * Pow(b, n - 2) + Value(b, ws[..n - 2])
    ensures Value(b, vs) == (vs[n - 1] * b + vs[n - 2]) * Pow(b, n - 2) + Value(b, vs[..n - 2])
    ensures Value(b, ws[..n - 2]) < Pow(b, n - 2) && Value(b, vs[..n - 2]) < Pow(b, n - 2)
    ensures Value(b, ws) < b * Value(b, vs) && Value(b, vs) < Pow(b, n)
  {
    hide Value, Pow;
    LeadingOrder(b, ws[1..], vs, n);
    LeadingThree(b, ws, n);
    LeadingTwo(b, vs, n);
    ValueBound(b, ws[..n - 2]);
    ValueBound(b, vs[..n - 2]);
    ValueBound(b, vs);
    WindowBelow(b, ws, Value(b, vs));
  }

  lemma ShortDivisionStep(b: nat, d: nat, x: nat, r: nat, q: nat, r': nat, hi: nat, hq: nat)
    requires d > 0 && hi == d * hq + r && x + r * b == d * q + r'
    ensures x + b * hi == d * (q + b * hq) + r'
  {
    assert b * hi == d * (b * hq) + r * b;
  }

  lemma ShortDigit(b: nat, d: nat, x: nat, r: nat) returns (rest: nat)
    requires 0 < d < b && x < b && r < d
    ensures var t := x + r * b; t < b * b && t / d < b && t == d * (t / d) + rest && rest < d && rest == t % d
  {
    var t := x + r * b;
    MulMonotone(r + 1, d, b);
    MulMonotone(d, b, b);
    assert t < d * b;
    QuotientFits(b, d, t);
    rest := t % d;
  }

  lemma QuotientFits(b: nat, d: nat, t: nat)
    requires d > 0 && t < d * b
    ensures t / d < b && t == d * (t / d) + t % d
  {
    var q := t / d;
    assert t == d * q + t % d;
    if q >= b {
      MulMonotone(b, q, d);
    }
  }

  /** `eval_divide_by_single_limb`: values /= d over the low `n` limbs, most
      significant first; the remainder is recomputed from the last step. */
  method DivideByLimb(b: nat, values: array<nat>, n: nat, d: nat) returns (remainder: nat)
    requires 0 < d < b && 0 < n <= values.Length && IsLimbs(b, values[..n])
    modifies values
    ensures IsLimbs(b, values[..n])
    ensures old(Value(b, values[..n])) == d * Value(b, values[..n]) + remainder && remainder < d
    ensures forall k :: n <= k < values.Length ==> values[k] == old(values[k])
  {
    hide Value, Pow, Left;
    ghost var us := values[..n];
    var longNumerator: nat, hiPart: nat := 0, 0;
    NothingLeft(d);
    var k := n;
    ghost var done: seq<nat>, rem: nat := [], 0;
    ValueEmpty(b);
    assert us[n..] == [];
    while k > 0
      invariant 0 <= k <= n && |done| == n - k && IsLimbs(b, done)
      invariant forall i :: 0 <= i < k ==> values[i] == us[i]
      invariant forall i :: k <= i < n ==> values[i] == done[i - k]
      invariant forall i :: n <= i < values.Length ==> values[i] == old(values[i])
      invariant Left(d, longNumerator, hiPart, rem)
      invariant Value(b, us[k..]) == d * Value(b, done) + rem
    {
      k := k - 1;
      ghost var rem';
      longNumerator, hiPart, rem' := ShortStep(b, d, values[k], longNumerator, hiPart, rem);
      values[k] := hiPart;
      assert us[k..][1..] == us[k + 1..];
      ShortValue(b, d, us[k..], done, rem, hiPart, rem');
      done, rem := [hiPart] + done, rem';
    }
    assert us[0..] == us && values[..n] == done;
    remainder := LastRemainder(b, d, values[0], longNumerator, hiPart, rem);
  }

  /** What the last step left over: long_numerator - d * hi_part. */
  ghost predicate Left(d: nat, longNumerator: nat, hiPart: nat, rem: nat) {
    longNumerator == d * hiPart + rem && rem < d
  }

  lemma NothingLeft(d: nat)
    requires d > 0
    ensures Left(d, 0, 0, 0)
  {
  }

  /** One digit: the low limb of the double-limb quotient is all of it. */
  method ShortStep(b: nat, d: nat, x: nat, longNumerator: nat, hiPart: nat, ghost rem: nat)
    returns (next: nat, q: nat, ghost rem': nat)
    requires 0 < d < b && x < b && Left(d, longNumerator, hiPart, rem)
    ensures q < b && x + rem * b == d * q + rem' && Left(d, next, q, rem')
  {
    rem' := ShortDigit(b, d, x, rem);
    next := x + (longNumerator - d * hiPart) * b;
    DivModUnique(next / d, b, 0, next / d);
    q := Lo(b, next / d);
  }

  method LastRemainder(b: nat, d: nat, x: nat, longNumerator: nat, hiPart: nat, ghost rem: nat) returns (r: nat)
    requires 0 < d < b && x < b && Left(d, longNumerator, hiPart, rem)
    ensures r == rem < d
  {
    ShortRemainder(b, d, x, rem);
    r := Hi(b, x + (longNumerator - d * hiPart) * b);
  }

  lemma ShortValue(b: nat, d: nat, s: seq<nat>, done: seq<nat>, r: nat, q: nat, r': nat)
    requires 0 < d && |s| > 0 && s[0] + r * b == d * q + r'
    requires Value(b, s[1..]) == d * Value(b, done) + r
    ensures Value(b, s) == d * Value(b, [q] + done) + r'
  {
    hide Value, Pow;
    ValueHead(b, s);
    ValueHead(b, [q] + done);
    assert ([q] + done)[1..] == done;
    ShortDivisionStep(b, d, s[0], r, q, r', Value(b, s[1..]), Value(b, done));
  }

  lemma ShortRemainder(b: nat, d: nat, x: nat, r: nat)
    requires x < b
    ensures Hi(b, x + r * b) == r
  {
    DivModUnique(x + r * b, b, r, x);
  }

  /** De-normalising the remainder: dst = src / d over n limbs. */
  method Denormalise(b: nat, dst: array<nat>, src: array<nat>, n: nat, d: nat)
    requires 0 < d < b && n <= dst.Length && n <= src.Length && dst != src && IsLimbs(b, src[..n])
    modifies dst
    ensures IsLimbs(b, dst[..n]) && d * Value(b, dst[..n]) <= Value(b, src[..n]) < d * Value(b, dst[..n]) + d
    ensures forall k :: n <= k < dst.Length ==> dst[k] == old(dst[k])
  {
    hide Value, Pow;
    ghost var us := src[..n];
    var previous: nat := 0;
    var k := n;
    ghost var done: seq<nat> := [];
    ValueEmpty(b);
    assert us[n..] == [];
    while k > 0
      invariant 0 <= k <= n && |done| == n - k && IsLimbs(b, done) && previous < d
      invariant forall i :: k <= i < n ==> dst[i] == done[i - k]
      invariant forall i :: n <= i < dst.Length ==> dst[i] == old(dst[i])
      invariant Value(b, us[k..]) == d * Value(b, done) + previous
    {
      k := k - 1;
      ghost var rest := ShortDigit(b, d, us[k], previous);
      var t := src[k] + previous * b;
      dst[k] := t / d;
      ghost var digit := t / d;
      assert us[k..][1..] == us[k + 1..];
      ShortValue(b, d, us[k..], done, previous, digit, rest);
      previous := t - d * dst[k];
      done := [digit] + done;
    }
    assert us[0..] == us && dst[..n] == done;
  }

  /** Step D7 for one digit: window, digits found so far and divisor. */
  lemma DigitFound(b: nat, k: nat, low: seq<nat>, window: seq<nat>, window': seq<nat>, q: nat, done: seq<nat>, v: nat, u: nat)
    requires k == |low|
    requires Value(b, window') + q * v == Value(b, window)
    requires Accounted(b, k + 1, low + window, done, v, u)
    ensures Accounted(b, k, low + window', [q] + done, v, u)
  {
    hide Value, Pow;
    ValueConcat(b, low, window);
    ValueConcat(b, low, window');
    ValueHead(b, [q] + done);
    assert ([q] + done)[1..] == done;
    PowAdd(b, k, 1);
    SmallPowers(b);
    DigitFoundAlgebra(Pow(b, k), b, Value(b, window), Value(b, window'), q, v, Value(b, done));
  }

  lemma DigitFoundAlgebra(p: int, b: int, w: int, w': int, q: int, v: int, d: int)
    requires w' + q * v == w
    ensures p * w + v * ((p * b) * d) == p * w' + v * (p * (q + b * d))
  {
    assert p * w == p * w' + p * (q * v);
    assert p * (q * v) == v * (p * q);
    assert (p * b) * d == p * (b * d);
    assert v * (p * (q + b * d)) == v * (p * q) + v * (p * (b * d));
  }

  /** Steps D2 to D7: one digit of the quotient per pass, most significant first. */
  method DivideDigits(b: nat, values: array<nat>, uu: array<nat>, vv: array<nat>, n: nat, m: nat)
    requires b > 1 && n >= 2 && m < values.Length && m + n < uu.Length && n <= vv.Length
    requires values != uu && uu != vv && vv != values
    requires IsLimbs(b, uu[..m + n + 1]) && IsLimbs(b, vv[..n]) && b <= 2 * vv[n - 1]
    requires Value(b, uu[m + 1..m + n + 1]) < Value(b, vv[..n])
    modifies values, uu
    ensures IsLimbs(b, values[..m + 1]) && IsLimbs(b, uu[..n])
    ensures Value(b, uu[..n]) + Value(b, vv[..n]) * Value(b, values[..m + 1]) == old(Value(b, uu[..m + n + 1]))
    ensures Value(b, uu[..n]) < Value(b, vv[..n])
    ensures forall i :: m < i < values.Length ==> values[i] == old(values[i])
  {
    hide Value, Pow, Accounted;
    ghost var vs, v, u := vv[..n], Value(b, vv[..n]), Value(b, uu[..m + n + 1]);
    ghost var done: seq<nat> := [];
    NothingDivided(b, m + 1, uu[..m + n + 1], v);
    var k := m + 1;
    while k > 0
      invariant 0 <= k <= m + 1 && |done| == m + 1 - k && IsLimbs(b, done)
      invariant vv[..n] == vs && IsLimbs(b, uu[..k + n])
      invariant forall i :: k <= i < m + 1 ==> values[i] == done[i - k]
      invariant forall i :: m < i < values.Length ==> values[i] == old(values[i])
      invariant Accounted(b, k, uu[..k + n], done, v, u)
      invariant Value(b, uu[k..k + n]) < v
    {
      k := k - 1;
      ghost var low, window := uu[..k], uu[k..k + n + 1];
      assert uu[..k + n + 1] == low + window;
      LimbsConcat(b, low, window);
      var q := DivideDigit(b, uu, k, vv, n);
      assert uu[..k + n] == low + uu[k..k + n];
      LimbsConcat(b, low, uu[k..k + n]);
      DigitFound(b, k, low, window, uu[k..k + n], q, done, v, u);
      values[k] := q;
      done := [q] + done;
    }
    assert uu[0..n] == uu[..n] && values[..m + 1] == done;
    AllDivided(b, uu[..n], done, v, u);
  }

  /** The numerator `u` is what is left plus the divisor times the digits found,
      which stand at weight b^k. */
  ghost predicate Accounted(b: nat, k: nat, left: seq<nat>, done: seq<nat>, v: nat, u: nat) {
    Value(b, left) + v * (Pow(b, k) * Value(b, done)) == u
  }

  lemma NothingDivided(b: nat, k: nat, s: seq<nat>, v: nat)
    ensures Accounted(b, k, s, [], v, Value(b, s))
  {
    ValueEmpty(b);
  }

  lemma AllDivided(b: nat, left: seq<nat>, done: seq<nat>, v: nat, u: nat)
    requires Accounted(b, 0, left, done, v, u)
    ensures Value(b, left) + v * Value(b, done) == u
  {
    hide Value;
    assert Pow(b, 0) * Value(b, done) == Value(b, done);
  }

  /** The normalisation factor of step D1 for a leading divisor limb `x`. */
  function Normaliser(b: nat, x: nat): (d: nat)
    requires b > 0
  {
    b / (x + 1)
  }

  lemma NormaliserBounds(b: nat, x: nat)
    requires b > 1 && 0 < x < b
    ensures var d := Normaliser(b, x); 0 < d < b && d * (x + 1) <= b < d * (x + 1) + x + 1
  {
    var d, r := b / (x + 1), b % (x + 1);
    assert b == d * (x + 1) + r;
    MulMonotone(2, x + 1, d);
  }

  /** The scaled divisor stays on n limbs and its leading limb reaches b/2. */
  lemma NormalisedDivisor(b: nat, p: nat, x: nat, low: nat, d: nat, y: nat, low': nat)
    requires b % 2 == 0 && 0 < x < b && low < p && low' < p && d == Normaliser(b, x) && b > 1
    requires y * p + low' == d * (x * p + low)
    ensures b <= 2 * y
  {
    NormaliserBounds(b, x);
    ScaledSum(d, x, p, low);
    TopAtLeast(p, y, low', d * x, d * low);
    HalfReached(b, x, d, d * x);
  }

  lemma ScaledSum(d: int, x: int, p: int, low: int)
    ensures d * (x * p + low) == (d * x) * p + d * low
  {
  }

  lemma TopAtLeast(p: nat, y: nat, low: nat, z: nat, rest: nat)
    requires low < p && y * p + low == z * p + rest
    ensures z <= y
  {
    if y < z {
      MulMonotone(y + 1, z, p);
    }
  }

  lemma HalfReached(b: nat, x: nat, d: nat, dx: nat)
    requires b % 2 == 0 && x > 0 && d > 0 && dx == d * x
    requires dx + d <= b < dx + d + x + 1
    ensures b <= 2 * dx
  {
    MulMonotone(1, x, d - 1);
    LessOneFactor(d, x);
  }

  lemma LessOneFactor(d: int, x: int)
    ensures x * (d - 1) == d * x - x
  {
  }

  lemma ScaledFits(p: nat, b: nat, x: nat, low: nat, d: nat)
    requires low < p && d * (x + 1) <= b && d > 0
    ensures d * (low + x * p) < b * p
  {
    assert low + x * p < (x + 1) * p;
    MulMonotone(low + x * p + 1, (x + 1) * p, d);
    MulMonotone(d * (x + 1), b, p);
    assert d * ((x + 1) * p) == d * (x + 1) * p;
  }

  lemma LeadingZeros(b: nat, s: seq<nat>, n: nat)
    requires n <= |s| && forall k :: n <= k < |s| ==> s[k] == 0
    ensures Value(b, s[..n]) == Value(b, s)
  {
    assert s == s[..n] + s[n..];
    ValueConcat(b, s[..n], s[n..]);
    ValueZeros(b, s[n..]);
  }

  /** Step D1 for the numerator, which gains one limb. */
  method NormaliseNumerator(b: nat, uu: array<nat>, values: array<nat>, nu: nat, d: nat)
    requires b > 1 && 0 < d < b && nu <= values.Length && uu.Length == values.Length + 1 && uu != values
    requires IsLimbs(b, values[..])
    modifies uu
    ensures IsLimbs(b, uu[..nu + 1]) && Value(b, uu[..nu + 1]) == d * Value(b, values[..nu])
  {
    hide Value, Pow;
    if d > 1 {
      assert values[0..nu] == values[..nu];
      var carry := MultiplyByLimb(b, uu, 0, values, 0, d, nu);
      assert uu[0..nu] == uu[..nu];
      uu[nu] := carry;
      assert uu[..nu + 1] == uu[0..nu] + [carry];
      ValueSnoc(b, uu[0..nu], carry);
    } else {
      CopyRange(values, 0, uu, 0, values.Length);
      assert uu[..nu] == values[..nu] by { assert forall k :: 0 <= k < nu ==> uu[k] == uu[..values.Length][k]; }
      uu[nu] := 0;
      assert uu[..nu + 1] == values[..nu] + [0];
      ValueSnoc(b, values[..nu], 0);
    }
  }

  lemma NoCarry(p: nat, x: nat, carry: nat)
    requires x + carry * p < p
    ensures carry * p == 0
  {
    if carry > 0 {
      MulMonotone(1, carry, p);
    }
  }

  /** Step D1 for the denominator, whose product has no carry. */
  method NormaliseDenominator(b: nat, vv: array<nat>, other: array<nat>, n: nat, d: nat)
    requires b > 1 && 0 < d < b && n <= other.Length == vv.Length && vv != other
    requires IsLimbs(b, other[..]) && d * Value(b, other[..n]) < Pow(b, n)
    modifies vv
    ensures IsLimbs(b, vv[..n]) && Value(b, vv[..n]) == d * Value(b, other[..n])
  {
    hide Value, Pow;
    if d > 1 {
      assert other[0..n] == other[..n];
      var carry := MultiplyByLimb(b, vv, 0, other, 0, d, n);
      assert vv[0..n] == vv[..n];
      NoCarry(Pow(b, n), Value(b, vv[..n]), carry);
    } else {
      CopyRange(other, 0, vv, 0, other.Length);
      assert vv[..n] == vv[..other.Length][..n] == other[..n];
    }
  }

  /** The remainder on its way out: un-scaled, with the upper limbs cleared. */
  method StoreRemainder(b: nat, remainder: array<nat>, uu: array<nat>, n: nat, d: nat, ghost r: nat)
    requires 0 < d < b && n <= remainder.Length && n <= uu.Length && remainder != uu
    requires IsLimbs(b, uu[..n]) && Value(b, uu[..n]) == d * r
    modifies remainder
    ensures IsLimbs(b, remainder[..]) && Value(b, remainder[..]) == r
  {
    hide Value, Pow;
    if d == 1 {
      CopyRange(uu, 0, remainder, 0, n);
    } else {
      Denormalise(b, remainder, uu, n, d);
      SameMultiple(d, Value(b, remainder[..n]), r);
    }
    ghost var low := remainder[..n];
    Fill(remainder, n, remainder.Length - n, 0);
    assert remainder[..n] == low;
    LeadingZeros(b, remainder[..], n);
    assert remainder[..][..n] == low;
  }

  lemma SameMultiple(d: nat, x: nat, r: nat)
    requires d > 0 && d * x <= d * r < d * x + d
    ensures x == r
  {
    DivModUnique(d * r, d, x, d * r - d * x);
    DivModUnique(d * r, d, r, 0);
  }

  /** The first window is below the scaled divisor. */
  lemma FirstWindow(b: nat, s: seq<nat>, m: nat, n: nat, d: nat, u: nat, v: nat)
    requires b > 0 && n > 0 && d > 0 && |s| == m + n + 1 && Value(b, s) == d * u
    requires u < Pow(b, m + n) && Pow(b, n - 1) <= v
    ensures Value(b, s[m + 1..]) < d * v
  {
    hide Value, Pow;
    assert s == s[..m + 1] + s[m + 1..];
    ValueConcat(b, s[..m + 1], s[m + 1..]);
    PowAdd(b, m + 1, n - 1);
    WindowAlgebra(Pow(b, m + 1), Pow(b, n - 1), Value(b, s[m + 1..]), d, u, v, Value(b, s[..m + 1]));
  }

  lemma WindowAlgebra(p: nat, q: nat, w: nat, d: nat, u: nat, v: nat, l: nat)
    requires p > 0 && d > 0 && l + p * w == d * u && u < p * q && q <= v
    ensures w < d * v
  {
    assert d * q * p == p * q * d;
    MulMonotone(u + 1, p * q, d);
    MulMonotone(q, v, d);
    if w >= d * v {
      MulMonotone(d * q, w, p);
    }
  }

  /** A range whose highest limb is not zero reaches b^(n-1). */
  lemma TopLimb(b: nat, s: seq<nat>, n: nat)
    requires b > 0 && |s| == n > 0 && IsLimbs(b, s) && s[n - 1] > 0
    ensures Value(b, s) == Value(b, s[..n - 1]) + s[n - 1] * Pow(b, n - 1) && Value(b, s[..n - 1]) < Pow(b, n - 1)
    ensures Pow(b, n - 1) <= Value(b, s)
  {
    ValueBound(b, s[..n - 1]);
    MulMonotone(1, s[n - 1], Pow(b, n - 1));
  }

  lemma ScaledDivisor(b: nat, s: seq<nat>, n: nat, d: nat)
    requires b > 1 && |s| == n > 0 && IsLimbs(b, s) && s[n - 1] > 0 && d == Normaliser(b, s[n - 1])
    ensures 0 < d < b && d * Value(b, s) < Pow(b, n)
  {
    NormaliserBounds(b, s[n - 1]);
    TopLimb(b, s, n);
    ScaledFits(Pow(b, n - 1), b, s[n - 1], Value(b, s[..n - 1]), d);
  }

  lemma ScaledTop(b: nat, s: seq<nat>, s': seq<nat>, n: nat, d: nat)
    requires b > 1 && b % 2 == 0 && |s| == |s'| == n > 0 && IsLimbs(b, s) && IsLimbs(b, s') && s[n - 1] > 0
    requires d == Normaliser(b, s[n - 1]) && Value(b, s') == d * Value(b, s)
    ensures b <= 2 * s'[n - 1]
  {
    TopLimb(b, s, n);
    ValueBound(b, s'[..n - 1]);
    NormalisedDivisor(b, Pow(b, n - 1), s[n - 1], Value(b, s[..n - 1]), d, s'[n - 1], Value(b, s'[..n - 1]));
  }

  /** Undoing the scaling: the remainder of the scaled division is d times the
      remainder of the original one. */
  lemma Unscale(d: nat, u: nat, v: nat, r: nat, q: nat)
    requires d > 0 && v > 0 && r + (d * v) * q == d * u && r < d * v
    ensures q == u / v && r == d * (u % v)
  {
    assert d * u == d * (v * q) + r;
    assert r == d * (u - v * q);
    var x := u - v * q;
    if x >= v {
      MulMonotone(v, x, d);
    }
    DivModUnique(u, v, q, x);
  }

  /** `eval_divide_knuth_core` on at least two denominator limbs: in place
      quotient, and the remainder when one is asked for. */
  method DivideLong(b: nat, values: array<nat>, other: array<nat>, remainder: array?<nat>, nu: nat, n: nat)
    requires b > 1 && b % 2 == 0 && 2 <= n <= nu <= values.Length == other.Length
    requires values != other && remainder != other && remainder != values
    requires remainder != null ==> remainder.Length == values.Length
    requires IsLimbs(b, values[..]) && IsLimbs(b, other[..])
    requires forall k :: nu <= k < values.Length ==> values[k] == 0
    requires forall k :: n <= k < values.Length ==> other[k] == 0
    requires other[n - 1] > 0
    modifies values, remainder
    ensures IsLimbs(b, values[..]) && Value(b, other[..]) > 0
    ensures Value(b, values[..]) == old(Value(b, values[..])) / Value(b, other[..])
    ensures remainder != null ==> IsLimbs(b, remainder[..])
    ensures remainder != null ==> Value(b, remainder[..]) == old(Value(b, values[..])) % Value(b, other[..])
  {
    hide Value, Pow, Normaliser;
    ghost var us, vs, u, v := values[..nu], other[..n], Value(b, values[..]), Value(b, other[..]);
    LeadingZeros(b, values[..], nu);
    LeadingZeros(b, other[..], n);
    assert values[..][..nu] == us && other[..][..n] == vs;
    ValueBound(b, us);
    TopLimb(b, vs, n);
    var d := Normaliser(b, other[n - 1]);
    ScaledDivisor(b, vs, n, d);
    var uu, vv := new nat[values.Length + 1], new nat[values.Length];
    NormaliseNumerator(b, uu, values, nu, d);
    NormaliseDenominator(b, vv, other, n, d);
    ScaledTop(b, vs, vv[..n], n, d);
    var m := nu - n;
    FirstWindow(b, uu[..nu + 1], m, n, d, u, v);
    assert uu[..nu + 1][m + 1..] == uu[m + 1..nu + 1];
    DivideDigits(b, values, uu, vv, n, m);
    Unscale(d, u, v, Value(b, uu[..n]), Value(b, values[..m + 1]));
    ghost var q := values[..m + 1];
    Fill(values, m + 1, values.Length - (m + 1), 0);
    assert values[..m + 1] == q && values[..][..m + 1] == q;
    LeadingZeros(b, values[..], m + 1);
    if remainder != null {
      StoreRemainder(b, remainder, uu, n, d, u % v);
    }
    assert other[..][..n] == vs;
  }

  /** `eval_divide_knuth_core`. */
  method DivideCore(b: nat, values: array<nat>, other: array<nat>, remainder: array?<nat>, uOffset: nat, vOffset: nat)
    requires b > 1 && b % 2 == 0 && uOffset <= vOffset < values.Length == other.Length
    requires values != other && remainder != other && remainder != values
    requires remainder != null ==> remainder.Length == values.Length
    requires IsLimbs(b, values[..]) && IsLimbs(b, other[..])
    requires forall k :: values.Length - uOffset <= k < values.Length ==> values[k] == 0
    requires forall k :: values.Length - vOffset <= k < values.Length ==> other[k] == 0
    requires other[values.Length - vOffset - 1] > 0
    modifies values, remainder
    ensures IsLimbs(b, values[..]) && Value(b, other[..]) > 0
    ensures Value(b, values[..]) == old(Value(b, values[..])) / Value(b, other[..])
    ensures remainder != null ==> IsLimbs(b, remainder[..])
    ensures remainder != null ==> Value(b, remainder[..]) == old(Value(b, values[..])) % Value(b, other[..])
  {
    hide Value, Pow;
    var count := values.Length;
    if vOffset + 1 != count {
      DivideLong(b, values, other, remainder, count - uOffset, count - vOffset);
      return;
    }
    ghost var nu := count - uOffset;
    ghost var u := Value(b, values[..]);
    LeadingZeros(b, values[..], nu);
    OneLimb(b, other[..]);
    assert values[..][..nu] == values[..nu];
    var rest := DivideByLimb(b, values, count - uOffset, other[0]);
    LeadingZeros(b, values[..], nu);
    assert values[..][..nu] == values[..nu];
    assert IsLimbs(b, values[..]);
    DivModUnique(u, other[0], Value(b, values[..]), rest);
    if remainder != null {
      Assign(b, remainder, rest);
    }
  }

  lemma OneLimb(b: nat, s: seq<nat>)
    requires |s| > 0 && forall k :: 1 <= k < |s| ==> s[k] == 0
    ensures Value(b, s) == s[0]
  {
    LeadingZeros(b, s, 1);
    assert s[..1] == [] + [s[0]];
    ValueSnoc(b, [], s[0]);
    ValueEmpty(b);
  }

  /** Assigning a one-limb number. */
  method Assign(b: nat, r: array<nat>, x: nat)
    requires r.Length > 0 && x < b
    modifies r
    ensures IsLimbs(b, r[..]) && Value(b, r[..]) == x
  {
    hide Value, Pow;
    Fill(r, 1, r.Length - 1, 0);
    r[0] := x;
    OneLimb(b, r[..]);
  }

  /** How many of the top limbs are zero. */
  method CountLeadingZeros(v: array<nat>) returns (offset: nat)
    ensures offset <= v.Length && forall k :: v.Length - offset <= k < v.Length ==> v[k] == 0
    ensures offset < v.Length ==> v[v.Length - offset - 1] > 0
  {
    offset := 0;
    while offset < v.Length && v[v.Length - 1 - offset] == 0
      invariant offset <= v.Length && forall k :: v.Length - offset <= k < v.Length ==> v[k] == 0
    {
      offset := offset + 1;
    }
  }

  lemma FewerLeadingZeros(b: nat, s: seq<nat>, t: seq<nat>, i: nat, j: nat)
    requires b > 0 && i <= |s| == |t| && IsLimbs(b, s) && Value(b, t) < Value(b, s)
    requires (forall k :: i <= k < |s| ==> s[k] == 0) && 0 < j <= |t| && t[j - 1] > 0 && IsLimbs(b, t)
    ensures j <= i
  {
    hide Value, Pow;
    if j > i {
      LeadingZeros(b, s, i);
      ValueBound(b, s[..i]);
      TopLimb(b, t[..j], j);
      PowMonotone(b, i, j - 1);
      assert t == t[..j] + t[j..];
      ValueConcat(b, t[..j], t[j..]);
    }
  }

  /** The largest value of the type, as a limb sequence. */
  function MaxLimbs(b: nat, count: nat, signed: bool): (r: seq<nat>)
    requires b > 1
    ensures |r| == count && IsLimbs(b, r)
  {
    seq(count, k requires 0 <= k < count => if signed && k == count - 1 then b / 2 - 1 else b - 1)
  }

  method AssignMax(b: nat, values: array<nat>, signed: bool)
    requires b > 1
    modifies values
    ensures values[..] == MaxLimbs(b, values.Length, signed)
  {
    var max := MaxLimbs(b, values.Length, signed);
    for i := 0 to values.Length
      invariant forall k :: 0 <= k < i ==> values[k] == max[k]
    {
      values[i] := max[i];
    }
    assert values[..] == max;
  }

  lemma NonZero(b: nat, s: seq<nat>, i: nat)
    requires b > 0 && i < |s| && s[i] > 0
    ensures Value(b, s) > 0
  {
    hide Value;
    if Value(b, s) == 0 {
      ZeroValue(b, s);
    }
  }

  method IsZero(b: nat, values: array<nat>) returns (zero: bool)
    requires b > 0
    ensures zero <==> Value(b, values[..]) == 0
  {
    hide Value;
    var it := 0;
    while it < values.Length && values[it] == 0
      invariant 0 <= it <= values.Length && forall k :: 0 <= k < it ==> values[k] == 0
    {
      it := it + 1;
    }
    zero := it == values.Length;
    if zero {
      ValueZeros(b, values[..]);
    } else {
      NonZero(b, values[..], it);
    }
  }

  lemma Quotients(u: nat, v: nat)
    requires 0 < v
    ensures u < v ==> u / v == 0 && u % v == u
    ensures u == v ==> u / v == 1 && u % v == 0
  {
    if u < v {
      DivModUnique(u, v, 0, u);
    } else if u == v {
      DivModUnique(u, v, 1, 0);
    }
  }

  /** `eval_divide_knuth`: exact quotient and remainder at every limb count;
      a zero denominator gives the maximum and remainder zero. */
  method Divide(b: nat, values: array<nat>, other: array<nat>, remainder: array?<nat>, signed: bool)
    requires b > 1 && b % 2 == 0 && 0 < values.Length == other.Length
    requires values != other && remainder != other && remainder != values
    requires remainder != null ==> remainder.Length == values.Length
    requires IsLimbs(b, values[..]) && IsLimbs(b, other[..])
    modifies values, remainder
    ensures IsLimbs(b, values[..])
    ensures var u, v := old(Value(b, values[..])), Value(b, other[..]);
            if v == 0 then values[..] == MaxLimbs(b, values.Length, signed) else Value(b, values[..]) == u / v
    ensures var u, v := old(Value(b, values[..])), Value(b, other[..]);
            remainder != null ==> IsLimbs(b, remainder[..]) && Value(b, remainder[..]) == if v == 0 then 0 else u % v
  {
    hide Value, Pow;
    var uOffset := CountLeadingZeros(values);
    var vOffset := CountLeadingZeros(other);
    ghost var u, v := Value(b, values[..]), Value(b, other[..]);
    if vOffset == values.Length {
      ValueZeros(b, other[..]);
      AssignMax(b, values, signed);
      if remainder != null {
        Assign(b, remainder, 0);
      }
    } else if uOffset == values.Length {
      ValueZeros(b, values[..]);
      NonZero(b, other[..], other.Length - vOffset - 1);
      Quotients(u, v);
      if remainder != null {
        Assign(b, remainder, 0);
      }
    } else {
      var sign := CompareRanges(b, values, 0, other, 0, values.Length);
      assert values[0..values.Length] == values[..] && other[0..values.Length] == other[..];
      NonZero(b, other[..], other.Length - vOffset - 1);
      Quotients(u, v);
      if sign == -1 {
        if remainder != null {
          CopyRange(values, 0, remainder, 0, values.Length);
          assert remainder[..] == remainder[..values.Length] == values[..];
        }
        Assign(b, values, 0);
      } else if sign == 0 {
        Assign(b, values, 1);
        if remainder != null {
          Assign(b, remainder, 0);
        }
      } else {
        FewerLeadingZeros(b, values[..], other[..], values.Length - uOffset, values.Length - vOffset);
        DivideCore(b, values, other, remainder, uOffset, vOffset);
      }
    }
  }
}
