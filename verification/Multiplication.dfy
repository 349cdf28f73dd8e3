/** Schoolbook products of limb ranges and the four-limb unrolled low half. */
module Multiplication {
  import opened Powers
  import opened Limbs
  import opened LimbArithmetic

  /** Ranges of two arrays that never overlap. */
  predicate Apart(r: array<nat>, ro: nat, n: nat, u: array<nat>, uo: nat, m: nat) {
    r != u || ro + n <= uo || uo + m <= ro
  }

  method CopyRange(r: array<nat>, ro: nat, t: array<nat>, to: nat, n: nat)
    requires ro + n <= r.Length && to + n <= t.Length && Apart(t, to, n, r, ro, n)
    modifies t
    ensures t[to..to + n] == old(r[ro..ro + n])
    ensures forall k :: 0 <= k < t.Length && !(to <= k < to + n) ==> t[k] == old(t[k])
  {
    ghost var rs := r[ro..ro + n];
    for i := 0 to n
      invariant forall k :: to <= k < to + i ==> t[k] == rs[k - to]
      invariant forall k :: ro <= k < ro + n ==> r[k] == rs[k - ro]
      invariant forall k :: 0 <= k < t.Length && !(to <= k < to + n) ==> t[k] == old(t[k])
    {
      t[to + i] := r[ro + i];
    }
    assert t[to..to + n] == rs;
  }

  lemma DoubleLimbFits(b: nat, x: nat, y: nat, carry: nat, z: nat)
    requires x < b && y < b && carry < b && z < b
    ensures x * y + carry + z < b * b
  {
    MulMonotone(x, b - 1, y);
    MulMonotone(y, b - 1, b - 1);
    assert (b - 1) * (b - 1) == b * b - 2 * b + 1;
  }

  lemma DigitProductAlgebra(p: int, x: int, y: int, c: int, z: int, c': int, w: int, b: int, v: int)
    requires x * y + c + z == c' * b + w
    ensures w * p + c' * (p * b) == c * p + z * p + (x * (v + y * p) - x * v)
  {
    assert (x * y + c + z) * p == (c' * b + w) * p;
    assert (x * y) * p == x * (y * p);
  }

  lemma ProductStep(b: nat, i: nat, zs: seq<nat>, cs: seq<nat>, done: seq<nat>, x: nat, c: nat, c': nat, w: nat)
    requires i == |done| < |zs| == |cs|
    requires x * cs[i] + c + zs[i] == c' * b + w
    requires Value(b, done) + c * Pow(b, i) == Value(b, zs[..i]) + x * Value(b, cs[..i])
    ensures Value(b, done + [w]) + c' * Pow(b, i + 1) == Value(b, zs[..i + 1]) + x * Value(b, cs[..i + 1])
  {
    ValuePrefixes(b, i, zs, cs, done, w);
    DigitProductAlgebra(Pow(b, i), x, cs[i], c, zs[i], c', w, b, Value(b, cs[..i]));
  }

  /** One limb product with the carry and the limb already there, in a double limb. */
  method ProductDigit(b: nat, x: nat, y: nat, carry: nat, z: nat) returns (hi: nat, lo: nat)
    requires b > 1 && x < b && y < b && carry < b && z < b
    ensures hi < b && lo < b && x * y + carry + z == hi * b + lo
  {
    DoubleLimbFits(b, x, y, carry, z);
    var t := x * y + carry + z;
    HiBound(b, t, b);
    hi, lo := Hi(b, t), Lo(b, t);
  }

  /** The inner loop of both schoolbook products: r += x * c on `n` limbs. */
  method MultiplyAddRow(b: nat, r: array<nat>, ro: nat, x: nat, c: array<nat>, co: nat, n: nat) returns (carry: nat)
    requires b > 1 && x < b
    requires ro + n <= r.Length && co + n <= c.Length && Apart(r, ro, n, c, co, n)
    requires IsLimbs(b, r[ro..ro + n]) && IsLimbs(b, c[co..co + n])
    modifies r
    ensures carry < b && IsLimbs(b, r[ro..ro + n])
    ensures Value(b, r[ro..ro + n]) + carry * Pow(b, n) == old(Value(b, r[ro..ro + n])) + x * old(Value(b, c[co..co + n]))
    ensures forall k :: 0 <= k < r.Length && !(ro <= k < ro + n) ==> r[k] == old(r[k])
  {
    hide Value, Pow;
    carry := 0;
    ghost var zs, cs := r[ro..ro + n], c[co..co + n];
    ghost var done: seq<nat> := [];
    ValueEmpty(b);
    assert zs[..0] == [] && cs[..0] == [];
    for j := 0 to n
      invariant carry < b && |done| == j && IsLimbs(b, done)
      invariant forall k :: ro <= k < ro + j ==> r[k] == done[k - ro]
      invariant forall k :: ro + j <= k < ro + n ==> r[k] == zs[k - ro]
      invariant forall k :: co <= k < co + n ==> c[k] == cs[k - co]
      invariant Value(b, done) + carry * Pow(b, j) == Value(b, zs[..j]) + x * Value(b, cs[..j])
      invariant forall k :: 0 <= k < r.Length && !(ro <= k < ro + n) ==> r[k] == old(r[k])
    {
      var hi, lo := ProductDigit(b, x, c[co + j], carry, r[ro + j]);
      ProductStep(b, j, zs, cs, done, x, carry, hi, lo);
      carry := hi;
      r[ro + j] := lo;
      done := done + [lo];
    }
    assert r[ro..ro + n] == done && zs[..n] == zs && cs[..n] == cs;
  }

  /** `eval_multiply_1d`: r = a * x on `n` limbs, also in place. */
  method MultiplyByLimb(b: nat, r: array<nat>, ro: nat, a: array<nat>, ao: nat, x: nat, n: nat) returns (carry: nat)
    requires b > 1 && x < b
    requires ro + n <= r.Length && ao + n <= a.Length && Compatible(r, ro, a, ao, n)
    requires IsLimbs(b, a[ao..ao + n])
    modifies r
    ensures carry < b && IsLimbs(b, r[ro..ro + n])
    ensures Value(b, r[ro..ro + n]) + carry * Pow(b, n) == x * old(Value(b, a[ao..ao + n]))
    ensures forall k :: 0 <= k < r.Length && !(ro <= k < ro + n) ==> r[k] == old(r[k])
  {
    hide Value, Pow;
    carry := 0;
    ghost var cs := a[ao..ao + n];
    if x == 0 {
      Fill(r, ro, n, 0);
      ValueZeros(b, r[ro..ro + n]);
    } else {
      ghost var zs: seq<nat> := seq(n, _ => 0);
      ghost var done: seq<nat> := [];
      ValueEmpty(b);
      assert zs[..0] == [] && cs[..0] == [];
      for i := 0 to n
        invariant carry < b && |done| == i && IsLimbs(b, done)
        invariant forall k :: ro <= k < ro + i ==> r[k] == done[k - ro]
        invariant forall k :: ao + i <= k < ao + n ==> a[k] == cs[k - ao]
        invariant Value(b, done) + carry * Pow(b, i) == Value(b, zs[..i]) + x * Value(b, cs[..i])
        invariant forall k :: 0 <= k < r.Length && !(ro <= k < ro + n) ==> r[k] == old(r[k])
      {
        var hi, lo := ProductDigit(b, x, a[ao + i], carry, 0);
        ProductStep(b, i, zs, cs, done, x, carry, hi, lo);
        carry := hi;
        r[ro + i] := lo;
        done := done + [lo];
      }
      assert r[ro..ro + n] == done && zs[..n] == zs && cs[..n] == cs;
      ValueZeros(b, zs);
    }
  }

  method Fill(r: array<nat>, ro: nat, n: nat, x: nat)
    requires ro + n <= r.Length
    modifies r
    ensures forall k :: ro <= k < ro + n ==> r[k] == x
    ensures forall k :: 0 <= k < r.Length && !(ro <= k < ro + n) ==> r[k] == old(r[k])
  {
    for i := 0 to n
      invariant forall k :: ro <= k < ro + i ==> r[k] == x
      invariant forall k :: 0 <= k < r.Length && !(ro <= k < ro + n) ==> r[k] == old(r[k])
    {
      r[ro + i] := x;
    }
  }

  lemma RowAlgebra(p: int, l: int, m: int, t: int, u: int, u': int, x: int, c: int)
    requires t == m + x * c && l + p * m == u * c && u' == u + x * p
    ensures l + p * t == u' * c
  {
    assert p * (m + x * c) == p * m + (x * p) * c;
    assert (u + x * p) * c == u * c + (x * p) * c;
  }

  ghost predicate IsProduct(v: nat, x: nat, y: nat) {
    v == x * y
  }

  lemma ProductOfNone(y: nat)
    ensures IsProduct(0, 0, y)
  {
  }

  /** Adding x * c, shifted by |lo| limbs, to a partial product. */
  lemma RowStep(b: nat, us: seq<nat>, x: nat, c: nat, lo: seq<nat>, mid: seq<nat>, mid': seq<nat>, carry: nat)
    requires |mid| == |mid'| && |us| == |lo|
    requires Value(b, mid') + carry * Pow(b, |mid|) == Value(b, mid) + x * c
    requires IsProduct(Value(b, lo + mid), Value(b, us), c)
    ensures IsProduct(Value(b, lo + (mid' + [carry])), Value(b, us + [x]), c)
  {
    ValueConcat(b, lo, mid' + [carry]);
    ValueConcat(b, lo, mid);
    ValueSnoc(b, mid', carry);
    ValueSnoc(b, us, x);
    RowAlgebra(Pow(b, |lo|), Value(b, lo), Value(b, mid), Value(b, mid' + [carry]), Value(b, us), Value(b, us + [x]), x, c);
  }

  /** `eval_multiply_n_by_n_to_2n`: the full product of two n-limb ranges. */
  method MultiplyFull(b: nat, r: array<nat>, ro: nat, a: array<nat>, ao: nat, c: array<nat>, co: nat, n: nat)
    requires b > 1
    requires ro + 2 * n <= r.Length && ao + n <= a.Length && co + n <= c.Length
    requires Apart(r, ro, 2 * n, a, ao, n) && Apart(r, ro, 2 * n, c, co, n)
    requires IsLimbs(b, a[ao..ao + n]) && IsLimbs(b, c[co..co + n])
    modifies r
    ensures IsLimbs(b, r[ro..ro + 2 * n])
    ensures Value(b, r[ro..ro + 2 * n]) == old(Value(b, a[ao..ao + n])) * old(Value(b, c[co..co + n]))
    ensures forall k :: 0 <= k < r.Length && !(ro <= k < ro + 2 * n) ==> r[k] == old(r[k])
  {
    hide Value, RowsDone;
    ghost var us, cs := a[ao..ao + n], c[co..co + n];
    Fill(r, ro, 2 * n, 0);
    NoRowsYet(b, r[ro..ro + 2 * n], us, cs);
    for i := 0 to n
      invariant forall k :: ao <= k < ao + n ==> a[k] == us[k - ao]
      invariant forall k :: co <= k < co + n ==> c[k] == cs[k - co]
      invariant RowsDone(b, r[ro..ro + 2 * n], us, cs, i)
      invariant forall k :: 0 <= k < r.Length && !(ro <= k < ro + 2 * n) ==> r[k] == old(r[k])
    {
      assert a[ao..ao + n] == us && c[co..co + n] == cs;
      NextRow(b, r, ro, i, a, ao, c, co, n, us, cs);
    }
    AllRowsDone(b, r[ro..ro + 2 * n], us, cs);
  }

  /** The result range after i rows: i + n limbs hold the product so far, the rest is zero. */
  ghost predicate RowsDone(b: nat, rs: seq<nat>, us: seq<nat>, cs: seq<nat>, i: nat)
    requires i <= |us| && |rs| == 2 * |us|
  {
    && IsLimbs(b, rs[..i + |us|])
    && (forall k :: i + |us| <= k < |rs| ==> rs[k] == 0)
    && IsProduct(Value(b, rs[..i + |us|]), Value(b, us[..i]), Value(b, cs))
  }

  /** One round of `MultiplyFull`. */
  method NextRow(b: nat, r: array<nat>, ro: nat, i: nat, a: array<nat>, ao: nat, c: array<nat>, co: nat, n: nat,
                 ghost us: seq<nat>, ghost cs: seq<nat>)
    requires b > 1 && i < n && ro + 2 * n <= r.Length && ao + n <= a.Length && co + n <= c.Length
    requires Apart(r, ro, 2 * n, a, ao, n) && Apart(r, ro, 2 * n, c, co, n)
    requires us == a[ao..ao + n] && cs == c[co..co + n] && IsLimbs(b, us) && IsLimbs(b, cs)
    requires RowsDone(b, r[ro..ro + 2 * n], us, cs, i)
    modifies r
    ensures RowsDone(b, r[ro..ro + 2 * n], us, cs, i + 1)
    ensures forall k :: 0 <= k < r.Length && !(ro <= k < ro + 2 * n) ==> r[k] == old(r[k])
  {
    hide Value, Pow, IsProduct;
    ghost var rs := r[ro..ro + 2 * n];
    assert rs[..i + n] == r[ro..ro + i + n] && rs[i + n] == r[ro + i + n];
    assert us[i] == a[ao + i] && us[..i + 1] == us[..i] + [us[i]];
    ProductRow(b, r, ro, i, a[ao + i], c, co, n, us[..i]);
    ghost var rs' := r[ro..ro + 2 * n];
    assert rs'[..(i + 1) + n] == r[ro..ro + (i + 1) + n];
    RowAdded(b, rs, rs', us, cs, i);
  }

  lemma RowAdded(b: nat, rs: seq<nat>, rs': seq<nat>, us: seq<nat>, cs: seq<nat>, i: nat)
    requires i < |us| && |rs| == |rs'| == 2 * |us| && RowsDone(b, rs, us, cs, i)
    requires IsLimbs(b, rs'[..(i + 1) + |us|]) && IsProduct(Value(b, rs'[..(i + 1) + |us|]), Value(b, us[..i + 1]), Value(b, cs))
    requires forall k :: i + |us| < k < |rs| ==> rs'[k] == rs[k]
    ensures RowsDone(b, rs', us, cs, i + 1)
  {
    hide Value, IsProduct;
  }

  lemma NoRowsYet(b: nat, rs: seq<nat>, us: seq<nat>, cs: seq<nat>)
    requires b > 1 && |rs| == 2 * |us| && forall k :: 0 <= k < |rs| ==> rs[k] == 0
    ensures RowsDone(b, rs, us, cs, 0)
  {
    hide Value, IsProduct;
    ValueZeros(b, rs[..0 + |us|]);
    ValueEmpty(b);
    assert us[..0] == [];
    ProductOfNone(Value(b, cs));
  }

  lemma AllRowsDone(b: nat, rs: seq<nat>, us: seq<nat>, cs: seq<nat>)
    requires |rs| == 2 * |us| && RowsDone(b, rs, us, cs, |us|)
    ensures IsLimbs(b, rs) && Value(b, rs) == Value(b, us) * Value(b, cs)
  {
    assert us[..|us|] == us && rs[..|us| + |us|] == rs;
  }

  /** One outer step of `MultiplyFull`: a zero limb of `a` is skipped. */
  method ProductRow(b: nat, r: array<nat>, ro: nat, i: nat, x: nat, c: array<nat>, co: nat, n: nat, ghost us: seq<nat>)
    requires b > 1 && x < b && |us| == i
    requires ro + i + n < r.Length && co + n <= c.Length && Apart(r, ro + i, n + 1, c, co, n)
    requires r[ro + i + n] == 0
    requires IsLimbs(b, r[ro..ro + i + n]) && IsLimbs(b, c[co..co + n])
    requires IsProduct(Value(b, r[ro..ro + i + n]), Value(b, us), Value(b, c[co..co + n]))
    modifies r
    ensures IsLimbs(b, r[ro..ro + (i + 1) + n])
    ensures IsProduct(Value(b, r[ro..ro + (i + 1) + n]), Value(b, us + [x]), old(Value(b, c[co..co + n])))
    ensures forall k :: 0 <= k < r.Length && !(ro + i <= k <= ro + i + n) ==> r[k] == old(r[k])
  {
    hide Value, Pow, IsProduct;
    ghost var lo, mid := r[ro..ro + i], r[ro + i..ro + i + n];
    ghost var cv := Value(b, c[co..co + n]);
    assert r[ro..ro + i + n] == lo + mid;
    LimbsConcat(b, lo, mid);
    var carry := 0;
    assert x == 0 ==> x * cv == 0;
    if x != 0 {
      carry := MultiplyAddRow(b, r, ro + i, x, c, co, n);
      r[ro + i + n] := carry;
    }
    ghost var mid' := r[ro + i..ro + i + n];
    RowStep(b, us, x, cv, lo, mid, mid', carry);
    LimbsConcat(b, mid', [carry]);
    LimbsConcat(b, lo, mid' + [carry]);
    assert r[ro..ro + i] == lo;
    assert r[ro..ro + (i + 1) + n] == lo + (mid' + [carry]);
  }

  ghost predicate IsLowProduct(v: nat, x: nat, y: nat, pn: nat) {
    pn > 0 && v == (x * y) % pn
  }

  lemma LowAlgebra(p: int, q: int, pn: nat, l: int, m: int, m': int, carry: int, v: nat, v': nat,
                   u: nat, u': nat, x: int, c: nat, cl: int, ch: int)
    requires pn == p * q > 0 && c == cl + q * ch && u' == u + x * p
    requires m' + carry * q == m + x * cl
    requires v == l + p * m && v' == l + p * m' && v' < pn
    requires IsLowProduct(v, u, c, pn)
    ensures IsLowProduct(v', u', c, pn)
  {
    var k := (u * c) / pn;
    assert u * c == k * pn + v;
    LowExpand(p, q, pn, l, m, m', carry, u * c, v, v', u' * c - u * c, x, c, cl, ch, k);
    DivModUnique(u' * c, pn, k + carry + x * ch, v');
  }

  lemma LowExpand(p: int, q: int, pn: int, l: int, m: int, m': int, carry: int, prod: int, v: int, v': int,
                  added: int, x: int, c: int, cl: int, ch: int, k: int)
    requires pn == p * q && c == cl + q * ch && added == x * p * c
    requires m' + carry * q == m + x * cl
    requires v == l + p * m && v' == l + p * m'
    requires prod == k * pn + v
    ensures prod + added == (k + carry + x * ch) * pn + v'
  {
    calc {
      added;
    ==
      p * (x * cl) + x * ch * (p * q);
    == { assert x * cl == m' + carry * q - m; }
      p * (m' + carry * q - m) + x * ch * pn;
    ==
      v' - v + carry * pn + x * ch * pn;
    }
  }

  /** Adding x * c, shifted by |lo| limbs, to a partial product kept modulo b^n:
      only the low |mid| limbs of `c` are read and the carry is dropped. */
  lemma LowStep(b: nat, n: nat, us: seq<nat>, x: nat, cs: seq<nat>, lo: seq<nat>, mid: seq<nat>, mid': seq<nat>, carry: nat)
    requires b > 0 && |mid| == |mid'| && |us| == |lo| && |cs| == n == |lo| + |mid|
    requires IsLimbs(b, lo + mid')
    requires Value(b, mid') + carry * Pow(b, |mid|) == Value(b, mid) + x * Value(b, cs[..|mid|])
    requires IsLowProduct(Value(b, lo + mid), Value(b, us), Value(b, cs), Pow(b, n))
    ensures IsLowProduct(Value(b, lo + mid'), Value(b, us + [x]), Value(b, cs), Pow(b, n))
  {
    hide Value, Pow, IsLowProduct;
    var cl, ch := cs[..|mid|], cs[|mid|..];
    assert cs == cl + ch;
    LowStepParts(b, n, us, x, cl, ch, lo, mid, mid', carry);
  }

  lemma LowSizes(b: nat, n: nat, lo: seq<nat>, mid: seq<nat>, p: nat, q: nat)
    requires b > 0 && n == |lo| + |mid| && p == Pow(b, |lo|) && q == Pow(b, |mid|) && IsLimbs(b, lo + mid)
    ensures Pow(b, n) == p * q > 0 && Value(b, lo + mid) < Pow(b, n)
  {
    hide Value;
    PowAdd(b, |lo|, |mid|);
    ValueBound(b, lo + mid);
  }

  lemma LowStepParts(b: nat, n: nat, us: seq<nat>, x: nat, cl: seq<nat>, ch: seq<nat>, lo: seq<nat>, mid: seq<nat>, mid': seq<nat>, carry: nat)
    requires b > 0 && |mid| == |mid'| == |cl| && |us| == |lo| == |ch| && n == |lo| + |mid|
    requires IsLimbs(b, lo + mid')
    requires Value(b, mid') + carry * Pow(b, |mid|) == Value(b, mid) + x * Value(b, cl)
    requires IsLowProduct(Value(b, lo + mid), Value(b, us), Value(b, cl + ch), Pow(b, n))
    ensures IsLowProduct(Value(b, lo + mid'), Value(b, us + [x]), Value(b, cl + ch), Pow(b, n))
  {
    hide Value, Pow, IsLowProduct;
    var p, q := Pow(b, |lo|), Pow(b, |mid|);
    ValueConcat(b, lo, mid);
    ValueConcat(b, lo, mid');
    ValueSnoc(b, us, x);
    ValueConcat(b, cl, ch);
    LowSizes(b, n, lo, mid', p, q);
    assert Value(b, cl + ch) == Value(b, cl) + q * Value(b, ch);
    assert Value(b, us + [x]) == Value(b, us) + x * p;
    assert Value(b, mid') + carry * q == Value(b, mid) + x * Value(b, cl);
    assert Value(b, lo + mid) == Value(b, lo) + p * Value(b, mid);
    assert Value(b, lo + mid') == Value(b, lo) + p * Value(b, mid');
    LowAlgebra(p, q, Pow(b, n), Value(b, lo), Value(b, mid), Value(b, mid'), carry,
               Value(b, lo + mid), Value(b, lo + mid'), Value(b, us), Value(b, us + [x]), x,
               Value(b, cl + ch), Value(b, cl), Value(b, ch));
  }

  /** `eval_multiply_n_by_n_to_lo_part`: the product of two n-limb ranges
      modulo b^n, without the leading-zero shortcut. */
  method MultiplyLow(b: nat, r: array<nat>, ro: nat, a: array<nat>, ao: nat, c: array<nat>, co: nat, n: nat)
    requires b > 1
    requires ro + n <= r.Length && ao + n <= a.Length && co + n <= c.Length
    requires Apart(r, ro, n, a, ao, n) && Apart(r, ro, n, c, co, n)
    requires IsLimbs(b, a[ao..ao + n]) && IsLimbs(b, c[co..co + n])
    modifies r
    ensures IsLimbs(b, r[ro..ro + n])
    ensures Value(b, r[ro..ro + n]) == (old(Value(b, a[ao..ao + n])) * old(Value(b, c[co..co + n]))) % Pow(b, n)
    ensures forall k :: 0 <= k < r.Length && !(ro <= k < ro + n) ==> r[k] == old(r[k])
  {
    hide Value, Pow, IsLowProduct;
    ghost var us, cs := a[ao..ao + n], c[co..co + n];
    Fill(r, ro, n, 0);
    ValueZeros(b, r[ro..ro + n]);
    ValueEmpty(b);
    assert us[..0] == [];
    NoProduct(b, n, Value(b, cs));
    for i := 0 to n
      invariant forall k :: ao <= k < ao + n ==> a[k] == us[k - ao]
      invariant forall k :: co <= k < co + n ==> c[k] == cs[k - co]
      invariant IsLimbs(b, r[ro..ro + n])
      invariant IsLowProduct(Value(b, r[ro..ro + n]), Value(b, us[..i]), Value(b, cs), Pow(b, n))
      invariant forall k :: 0 <= k < r.Length && !(ro <= k < ro + n) ==> r[k] == old(r[k])
    {
      assert c[co..co + n] == cs;
      LowRow(b, r, ro, i, a[ao + i], c, co, n, us[..i]);
      assert us[..i + 1] == us[..i] + [us[i]];
    }
    assert us[..n] == us;
    LowProductMeaning(Value(b, r[ro..ro + n]), Value(b, us), Value(b, cs), Pow(b, n));
  }

  lemma NoProduct(b: nat, n: nat, y: nat)
    requires b > 0
    ensures IsLowProduct(0, 0, y, Pow(b, n))
  {
    DivModUnique(0, Pow(b, n), 0, 0);
  }

  lemma LowProductMeaning(v: nat, x: nat, y: nat, pn: nat)
    requires IsLowProduct(v, x, y, pn)
    ensures pn > 0 && v == (x * y) % pn
  {
  }

  /** One outer step of `MultiplyLow`: a zero limb of `a` is skipped. */
  method LowRow(b: nat, r: array<nat>, ro: nat, i: nat, x: nat, c: array<nat>, co: nat, n: nat, ghost us: seq<nat>)
    requires b > 1 && x < b && |us| == i < n
    requires ro + n <= r.Length && co + n <= c.Length && Apart(r, ro, n, c, co, n)
    requires IsLimbs(b, r[ro..ro + n]) && IsLimbs(b, c[co..co + n])
    requires IsLowProduct(Value(b, r[ro..ro + n]), Value(b, us), Value(b, c[co..co + n]), Pow(b, n))
    modifies r
    ensures IsLimbs(b, r[ro..ro + n])
    ensures IsLowProduct(Value(b, r[ro..ro + n]), Value(b, us + [x]), old(Value(b, c[co..co + n])), Pow(b, n))
    ensures forall k :: 0 <= k < r.Length && !(ro + i <= k < ro + n) ==> r[k] == old(r[k])
  {
    hide Value, Pow, IsLowProduct;
    ghost var lo, mid, cs := r[ro..ro + i], r[ro + i..ro + n], c[co..co + n];
    assert lo + mid == r[ro..ro + n];
    assert cs[..n - i] == c[co..co + (n - i)];
    LimbsConcat(b, lo, mid);
    assert r[ro + i..ro + i + (n - i)] == mid;
    var carry := 0;
    if x != 0 {
      carry := MultiplyAddRow(b, r, ro + i, x, c, co, n - i);
    }
    ghost var mid' := r[ro + i..ro + n];
    assert x == 0 ==> x * Value(b, cs[..n - i]) == 0;
    assert r[ro..ro + n] == lo + mid';
    LimbsConcat(b, lo, mid');
    LowStep(b, n, us, x, cs, lo, mid, mid', carry);
  }

  lemma DropDigit(b: int, x: int, a: int, x': int, d: int)
    requires x == a + b * x'
    ensures x * d == a * d + b * (x' * d)
  {
  }

  lemma TopColumn(b: int, y: int, y1: int, y2: int, c0: int, c1: int, c2: int, c3: int, a0: int, a1: int, a2: int, a3: int)
    requires y == c0 + b * y1 && y1 == c1 + b * y2 && y2 == c2 + b * c3
    ensures a0 * c3 + a1 * y2 + a2 * y1 + a3 * y
         == a3 * c0 + a2 * c1 + a1 * c2 + a0 * c3 + b * (a1 * c3 + a2 * y2 + a3 * y1)
  {
    DropDigit(b, y, c0, y1, a3); DropDigit(b, y1, c1, y2, a2); DropDigit(b, y2, c2, c3, a1);
  }

  lemma MiddleColumn(b: int, x2: int, y: int, y1: int, y2: int, c0: int, c1: int, c2: int, c3: int,
                     a0: int, a1: int, a2: int, a3: int)
    requires y == c0 + b * y1 && y1 == c1 + b * y2 && y2 == c2 + b * c3 && x2 == a2 + b * a3
    ensures a0 * y2 + a1 * y1 + x2 * y
         == a2 * c0 + a1 * c1 + a0 * c2 + b * (a0 * c3 + a1 * y2 + a2 * y1 + a3 * y)
  {
    DropDigit(b, x2, a2, a3, y);
    DropDigit(b, y, c0, y1, a2); DropDigit(b, y1, c1, y2, a1); DropDigit(b, y2, c2, c3, a0);
  }

  lemma LowColumn(b: int, x1: int, x2: int, y: int, y1: int, y2: int, c0: int, c1: int, a0: int, a1: int)
    requires y == c0 + b * y1 && y1 == c1 + b * y2 && x1 == a1 + b * x2
    ensures a0 * y1 + x1 * y == a1 * c0 + a0 * c1 + b * (a0 * y2 + a1 * y1 + x2 * y)
  {
    DropDigit(b, x1, a1, x2, y);
    DropDigit(b, y, c0, y1, a1); DropDigit(b, y1, c1, y2, a0);
  }

  lemma FirstColumn(b: int, x: int, x1: int, y: int, y1: int, a0: int, c0: int)
    requires y == c0 + b * y1 && x == a0 + b * x1
    ensures x * y == a0 * c0 + b * (a0 * y1 + x1 * y)
  {
    DropDigit(b, x, a0, x1, y);
    DropDigit(b, y, c0, y1, a0);
  }

  /** One column with its carry: `s` is everything above the column. */
  lemma CarryColumn(b: int, c: int, h: int, l: int, s: int, c': int, w: int)
    requires c + l == c' * b + w
    ensures c + (l + h * b + b * s) == w + b * (c' + h + s)
  {
  }

  lemma HornerFour(b: nat, s: seq<nat>)
    requires |s| == 4
    ensures Value(b, s) == s[0] + b * (s[1] + b * (s[2] + b * s[3]))
    ensures Pow(b, 4) == b * b * b * b
  {
    assert s[1..][1..] == s[2..] && s[2..][1..] == s[3..] && s[3..][1..] == [];
    ValueHead(b, s);
    ValueHead(b, s[1..]);
    ValueHead(b, s[2..]);
    ValueHead(b, s[3..]);
    assert Pow(b, 0) == 1 && Pow(b, 1) == b && Pow(b, 2) == b * b && Pow(b, 3) == b * b * b;
  }

  lemma HornerRemainder(b: nat, v: nat, w0: int, w1: int, w2: int, w3: int, k: int, x: nat, y: nat)
    requires b > 0 && v < b * b * b * b
    requires v == w0 + b * (w1 + b * (w2 + b * w3))
    requires x * y == w0 + b * (w1 + b * (w2 + b * (w3 + b * k)))
    ensures IsLowProduct(v, x, y, b * b * b * b)
  {
    FifthDigit(b, w0, w1, w2, w3, k);
    DivModUnique(x * y, b * b * b * b, k, v);
  }

  lemma FifthDigit(b: int, w0: int, w1: int, w2: int, w3: int, k: int)
    ensures w0 + b * (w1 + b * (w2 + b * (w3 + b * k))) == k * (b * b * b * b) + (w0 + b * (w1 + b * (w2 + b * w3)))
  {
    var c := w3 + b * k;
    var d := w2 + b * c;
    assert b * c == b * w3 + b * (b * k);
    assert b * d == b * (w2 + b * w3) + b * (b * (b * k));
    assert b * (w1 + b * d) == b * (w1 + b * (w2 + b * w3)) + b * (b * (b * (b * k)));
    assert b * (b * (b * (b * k))) == k * (b * b * b * b);
  }

  /** The double-limb products that feed the four columns. */
  datatype Products = Products(p00: nat, p10: nat, p01: nat, p20: nat, p11: nat, p02: nat,
                               p30: nat, p21: nat, p12: nat, p03: nat)

  ghost predicate AreProducts(p: Products, us: seq<nat>, cs: seq<nat>)
    requires |us| == |cs| == 4
  {
    && p.p00 == us[0] * cs[0] && p.p10 == us[1] * cs[0] && p.p01 == us[0] * cs[1]
    && p.p20 == us[2] * cs[0] && p.p11 == us[1] * cs[1] && p.p02 == us[0] * cs[2]
    && p.p30 == us[3] * cs[0] && p.p21 == us[2] * cs[1] && p.p12 == us[1] * cs[2] && p.p03 == us[0] * cs[3]
  }

  /** The column sums of the unrolled product: `r1`, `r2`, `r3` are the
      accumulators, each fed by the high half of the one before. */
  ghost predicate AreColumnSums(b: nat, p: Products, r1: nat, r2: nat, r3: nat)
    requires b > 1
  {
    && r1 == Hi(b, p.p00) + Lo(b, p.p10) + Lo(b, p.p01)
    && r2 == Hi(b, r1) + Lo(b, p.p20) + Lo(b, p.p11) + Lo(b, p.p02) + Hi(b, p.p10) + Hi(b, p.p01)
    && r3 == Hi(b, r2) + Lo(b, p.p30) + Lo(b, p.p21) + Lo(b, p.p12) + Lo(b, p.p03)
           + Hi(b, p.p20) + Hi(b, p.p11) + Hi(b, p.p02)
  }

  lemma FourLimbColumns(b: nat, us: seq<nat>, cs: seq<nat>, p: Products, r1: nat, r2: nat, r3: nat)
    requires b > 1 && |us| == |cs| == 4 && AreProducts(p, us, cs) && AreColumnSums(b, p, r1, r2, r3)
    ensures IsLowProduct(Value(b, [Lo(b, p.p00), Lo(b, r1), Lo(b, r2), Lo(b, r3)]), Value(b, us), Value(b, cs), Pow(b, 4))
  {
    hide Value, Pow, IsLowProduct, Hi, AreColumnSums, AreProducts;
    var ws := [Lo(b, p.p00), Lo(b, r1), Lo(b, r2), Lo(b, r3)];
    HornerFour(b, us);
    HornerFour(b, cs);
    HornerFour(b, ws);
    ValueBound(b, ws);
    var s1, s2, s3, t := FourLimbProduct(b, Value(b, us), Value(b, cs), us, cs, p);
    var k := FourCarries(b, Value(b, us) * Value(b, cs), s1, s2, s3, t, p, r1, r2, r3);
    HornerRemainder(b, Value(b, ws), ws[0], ws[1], ws[2], ws[3], k, Value(b, us), Value(b, cs));
  }

  lemma FourLimbProduct(b: nat, x: nat, y: nat, us: seq<nat>, cs: seq<nat>, p: Products)
    returns (s1: int, s2: int, s3: int, t: int)
    requires |us| == |cs| == 4 && AreProducts(p, us, cs)
    requires x == us[0] + b * (us[1] + b * (us[2] + b * us[3])) && y == cs[0] + b * (cs[1] + b * (cs[2] + b * cs[3]))
    ensures x * y == p.p00 + b * s1 && s1 == p.p10 + p.p01 + b * s2
    ensures s2 == p.p20 + p.p11 + p.p02 + b * s3 && s3 == p.p30 + p.p21 + p.p12 + p.p03 + b * t
  {
    s1, s2, s3, t := FourProduct(b, x, y, us[0], us[1], us[2], us[3], cs[0], cs[1], cs[2], cs[3]);
  }

  lemma FourProduct(b: int, x: int, y: int, a0: int, a1: int, a2: int, a3: int, c0: int, c1: int, c2: int, c3: int)
    returns (s1: int, s2: int, s3: int, t: int)
    requires x == a0 + b * (a1 + b * (a2 + b * a3)) && y == c0 + b * (c1 + b * (c2 + b * c3))
    ensures x * y == a0 * c0 + b * s1 && s1 == a1 * c0 + a0 * c1 + b * s2
    ensures s2 == a2 * c0 + a1 * c1 + a0 * c2 + b * s3 && s3 == a3 * c0 + a2 * c1 + a1 * c2 + a0 * c3 + b * t
  {
    var x2, y2 := a2 + b * a3, c2 + b * c3;
    var x1, y1 := a1 + b * x2, c1 + b * y2;
    s1, s2, s3 := a0 * y1 + x1 * y, a0 * y2 + a1 * y1 + x2 * y, a0 * c3 + a1 * y2 + a2 * y1 + a3 * y;
    t := a1 * c3 + a2 * y2 + a3 * y1;
    FirstColumn(b, x, x1, y, y1, a0, c0);
    LowColumn(b, x1, x2, y, y1, y2, c0, c1, a0, a1);
    MiddleColumn(b, x2, y, y1, y2, c0, c1, c2, c3, a0, a1, a2, a3);
    TopColumn(b, y, y1, y2, c0, c1, c2, c3, a0, a1, a2, a3);
  }

  lemma FourCarries(b: nat, s0: int, s1: int, s2: int, s3: int, t: int, p: Products, r1: nat, r2: nat, r3: nat)
    returns (k: int)
    requires b > 1 && AreColumnSums(b, p, r1, r2, r3)
    requires s0 == p.p00 + b * s1 && s1 == p.p10 + p.p01 + b * s2
    requires s2 == p.p20 + p.p11 + p.p02 + b * s3 && s3 == p.p30 + p.p21 + p.p12 + p.p03 + b * t
    ensures s0 == Lo(b, p.p00) + b * (Lo(b, r1) + b * (Lo(b, r2) + b * (Lo(b, r3) + b * k)))
  {
    hide Lo, Hi;
    var h1, l1 := Hi(b, p.p10) + Hi(b, p.p01), Lo(b, p.p10) + Lo(b, p.p01);
    var h2, l2 := Hi(b, p.p20) + Hi(b, p.p11) + Hi(b, p.p02), Lo(b, p.p20) + Lo(b, p.p11) + Lo(b, p.p02);
    var h3 := Hi(b, p.p30) + Hi(b, p.p21) + Hi(b, p.p12) + Hi(b, p.p03);
    var l3 := Lo(b, p.p30) + Lo(b, p.p21) + Lo(b, p.p12) + Lo(b, p.p03);
    AddHalves(b, p.p10, p.p01, 0, 0);
    AddHalves(b, p.p20, p.p11, p.p02, 0);
    AddHalves(b, p.p30, p.p21, p.p12, p.p03);
    k := Hi(b, r3) + h3 + t;
    CarryChain(b, s0, s1, s2, s3, t, Hi(b, p.p00), Lo(b, p.p00), h1, l1, h2, l2, h3, l3,
               Hi(b, r1), Lo(b, r1), Hi(b, r2), Lo(b, r2), Hi(b, r3), Lo(b, r3));
  }

  lemma AddHalves(b: nat, x: nat, y: nat, z: nat, w: nat)
    requires b > 0
    ensures Hi(b, 0) == Lo(b, 0) == 0
    ensures x + y + z + w == Lo(b, x) + Lo(b, y) + Lo(b, z) + Lo(b, w) + (Hi(b, x) + Hi(b, y) + Hi(b, z) + Hi(b, w)) * b
  {
    DivModUnique(0, b, 0, 0);
    var hx, hy, hz, hw := Hi(b, x), Hi(b, y), Hi(b, z), Hi(b, w);
    assert (hx + hy + hz + hw) * b == hx * b + hy * b + hz * b + hw * b;
  }

  lemma CarryChain(b: int, s0: int, s1: int, s2: int, s3: int, t: int, h0: int, l0: int, h1: int, l1: int, h2: int, l2: int,
                   h3: int, l3: int, c1: int, w1: int, c2: int, w2: int, c3: int, w3: int)
    requires s0 == l0 + h0 * b + b * s1 && s1 == l1 + h1 * b + b * s2
    requires s2 == l2 + h2 * b + b * s3 && s3 == l3 + h3 * b + b * t
    requires h0 + l1 == c1 * b + w1 && c1 + h1 + l2 == c2 * b + w2 && c2 + h2 + l3 == c3 * b + w3
    ensures s0 == l0 + b * (w1 + b * (w2 + b * (w3 + b * (c3 + h3 + t))))
  {
    CarryColumn(b, h0, h1, l1, s2, c1, w1);
    CarryColumn(b, c1 + h1, h2, l2, s3, c2, w2);
    CarryColumn(b, c2 + h2, h3, l3, t, c3, w3);
    var u1, u2, u3 := c1 + h1 + s2, c2 + h2 + s3, c3 + h3 + t;
    assert h0 + s1 == w1 + b * u1 && u1 == w2 + b * u2 && u2 == w3 + b * u3;
  }

  /** The four-limb overload of `eval_multiply_n_by_n_to_lo_part`. Every read
      precedes the first write, so the ranges may overlap in any way. */
  method MultiplyLowFour(b: nat, r: array<nat>, ro: nat, a: array<nat>, ao: nat, c: array<nat>, co: nat)
    requires b >= 256
    requires ro + 4 <= r.Length && ao + 4 <= a.Length && co + 4 <= c.Length
    requires IsLimbs(b, a[ao..ao + 4]) && IsLimbs(b, c[co..co + 4])
    modifies r
    ensures IsLimbs(b, r[ro..ro + 4])
    ensures Value(b, r[ro..ro + 4]) == (old(Value(b, a[ao..ao + 4])) * old(Value(b, c[co..co + 4]))) % Pow(b, 4)
    ensures forall k :: 0 <= k < r.Length && !(ro <= k < ro + 4) ==> r[k] == old(r[k])
  {
    hide Value, Pow;
    ghost var us, cs := a[ao..ao + 4], c[co..co + 4];
    var a0, a1, a2, a3 := a[ao], a[ao + 1], a[ao + 2], a[ao + 3];
    var c0, c1, c2, c3 := c[co], c[co + 1], c[co + 2], c[co + 3];
    assert us == [a0, a1, a2, a3] && cs == [c0, c1, c2, c3];
    var w1, w2, w3 := FourLimbSums(b, a0, a1, a2, a3, c0, c1, c2, c3);
    r[ro], r[ro + 1], r[ro + 2], r[ro + 3] := Lo(b, a0 * c0), w1, w2, w3;
    assert r[ro..ro + 4] == [Lo(b, a0 * c0), w1, w2, w3];
  }

  /** The limb sums of the unrolled product, with its shortcut for factors that
      fill only their lower halves. */
  method FourLimbSums(b: nat, a0: nat, a1: nat, a2: nat, a3: nat, c0: nat, c1: nat, c2: nat, c3: nat)
    returns (w1: nat, w2: nat, w3: nat)
    requires b >= 256
    requires IsLimbs(b, [a0, a1, a2, a3]) && IsLimbs(b, [c0, c1, c2, c3])
    ensures w1 < b && w2 < b && w3 < b
    ensures IsLowProduct(Value(b, [Lo(b, a0 * c0), w1, w2, w3]), Value(b, [a0, a1, a2, a3]), Value(b, [c0, c1, c2, c3]), Pow(b, 4))
  {
    hide Value, Pow, IsLowProduct, AreColumnSums, AreProducts, Lo, Hi;
    var a0b0, a0b1, a1b0, a1b1 := a0 * c0, a0 * c1, a1 * c0, a1 * c1;
    ghost var us, cs := [a0, a1, a2, a3], [c0, c1, c2, c3];
    ghost var p := LimbProducts(us, cs);
    var r1, r2, r3;
    if a2 == 0 && c2 == 0 && a3 == 0 && c3 == 0 {
      r1 := Hi(b, a0b0) + Lo(b, a1b0) + Lo(b, a0b1);
      r2 := Hi(b, r1) + Lo(b, a1b1) + Hi(b, a0b1) + Hi(b, a1b0);
      r3 := Hi(b, r2) + Hi(b, a1b1);
      ShortColumnSums(b, p, r1, r2, r3);
    } else {
      var a0b2, a2b0 := a0 * c2, a2 * c0;
      r1 := Hi(b, a0b0) + Lo(b, a1b0) + Lo(b, a0b1);
      r2 := Hi(b, r1) + Lo(b, a2b0) + Lo(b, a1b1) + Lo(b, a0b2) + Hi(b, a1b0) + Hi(b, a0b1);
      r3 := Hi(b, r2) + Lo(b, a3 * c0) + Lo(b, a2 * c1) + Lo(b, a1 * c2) + Lo(b, a0 * c3)
          + Hi(b, a2b0) + Hi(b, a1b1) + Hi(b, a0b2);
      ColumnSums(b, p, r1, r2, r3);
    }
    SumsFit(b, us, cs, p, r1, r2, r3);
    FourLimbColumns(b, us, cs, p, r1, r2, r3);
    w1, w2, w3 := Lo(b, r1), Lo(b, r2), Lo(b, r3);
  }

  lemma LimbProducts(us: seq<nat>, cs: seq<nat>) returns (p: Products)
    requires |us| == |cs| == 4
    ensures AreProducts(p, us, cs)
    ensures p == Products(us[0] * cs[0], us[1] * cs[0], us[0] * cs[1], us[2] * cs[0], us[1] * cs[1], us[0] * cs[2],
                          us[3] * cs[0], us[2] * cs[1], us[1] * cs[2], us[0] * cs[3])
  {
    p := Products(us[0] * cs[0], us[1] * cs[0], us[0] * cs[1], us[2] * cs[0], us[1] * cs[1], us[0] * cs[2],
                  us[3] * cs[0], us[2] * cs[1], us[1] * cs[2], us[0] * cs[3]);
  }

  lemma ColumnSums(b: nat, p: Products, r1: nat, r2: nat, r3: nat)
    requires b > 1
    requires r1 == Hi(b, p.p00) + Lo(b, p.p10) + Lo(b, p.p01)
    requires r2 == Hi(b, r1) + Lo(b, p.p20) + Lo(b, p.p11) + Lo(b, p.p02) + Hi(b, p.p10) + Hi(b, p.p01)
    requires r3 == Hi(b, r2) + Lo(b, p.p30) + Lo(b, p.p21) + Lo(b, p.p12) + Lo(b, p.p03)
                 + Hi(b, p.p20) + Hi(b, p.p11) + Hi(b, p.p02)
    ensures AreColumnSums(b, p, r1, r2, r3)
  {
  }

  /** With empty upper halves the remaining products are zero. */
  lemma ShortColumnSums(b: nat, p: Products, r1: nat, r2: nat, r3: nat)
    requires b > 1 && p.p20 == p.p02 == p.p30 == p.p21 == p.p12 == p.p03 == 0
    requires r1 == Hi(b, p.p00) + Lo(b, p.p10) + Lo(b, p.p01)
    requires r2 == Hi(b, r1) + Lo(b, p.p11) + Hi(b, p.p01) + Hi(b, p.p10)
    requires r3 == Hi(b, r2) + Hi(b, p.p11)
    ensures AreColumnSums(b, p, r1, r2, r3)
  {
    hide Lo, Hi;
    AddHalves(b, 0, 0, 0, 0);
  }

  /** The first two accumulators fit the double limb; the third is only used
      modulo b. */
  lemma SumsFit(b: nat, us: seq<nat>, cs: seq<nat>, p: Products, r1: nat, r2: nat, r3: nat)
    requires b >= 256 && |us| == |cs| == 4 && IsLimbs(b, us) && IsLimbs(b, cs)
    requires AreProducts(p, us, cs) && AreColumnSums(b, p, r1, r2, r3)
    ensures r1 < b * b && r2 < b * b
  {
    hide Lo, Hi;
    DoubleLimbFits(b, us[0], cs[0], 0, 0);
    DoubleLimbFits(b, us[1], cs[0], 0, 0);
    DoubleLimbFits(b, us[0], cs[1], 0, 0);
    HiBound(b, p.p00, b);
    HiBound(b, p.p10, b);
    HiBound(b, p.p01, b);
    HiBound(b, r1, 3);
    MulMonotone(256, b, b);
  }
}
