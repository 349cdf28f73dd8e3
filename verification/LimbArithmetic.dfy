/**
  The carry and borrow loops of `uintwide_t` over limb ranges. A range is an
  array with an offset, as the iterators of the source are; the base `b` is
  2^digits of the limb type. Sums and products are computed in a double limb
  (values below b*b) and split by `Lo` and `Hi`.
 */
module LimbArithmetic {
  import opened Powers
  import opened Limbs

  function Lo(b: nat, x: nat): (r: nat)
    requires b > 0
    ensures r < b && Hi(b, x) * b + r == x
  {
    x % b
  }

  function Hi(b: nat, x: nat): nat
    requires b > 0
  {
    x / b
  }

  lemma HiBound(b: nat, x: nat, k: nat)
    requires b > 0 && x < k * b
    ensures Hi(b, x) < k
  {
    if x / b >= k {
      MulMonotone(k, x / b, b);
    }
  }

  /** Two equal-length ranges may be read and overwritten by the same ascending
      loop when they coincide or do not meet. */
  predicate Compatible(r: array<nat>, ro: nat, u: array<nat>, uo: nat, n: nat) {
    r != u || ro == uo || ro + n <= uo || uo + n <= ro
  }

  /** One digit of a carry chain: digits `x` and `y` at weight b^i give the
      digit `w`, and the carry moves from `c` to `c'`. */
  lemma CarryStep(b: nat, i: nat, us: seq<nat>, vs: seq<nat>, done: seq<nat>, c: nat, c': nat, w: nat, c0: nat)
    requires i == |done| < |us| == |vs|
    requires us[i] + vs[i] + c == c' * b + w
    requires Value(b, done) + c * Pow(b, i) == Value(b, us[..i]) + Value(b, vs[..i]) + c0
    ensures Value(b, done + [w]) + c' * Pow(b, i + 1) == Value(b, us[..i + 1]) + Value(b, vs[..i + 1]) + c0
  {
    ValuePrefixes(b, i, us, vs, done, w);
    DigitAlgebra(Pow(b, i), us[i], vs[i], c, c', w, b);
  }

  lemma BorrowStep(b: nat, i: nat, us: seq<nat>, vs: seq<nat>, done: seq<nat>, c: nat, c': nat, w: nat, c0: nat)
    requires i == |done| < |us| == |vs|
    requires us[i] + c' * b == w + vs[i] + c
    requires Value(b, done) + Value(b, vs[..i]) + c0 == Value(b, us[..i]) + c * Pow(b, i)
    ensures Value(b, done + [w]) + Value(b, vs[..i + 1]) + c0 == Value(b, us[..i + 1]) + c' * Pow(b, i + 1)
  {
    ValuePrefixes(b, i, us, vs, done, w);
    DigitAlgebra(Pow(b, i), w, vs[i], c, c', us[i], b);
  }

  lemma ValuePrefixes(b: nat, i: nat, us: seq<nat>, vs: seq<nat>, done: seq<nat>, w: nat)
    requires i == |done| < |us| == |vs|
    ensures Value(b, done + [w]) == Value(b, done) + w * Pow(b, i)
    ensures Value(b, us[..i + 1]) == Value(b, us[..i]) + us[i] * Pow(b, i)
    ensures Value(b, vs[..i + 1]) == Value(b, vs[..i]) + vs[i] * Pow(b, i)
  {
    assert us[..i + 1] == us[..i] + [us[i]] && vs[..i + 1] == vs[..i] + [vs[i]];
    ValueSnoc(b, done, w);
    ValueSnoc(b, us[..i], us[i]);
    ValueSnoc(b, vs[..i], vs[i]);
  }

  lemma DigitAlgebra(p: int, x: int, y: int, c: int, c': int, w: int, b: int)
    requires x + y + c == c' * b + w
    ensures x * p + y * p + c * p == c' * (p * b) + w * p
  {
    assert (x + y + c) * p == (c' * b + w) * p;
  }

  method AddN(b: nat, r: array<nat>, ro: nat, u: array<nat>, uo: nat, v: array<nat>, vo: nat, n: nat, carryIn: nat)
    returns (carry: nat)
    requires b > 1 && carryIn <= 1
    requires ro + n <= r.Length && uo + n <= u.Length && vo + n <= v.Length
    requires IsLimbs(b, u[uo..uo + n]) && IsLimbs(b, v[vo..vo + n])
    requires Compatible(r, ro, u, uo, n) && Compatible(r, ro, v, vo, n)
    modifies r
    ensures carry <= 1 && IsLimbs(b, r[ro..ro + n])
    ensures Value(b, r[ro..ro + n]) + carry * Pow(b, n)
         == old(Value(b, u[uo..uo + n])) + old(Value(b, v[vo..vo + n])) + carryIn
    ensures forall k :: 0 <= k < r.Length && !(ro <= k < ro + n) ==> r[k] == old(r[k])
  {
    hide Value, Pow;
    ValueEmpty(b);
    carry := carryIn;
    ghost var us, vs := u[uo..uo + n], v[vo..vo + n];
    ghost var done: seq<nat> := [];
    assert us[..0] == [] && vs[..0] == [];
    for i := 0 to n
      invariant carry <= 1 && |done| == i && IsLimbs(b, done)
      invariant forall k :: ro <= k < ro + i ==> r[k] == done[k - ro]
      invariant forall k :: uo + i <= k < uo + n ==> u[k] == us[k - uo]
      invariant forall k :: vo + i <= k < vo + n ==> v[k] == vs[k - vo]
      invariant Value(b, done) + carry * Pow(b, i) == Value(b, us[..i]) + Value(b, vs[..i]) + carryIn
      invariant forall k :: 0 <= k < r.Length && !(ro <= k < ro + n) ==> r[k] == old(r[k])
    {
      var uv := u[uo + i] + v[vo + i] + carry;
      HiBound(b, uv, 2);
      CarryStep(b, i, us, vs, done, carry, Hi(b, uv), Lo(b, uv), carryIn);
      carry := Hi(b, uv);
      r[ro + i] := Lo(b, uv);
      done := done + [Lo(b, uv)];
    }
    assert r[ro..ro + n] == done && us[..n] == us && vs[..n] == vs;
  }

  /** One digit of `SubtractN`: the difference wraps modulo b*b in the double
      limb, and a non-zero high half is the borrow. */
  method SubtractDigit(b: nat, x: nat, y: nat, borrow: nat) returns (w: nat, out: nat)
    requires b > 1 && x < b && y < b && borrow <= 1
    ensures out <= 1 && w < b && x + out * b == w + y + borrow
  {
    var d := x - y - borrow;
    var uv := if d < 0 then b * b + d else d;
    MulMonotone(1, b, b);
    DivModUnique(uv, b, if d < 0 then b - 1 else 0, if d < 0 then d + b else d);
    out := if Hi(b, uv) != 0 then 1 else 0;
    w := Lo(b, uv);
  }

  method SubtractN(b: nat, r: array<nat>, ro: nat, u: array<nat>, uo: nat, v: array<nat>, vo: nat, n: nat, borrowIn: bool)
    returns (borrow: bool)
    requires b > 1
    requires ro + n <= r.Length && uo + n <= u.Length && vo + n <= v.Length
    requires IsLimbs(b, u[uo..uo + n]) && IsLimbs(b, v[vo..vo + n])
    requires Compatible(r, ro, u, uo, n) && Compatible(r, ro, v, vo, n)
    modifies r
    ensures IsLimbs(b, r[ro..ro + n])
    ensures Value(b, r[ro..ro + n]) + old(Value(b, v[vo..vo + n])) + (if borrowIn then 1 else 0)
         == old(Value(b, u[uo..uo + n])) + (if borrow then Pow(b, n) else 0)
    ensures forall k :: 0 <= k < r.Length && !(ro <= k < ro + n) ==> r[k] == old(r[k])
  {
    hide Value, Pow;
    ValueEmpty(b);
    var bout: nat := if borrowIn then 1 else 0;
    ghost var us, vs, bin := u[uo..uo + n], v[vo..vo + n], bout;
    ghost var done: seq<nat> := [];
    assert us[..0] == [] && vs[..0] == [];
    for i := 0 to n
      invariant bout <= 1 && |done| == i && IsLimbs(b, done)
      invariant forall k :: ro <= k < ro + i ==> r[k] == done[k - ro]
      invariant forall k :: uo + i <= k < uo + n ==> u[k] == us[k - uo]
      invariant forall k :: vo + i <= k < vo + n ==> v[k] == vs[k - vo]
      invariant Value(b, done) + Value(b, vs[..i]) + bin == Value(b, us[..i]) + bout * Pow(b, i)
      invariant forall k :: 0 <= k < r.Length && !(ro <= k < ro + n) ==> r[k] == old(r[k])
    {
      var w, next := SubtractDigit(b, u[uo + i], v[vo + i], bout);
      BorrowStep(b, i, us, vs, done, bout, next, w, bin);
      bout := next;
      r[ro + i] := w;
      done := done + [w];
    }
    borrow := bout != 0;
    assert r[ro..ro + n] == done && us[..n] == us && vs[..n] == vs;
  }


  /** Replacing the low limbs of a range moves its value by the same amount. */
  lemma PrefixShift(b: nat, s: seq<nat>, s': seq<nat>, rest: seq<nat>)
    requires |s| == |s'|
    ensures Value(b, s' + rest) - Value(b, s + rest) == Value(b, s') - Value(b, s)
  {
    ValueConcat(b, s, rest);
    ValueConcat(b, s', rest);
  }

  /** `eval_multiply_kara_propagate_carry`. */
  method PropagateCarry(b: nat, t: array<nat>, to: nat, n: nat, carryIn: nat)
    requires b > 1 && carryIn <= 1 && to + n <= t.Length && IsLimbs(b, t[to..to + n])
    modifies t
    ensures IsLimbs(b, t[to..to + n])
    ensures || Value(b, t[to..to + n]) == old(Value(b, t[to..to + n])) + carryIn
            || Value(b, t[to..to + n]) + Pow(b, n) == old(Value(b, t[to..to + n])) + carryIn
    ensures forall k :: 0 <= k < t.Length && !(to <= k < to + n) ==> t[k] == old(t[k])
  {
    hide Value, Pow;
    var i := 0;
    var carry: nat := carryIn;
    ghost var us, zs: seq<nat> := t[to..to + n], seq(n, _ => 0);
    ghost var done: seq<nat> := [];
    ValueEmpty(b);
    assert us[..0] == [] && zs[..0] == [];
    while i < n && carry != 0
      invariant 0 <= i <= n && carry <= 1 && |done| == i && IsLimbs(b, done)
      invariant forall k :: to <= k < to + i ==> t[k] == done[k - to]
      invariant forall k :: to + i <= k < to + n ==> t[k] == us[k - to]
      invariant Value(b, done) + carry * Pow(b, i) == Value(b, us[..i]) + Value(b, zs[..i]) + carryIn
      invariant forall k :: 0 <= k < t.Length && !(to <= k < to + n) ==> t[k] == old(t[k])
    {
      var uv := t[to + i] + carry;
      HiBound(b, uv, 2);
      CarryStep(b, i, us, zs, done, carry, Hi(b, uv), Lo(b, uv), carryIn);
      carry := Hi(b, uv);
      t[to + i] := Lo(b, uv);
      done := done + [Lo(b, uv)];
      i := i + 1;
    }
    ValueZeros(b, zs[..i]);
    assert t[to..to + n] == done + us[i..] && us == us[..i] + us[i..];
    LimbsConcat(b, us[..i], us[i..]);
    LimbsConcat(b, done, us[i..]);
    PrefixShift(b, us[..i], done, us[i..]);
    assert carry != 0 ==> carry == 1 && i == n;
    assert carry * Pow(b, i) == if carry == 0 then 0 else Pow(b, n);
  }

  /** `eval_multiply_kara_propagate_borrow`. */
  method PropagateBorrow(b: nat, t: array<nat>, to: nat, n: nat, borrowIn: bool)
    requires b > 1 && to + n <= t.Length && IsLimbs(b, t[to..to + n])
    modifies t
    ensures IsLimbs(b, t[to..to + n])
    ensures var bin := if borrowIn then 1 else 0;
            || Value(b, t[to..to + n]) + bin == old(Value(b, t[to..to + n]))
            || Value(b, t[to..to + n]) + bin == old(Value(b, t[to..to + n])) + Pow(b, n)
    ensures forall k :: 0 <= k < t.Length && !(to <= k < to + n) ==> t[k] == old(t[k])
  {
    hide Value, Pow;
    var i, borrow := 0, borrowIn;
    ghost var bin: nat, bout: nat := if borrowIn then 1 else 0, if borrowIn then 1 else 0;
    ghost var us, zs: seq<nat> := t[to..to + n], seq(n, _ => 0);
    ghost var done: seq<nat> := [];
    ValueEmpty(b);
    assert us[..0] == [] && zs[..0] == [];
    while i < n && borrow
      invariant 0 <= i <= n && bout == (if borrow then 1 else 0) && |done| == i && IsLimbs(b, done)
      invariant forall k :: to <= k < to + i ==> t[k] == done[k - to]
      invariant forall k :: to + i <= k < to + n ==> t[k] == us[k - to]
      invariant Value(b, done) + Value(b, zs[..i]) + bin == Value(b, us[..i]) + bout * Pow(b, i)
      invariant forall k :: 0 <= k < t.Length && !(to <= k < to + n) ==> t[k] == old(t[k])
    {
      var w, next := SubtractDigit(b, t[to + i], 0, 1);
      BorrowStep(b, i, us, zs, done, bout, next, w, bin);
      borrow, bout := next != 0, next;
      t[to + i] := w;
      done := done + [w];
      i := i + 1;
    }
    ValueZeros(b, zs[..i]);
    assert t[to..to + n] == done + us[i..] && us == us[..i] + us[i..];
    LimbsConcat(b, us[..i], us[i..]);
    LimbsConcat(b, done, us[i..]);
    PrefixShift(b, us[..i], done, us[i..]);
    assert bout * Pow(b, i) == if borrow then Pow(b, n) else 0;
  }

  /** The first differing limb from the top decides the order of two values. */
  lemma CompareAt(b: nat, us: seq<nat>, vs: seq<nat>, i: nat)
    requires b > 0 && |us| == |vs| && i < |us| && IsLimbs(b, us) && IsLimbs(b, vs)
    requires us[i + 1..] == vs[i + 1..] && us[i] < vs[i]
    ensures Value(b, us) < Value(b, vs)
  {
    hide Value, Pow;
    assert us == us[..i] + [us[i]] + us[i + 1..] && vs == vs[..i] + [vs[i]] + vs[i + 1..];
    PrefixShift(b, us[..i] + [us[i]], vs[..i] + [vs[i]], us[i + 1..]);
    ValueSnoc(b, us[..i], us[i]);
    ValueSnoc(b, vs[..i], vs[i]);
    ValueBound(b, us[..i]);
    MulMonotone(us[i] + 1, vs[i], Pow(b, i));
  }

  /** `compare_ranges`: 1, 0 or -1 as the first value is above, equal or below. */
  method CompareRanges(b: nat, u: array<nat>, uo: nat, v: array<nat>, vo: nat, n: nat) returns (sign: int)
    requires b > 1 && uo + n <= u.Length && vo + n <= v.Length
    requires IsLimbs(b, u[uo..uo + n]) && IsLimbs(b, v[vo..vo + n])
    ensures -1 <= sign <= 1
    ensures sign == 1 <==> Value(b, u[uo..uo + n]) > Value(b, v[vo..vo + n])
    ensures sign == -1 <==> Value(b, u[uo..uo + n]) < Value(b, v[vo..vo + n])
  {
    hide Value, Pow;
    ghost var us, vs := u[uo..uo + n], v[vo..vo + n];
    var i := n;
    while i > 0
      invariant 0 <= i <= n && us[i..] == vs[i..]
    {
      i := i - 1;
      assert us[i] == u[uo + i] && vs[i] == v[vo + i];
      if u[uo + i] != v[vo + i] {
        if u[uo + i] > v[vo + i] {
          CompareAt(b, vs, us, i);
          return 1;
        }
        CompareAt(b, us, vs, i);
        return -1;
      }
      assert us[i..] == [us[i]] + us[i + 1..] && vs[i..] == [vs[i]] + vs[i + 1..];
    }
    assert us == vs;
    sign := 0;
  }
}
