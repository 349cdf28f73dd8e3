/** `shl` and `shr` on the limbs of a wide integer. */
module Shifts {
  import opened Powers
  import opened Limbs
  import opened LimbArithmetic
  import opened Multiplication
  import opened KnuthDivision
  import opened SignedDivision
  import opened Bits

  /** t << s in a limb. */
  function LimbShiftLeft(digits: nat, t: nat, s: nat): nat {
    t * Pow(2, s) % Pow(2, digits)
  }

  function LimbShiftRight(t: nat, s: nat): nat {
    t / Pow(2, s)
  }

  lemma SplitBase(digits: nat, s: nat)
    requires s <= digits
    ensures Pow(2, digits) == Pow(2, digits - s) * Pow(2, s) && Pow(2, s) > 0 && Pow(2, digits - s) > 0
  {
    PowAdd(2, digits - s, s);
  }

  /** Moving `s` bits up out of a limb: what stays has its low s bits clear. */
  lemma ShiftedUp(digits: nat, t: nat, s: nat)
    requires s <= digits && t < Pow(2, digits)
    ensures var high, low := LimbShiftRight(t, digits - s), LimbShiftLeft(digits, t, s);
      && t * Pow(2, s) == high * Pow(2, digits) + low
      && high < Pow(2, s) && low == t % Pow(2, digits - s) * Pow(2, s)
  {
    var p, q := Pow(2, digits - s), Pow(2, s);
    SplitBase(digits, s);
    hide Pow;
    ShiftedUpValues(p, q, t);
  }

  lemma ShiftedUpValues(p: nat, q: nat, t: nat)
    requires p > 0 && q > 0 && t < p * q
    ensures t * q == t / p * (p * q) + t * q % (p * q) && t / p < q && t * q % (p * q) == t % p * q
  {
    var k, r := t / p, t % p;
    assert t == k * p + r;
    ShiftedUpParts(p, q, k, r);
  }

  lemma ShiftedUpParts(p: nat, q: nat, k: nat, r: nat)
    requires q > 0 && r < p && k * p + r < p * q
    ensures var t := k * p + r; t * q == k * (p * q) + r * q && t * q % (p * q) == r * q && k < q
  {
    ScaledRemainder(p, q, k, r);
    DivModUnique((k * p + r) * q, p * q, k, r * q);
    if k >= q {
      MulMonotone(q, k, p);
    }
  }

  lemma ScaledRemainder(p: nat, q: nat, k: nat, r: nat)
    requires q > 0 && r < p
    ensures (k * p + r) * q == k * (p * q) + r * q && 0 <= r * q < p * q
  {
    MulMonotone(r + 1, p, q);
  }

  /** One limb of `shl`. */
  method ShiftLimbUp(digits: nat, t: nat, s: nat, part: nat) returns (limb: nat, next: nat)
    requires 0 < s < digits && t < Pow(2, digits) && part < Pow(2, s)
    ensures limb < Pow(2, digits) && next < Pow(2, s) && Pow(2, s) * t + part == next * Pow(2, digits) + limb
  {
    hide Pow, LimbShiftLeft, LimbShiftRight, Or;
    ShiftedUp(digits, t, s);
    JoinedUp(digits, t, s, part);
    limb := Or(LimbShiftLeft(digits, t, s), part);
    next := LimbShiftRight(t, digits - s);
  }

  /** The bits moved in from below fill the places left clear. */
  lemma JoinedUp(digits: nat, t: nat, s: nat, part: nat)
    requires 0 < s < digits && t < Pow(2, digits) && part < Pow(2, s)
    ensures Or(LimbShiftLeft(digits, t, s), part) == LimbShiftLeft(digits, t, s) + part < Pow(2, digits)
  {
    ShiftedUp(digits, t, s);
    SplitBase(digits, s);
    var p, q := Pow(2, digits - s), Pow(2, s);
    AndLow(t % p, s, part);
    hide Pow;
    LimbRoom(t % p, p, q, part);
  }

  lemma LimbRoom(k: nat, p: nat, q: nat, part: nat)
    requires k < p && part < q
    ensures k * q + part < p * q
  {
    MulMonotone(k + 1, p, q);
  }

  /** The bit loop of `shl` from limb `offset` on: multiplication by 2^s, the
      last carry dropped. */
  method ShiftBitsUp(digits: nat, values: array<nat>, offset: nat, s: nat) returns (ghost carry: nat)
    requires 0 < s < digits && offset <= values.Length && IsLimbs(Pow(2, digits), values[offset..])
    modifies values
    ensures IsLimbs(Pow(2, digits), values[offset..])
    ensures forall k :: 0 <= k < offset ==> values[k] == old(values[k])
    ensures Value(Pow(2, digits), values[offset..]) + carry * Pow(Pow(2, digits), values.Length - offset)
         == Pow(2, s) * old(Value(Pow(2, digits), values[offset..]))
  {
    hide Value, Pow;
    var part: nat := 0;
    ghost var b, x, n := Pow(2, digits), Pow(2, s), values.Length - offset;
    ghost var us, zs: seq<nat>, done: seq<nat> := values[offset..], seq(n, _ => 0), [];
    SplitBase(digits, s);
    ValueEmpty(b);
    assert zs[..0] == [] && us[..0] == [];
    for i := offset to values.Length
      invariant part < x && |done| == i - offset && IsLimbs(b, done)
      invariant forall k :: 0 <= k < offset ==> values[k] == old(values[k])
      invariant forall k :: offset <= k < i ==> values[k] == done[k - offset]
      invariant forall k :: i <= k < values.Length ==> values[k] == us[k - offset]
      invariant Value(b, done) + part * Pow(b, i - offset) == Value(b, zs[..i - offset]) + x * Value(b, us[..i - offset])
    {
      var limb, next := ShiftLimbUp(digits, values[i], s, part);
      ProductStep(b, i - offset, zs, us, done, x, part, next, limb);
      values[i] := limb;
      part := next;
      done := done + [limb];
    }
    assert values[offset..] == done && zs[..n] == zs && us[..n] == us;
    ValueZeros(b, zs);
    carry := part;
  }

  /** The limb moves of `shl`. */
  method MoveLimbsUp(values: array<nat>, offset: nat)
    requires offset <= values.Length
    modifies values
    ensures values[..] == seq(offset, _ => 0) + old(values[..values.Length - offset])
  {
    ghost var us := values[..];
    var i := values.Length;
    while i > offset
      invariant offset <= i <= values.Length
      invariant forall k :: i <= k < values.Length ==> values[k] == us[k - offset]
      invariant forall k :: 0 <= k < i ==> values[k] == us[k]
    {
      i := i - 1;
      values[i] := values[i - offset];
    }
    for j := 0 to offset
      invariant forall k :: 0 <= k < j ==> values[k] == 0
      invariant forall k :: offset <= k < values.Length ==> values[k] == us[k - offset]
    {
      values[j] := 0;
    }
  }

  /** The amount in whole limbs and bits; all limbs from the width on. */
  lemma ShiftAmount(digits: nat, count: nat, n: nat)
    requires digits > 0
    ensures var offset := if n / digits < count then n / digits else count;
      offset == n / digits ==> Pow(2, n) == Pow(Pow(2, digits), offset) * Pow(2, n % digits)
    ensures n / digits >= count ==> Pow(2, n) % Pow(Pow(2, digits), count) == 0 && Pow(Pow(2, digits), count) > 0
  {
    hide Pow;
    var q, s := n / digits, n % digits;
    assert n == digits * q + s;
    PowPow(2, digits, q);
    PowAdd(2, digits * q, s);
    if q >= count {
      PowPow(2, digits, count);
      MulMonotone(count, q, digits);
      PowAdd(2, digits * count, n - digits * count);
      PowPositive(2, digits * count);
      DivModUnique(Pow(2, n), Pow(2, digits * count), Pow(2, n - digits * count), 0);
    }
  }

  /** `shl`: multiplication by 2^n modulo 2^width, whatever the amount. */
  method ShiftLeft(digits: nat, values: array<nat>, n: nat)
    requires digits > 0 && IsLimbs(Pow(2, digits), values[..])
    modifies values
    ensures IsLimbs(Pow(2, digits), values[..]) && Pow(Pow(2, digits), values.Length) > 0
    ensures Value(Pow(2, digits), values[..]) == old(Value(Pow(2, digits), values[..])) * Pow(2, n) % Pow(Pow(2, digits), values.Length)
  {
    hide Value, Pow;
    ghost var us, count := values[..], values.Length;
    var offset := if n / digits < values.Length then n / digits else values.Length;
    var s := n % digits;
    ghost var low := us[..count - offset];
    if offset > 0 {
      MoveLimbsUp(values, offset);
    } else {
      assert seq(0, _ => 0) + us[..count] == us;
    }
    ghost var carry: nat := 0;
    assert values[offset..] == low && values[..offset] == seq(offset, _ => 0);
    NoBitShift(Value(Pow(2, digits), low));
    if s != 0 {
      carry := ShiftBitsUp(digits, values, offset, s);
    }
    assert values[..offset] == seq(offset, _ => 0);
    assert values[..] == values[..offset] + values[offset..];
    ShiftTotal(digits, us, values[..offset], values[offset..], n, carry);
  }

  lemma NoBitShift(v: nat)
    ensures Pow(2, 0) * v == v
  {
  }

  /** The shifted limbs, zeros below, stand for the number times 2^n modulo 2^width. */
  lemma ShiftTotal(digits: nat, us: seq<nat>, zeros: seq<nat>, vs: seq<nat>, n: nat, carry: nat)
    requires digits > 0 && |us| == |zeros| + |vs| && IsLimbs(Pow(2, digits), us) && IsLimbs(Pow(2, digits), vs)
    requires |zeros| == (if n / digits < |us| then n / digits else |us|) && forall k :: 0 <= k < |zeros| ==> zeros[k] == 0
    requires Value(Pow(2, digits), vs) + carry * Pow(Pow(2, digits), |vs|) == Pow(2, n % digits) * Value(Pow(2, digits), us[..|vs|])
    ensures IsLimbs(Pow(2, digits), zeros + vs) && Pow(Pow(2, digits), |us|) > 0
    ensures Value(Pow(2, digits), zeros + vs) == Value(Pow(2, digits), us) * Pow(2, n) % Pow(Pow(2, digits), |us|)
  {
    hide Value, Pow;
    var b := Pow(2, digits);
    PowPositive(2, digits);
    LimbsConcat(b, zeros, vs);
    ValueBound(b, zeros + vs);
    ShiftAmount(digits, |us|, n);
    if n / digits < |us| {
      ShiftedWithin(b, us, zeros, vs, Pow(2, n % digits), carry);
      DivModUnique(Value(b, us) * Pow(2, n), Pow(b, |us|), carry + Pow(2, n % digits) * Value(b, us[|vs|..]), Value(b, zeros + vs));
    } else {
      ValueZeros(b, zeros + vs);
      AllShiftedOut(Value(b, us), Pow(2, n), Pow(b, |us|));
    }
  }

  lemma ShiftedWithin(b: nat, us: seq<nat>, zeros: seq<nat>, vs: seq<nat>, x: nat, carry: nat)
    requires |us| == |zeros| + |vs| && forall k :: 0 <= k < |zeros| ==> zeros[k] == 0
    requires Value(b, vs) + carry * Pow(b, |vs|) == x * Value(b, us[..|vs|])
    ensures Value(b, us) * (Pow(b, |zeros|) * x) == (carry + x * Value(b, us[|vs|..])) * Pow(b, |us|) + Value(b, zeros + vs)
  {
    hide Value, Pow;
    var low, high := us[..|vs|], us[|vs|..];
    assert us == low + high;
    ValueConcat(b, low, high);
    ValueConcat(b, zeros, vs);
    ValueZeros(b, zeros);
    PowAdd(b, |zeros|, |vs|);
    ShiftAlgebra(Pow(b, |zeros|), Pow(b, |vs|), x, Value(b, vs), Value(b, low), Value(b, high), carry);
  }

  lemma ShiftAlgebra(p: int, q: int, x: int, v: int, low: int, high: int, carry: int)
    requires v + carry * q == x * low
    ensures (low + q * high) * (p * x) == (carry + x * high) * (p * q) + p * v
  {
    assert (low + q * high) * (p * x) == p * (x * low) + x * high * (p * q);
    assert p * (v + carry * q) == p * v + carry * (p * q);
  }

  lemma AllShiftedOut(u: nat, power: nat, m: nat)
    requires m > 0 && power % m == 0
    ensures u * power % m == 0
  {
    var k := power / m;
    assert power == k * m;
    assert u * power == (u * k) * m;
    DivModUnique(u * power, m, u * k, 0);
  }

  // Right shifts.

  /** One limb of `shr`: the s bits of the limb above come in at the top. */
  method ShiftLimbDown(digits: nat, t: nat, s: nat, part: nat, ghost r: nat) returns (limb: nat, next: nat)
    requires 0 < s < digits && t < Pow(2, digits) && r < Pow(2, s) && part == r * Pow(2, digits - s)
    ensures limb < Pow(2, digits) && next == t % Pow(2, s) * Pow(2, digits - s)
    ensures t + r * Pow(2, digits) == Pow(2, s) * limb + t % Pow(2, s) && t % Pow(2, s) < Pow(2, s)
  {
    hide Pow, LimbShiftLeft, LimbShiftRight, Or;
    JoinedDown(digits, t, s, r);
    limb := Or(LimbShiftRight(t, s), part);
    next := LimbShiftLeft(digits, t, digits - s);
  }

  lemma JoinedDown(digits: nat, t: nat, s: nat, r: nat)
    requires 0 < s < digits && t < Pow(2, digits) && r < Pow(2, s)
    ensures var limb := Or(LimbShiftRight(t, s), r * Pow(2, digits - s));
      && 0 <= limb < Pow(2, digits) && t % Pow(2, s) < Pow(2, s)
      && t + r * Pow(2, digits) == Pow(2, s) * limb + t % Pow(2, s)
    ensures LimbShiftLeft(digits, t, digits - s) == t % Pow(2, s) * Pow(2, digits - s)
  {
    hide Pow, Or, LimbShiftLeft, LimbShiftRight;
    ShiftedUp(digits, t, digits - s);
    SplitBase(digits, s);
    LimbQuotient(digits, t, s);
    var p, q, k := Pow(2, digits - s), Pow(2, s), LimbShiftRight(t, s);
    DisjointBits(digits - s, r, k, p);
    DownValues(p, q, t, r, k, t % q);
  }

  lemma LimbQuotient(digits: nat, t: nat, s: nat)
    requires s <= digits && t < Pow(2, digits)
    ensures Pow(2, s) > 0 && LimbShiftRight(t, s) < Pow(2, digits - s)
    ensures t == Pow(2, s) * LimbShiftRight(t, s) + t % Pow(2, s) && t % Pow(2, s) < Pow(2, s)
  {
    SplitBase(digits, s);
    hide Pow;
    QuotientFits(Pow(2, digits - s), Pow(2, s), t);
  }

  lemma DisjointBits(n: nat, r: nat, k: nat, p: nat)
    requires p == Pow(2, n) && k < p
    ensures Or(k, r * p) == k + r * p
  {
    AndLow(r, n, k);
    AndSymmetric(k, r * p);
  }

  lemma DownValues(p: nat, q: nat, t: nat, r: nat, k: nat, rest: nat)
    requires t == q * k + rest && k < p && r < q
    ensures k + r * p < p * q && t + r * (p * q) == q * (k + r * p) + rest
  {
    LimbRoom(r, q, p, k);
    assert q * (k + r * p) == q * k + r * (p * q);
  }

  lemma {:induction false} AndSymmetric(x: nat, y: nat)
    ensures And(x, y) == And(y, x)
  {
    if x > 0 && y > 0 {
      AndSymmetric(x / 2, y / 2);
      assert (x % 2) * (y % 2) == (y % 2) * (x % 2);
    }
  }

  /** The bit loop of `shr` on the low `count` limbs, bits `r` coming in at the
      top: division by 2^s. */
  method ShiftBitsDown(digits: nat, values: array<nat>, count: nat, s: nat, ghost r: nat, part0: nat) returns (ghost rest: nat)
    requires 0 < s < digits && count <= values.Length && IsLimbs(Pow(2, digits), values[..count])
    requires r < Pow(2, s) && part0 == r * Pow(2, digits - s)
    modifies values
    ensures IsLimbs(Pow(2, digits), values[..count]) && rest < Pow(2, s)
    ensures forall k :: count <= k < values.Length ==> values[k] == old(values[k])
    ensures Pow(2, s) * Value(Pow(2, digits), values[..count]) + rest
         == old(Value(Pow(2, digits), values[..count])) + r * Pow(Pow(2, digits), count)
  {
    hide Value, Pow;
    ghost var b, d := Pow(2, digits), Pow(2, s);
    ghost var us, done: seq<nat> := values[..count] + [r], [];
    var part := part0;
    rest := r;
    OneMoreLimb(b, values[..count], r, d);
    assert us[count..] == [r];
    SplitBase(digits, s);
    var k := count;
    while k > 0
      invariant 0 <= k <= count && |done| == count - k && IsLimbs(b, done)
      invariant rest < d && part == rest * Pow(2, digits - s)
      invariant forall i :: 0 <= i < k ==> values[i] == us[i]
      invariant forall i :: k <= i < count ==> values[i] == done[i - k]
      invariant forall i :: count <= i < values.Length ==> values[i] == old(values[i])
      invariant Value(b, us[k..]) == d * Value(b, done) + rest
    {
      k := k - 1;
      var limb;
      ghost var t := values[k];
      limb, part := ShiftLimbDown(digits, values[k], s, part, rest);
      values[k] := limb;
      assert us[k..][1..] == us[k + 1..];
      ShortValue(b, d, us[k..], done, rest, limb, t % d);
      rest := t % d;
      done := [limb] + done;
    }
    assert us[0..] == us && values[..count] == done;
  }

  lemma OneMoreLimb(b: nat, s: seq<nat>, r: nat, d: nat)
    ensures Value(b, s + [r]) == Value(b, s) + r * Pow(b, |s|)
    ensures Value(b, [r]) == d * Value(b, []) + r
  {
    ValueSnoc(b, s, r);
    ValueSnoc(b, [], r);
    ValueEmpty(b);
    assert [] + [r] == [r];
    assert r * Pow(b, 0) == r;
  }

  /** The limb moves of `shr`, the vacated limbs filled with the sign. */
  method MoveLimbsDown(values: array<nat>, offset: nat, fill: nat)
    requires offset <= values.Length
    modifies values
    ensures values[..] == old(values[offset..]) + seq(offset, _ => fill)
  {
    ghost var us, count := values[..], values.Length - offset;
    for i := 0 to values.Length - offset
      invariant forall k :: 0 <= k < i ==> values[k] == us[k + offset]
      invariant forall k :: i <= k < values.Length ==> values[k] == us[k]
    {
      values[i] := values[i + offset];
    }
    for j := values.Length - offset to values.Length
      invariant forall k :: 0 <= k < count ==> values[k] == us[k + offset]
      invariant forall k :: count <= k < j ==> values[k] == fill
    {
      values[j] := fill;
    }
  }

  /** `right_shift_fill_value`. */
  function FillValue(b: nat, negative: bool): nat
    requires b > 0
  {
    if negative then b - 1 else 0
  }

  /** `shr`: floor division by 2^n; the sign of a signed number fills from above. */
  method ShiftRight(digits: nat, values: array<nat>, n: nat, signed: bool)
    requires digits > 0 && values.Length > 0 && IsLimbs(Pow(2, digits), values[..])
    modifies values
    ensures IsLimbs(Pow(2, digits), values[..]) && Pow(2, n) > 0
    ensures Number(Pow(2, digits), values[..], signed) == old(Number(Pow(2, digits), values[..], signed)) / Pow(2, n)
  {
    hide Value, Pow, IsNegative, Number;
    PowPositive(2, digits);
    PowPositive(2, n);
    var b := Pow(2, digits);
    var count := values.Length;
    ghost var us := values[..];
    var negative := IsNegative(b, values[..], signed);
    var offset := if n / digits < values.Length then n / digits else values.Length;
    var s := n % digits;
    ghost var high, fills: seq<nat> := us[offset..], seq(offset, _ => FillValue(b, negative));
    if offset > 0 {
      MoveLimbsDown(values, offset, FillValue(b, negative));
    } else {
      assert us[0..] + seq(0, _ => FillValue(b, negative)) == us;
    }
    assert values[..count - offset] == high && values[count - offset..] == fills;
    ghost var rest: nat, r: nat := 0, if negative then Pow(2, s) - 1 else 0;
    PowPositive(2, s);
    NoRest(b, Value(b, high), count - offset);
    if s != 0 {
      IncomingBits(digits, s);
      var part := if negative then LimbShiftLeft(digits, b - 1, digits - s) else 0;
      rest := ShiftBitsDown(digits, values, count - offset, s, r, part);
    }
    assert values[count - offset..] == fills;
    assert values[..] == values[..count - offset] + values[count - offset..];
    ShiftRightTotal(digits, us, values[..count - offset], values[count - offset..], n, signed, rest);
  }

  lemma NoRest(b: nat, v: nat, m: nat)
    ensures Pow(2, 0) * v + 0 == v + 0 * Pow(b, m) && Pow(2, 0) == 1
  {
  }

  lemma IncomingBits(digits: nat, s: nat)
    requires 0 < s < digits
    ensures Pow(2, digits) > 0 && Pow(2, s) > 0
    ensures LimbShiftLeft(digits, Pow(2, digits) - 1, digits - s) == (Pow(2, s) - 1) * Pow(2, digits - s)
    ensures 0 == 0 * Pow(2, digits - s)
  {
    hide Pow, LimbShiftLeft, LimbShiftRight;
    SplitBase(digits, s);
    ShiftedUp(digits, Pow(2, digits) - 1, digits - s);
    LastResidue(Pow(2, digits - s), Pow(2, s));
  }

  lemma LastResidue(p: nat, q: nat)
    requires p > 0 && q > 0
    ensures (p * q - 1) % q == q - 1
  {
    DivModUnique(p * q - 1, q, p - 1, q - 1);
  }

  lemma EvenBase(digits: nat)
    requires digits > 0
    ensures Pow(2, digits) > 1 && Pow(2, digits) % 2 == 0
  {
  }

  /** The sign fill leaves the signed value of the limbs below it. */
  lemma FilledValue(b: nat, vs: seq<nat>, fills: seq<nat>, negative: bool)
    requires b > 1 && forall k :: 0 <= k < |fills| ==> fills[k] == FillValue(b, negative)
    ensures IsLimbs(b, fills)
    ensures Value(b, vs + fills) - (if negative then Pow(b, |vs| + |fills|) else 0)
         == Value(b, vs) - if negative then Pow(b, |vs|) else 0
  {
    hide Value, Pow;
    ValueConcat(b, vs, fills);
    PowAdd(b, |vs|, |fills|);
    var zeros: seq<nat> := seq(|fills|, _ => 0);
    ValueZeros(b, zeros);
    if negative {
      Complemented(b, fills, zeros);
      assert Pow(b, |vs|) * (Pow(b, |fills|) - 1) == Pow(b, |vs|) * Pow(b, |fills|) - Pow(b, |vs|);
    } else {
      ValueZeros(b, fills);
    }
  }

  lemma NumberParts(b: nat, us: seq<nat>, signed: bool, negative: bool)
    requires b > 1 && b % 2 == 0 && |us| > 0 && IsLimbs(b, us) && negative == IsNegative(b, us, signed)
    ensures var x, m := Number(b, us, signed), Pow(b, |us|);
      && m > 0 && x == Value(b, us) - (if negative then m else 0)
      && (negative ==> 0 <= 2 * x + m && x < 0) && (!negative ==> 0 <= x < m && (signed ==> 2 * x < m))
  {
    hide Value, Pow;
    NegativeHalf(b, us);
  }

  lemma NegativeIsSigned(b: nat, us: seq<nat>, signed: bool)
    ensures IsNegative(b, us, signed) ==> signed
  {
  }

  lemma FloorWithin(b: nat, us: seq<nat>, vs: seq<nat>, x: nat, negative: bool, rest: nat, number: int, d: nat)
    requires b > 0 && |vs| <= |us| && IsLimbs(b, us) && rest < x
    requires d == Pow(b, |us| - |vs|) * x && number == Value(b, us) - if negative then Pow(b, |us|) else 0
    requires x * Value(b, vs) + rest == Value(b, us[|us| - |vs|..]) + (if negative then x - 1 else 0) * Pow(b, |vs|)
    ensures d > 0 && Value(b, vs) - (if negative then Pow(b, |vs|) else 0) == number / d
  {
    hide Value, Pow;
    var low, high := us[..|us| - |vs|], us[|us| - |vs|..];
    assert us == low + high;
    LimbsConcat(b, low, high);
    ValueConcat(b, low, high);
    ValueBound(b, low);
    PowAdd(b, |low|, |vs|);
    FloorParts(Pow(b, |low|), Pow(b, |vs|), x, Value(b, low), Value(b, high), Value(b, vs), rest, negative);
  }

  lemma FloorParts(p: nat, q: nat, x: nat, low: nat, high: nat, v: nat, rest: nat, negative: bool)
    requires low < p && rest < x && x * v + rest == high + (if negative then x - 1 else 0) * q
    ensures p * x > 0 && v - (if negative then q else 0) == (low + p * high - if negative then p * q else 0) / (p * x)
  {
    FloorAlgebra(p, q, x, low, high, v, rest, if negative then 1 else 0);
    RestBelow(p, x, low, rest);
    DivModUnique(low + p * high - (if negative then p * q else 0), p * x, v - (if negative then q else 0), low + p * rest);
  }

  lemma FloorAlgebra(p: int, q: int, x: int, low: int, high: int, v: int, rest: int, neg: int)
    requires x * v + rest == high + neg * (x - 1) * q
    ensures low + p * high - neg * (p * q) == (v - neg * q) * (p * x) + (low + p * rest)
  {
    assert (v - neg * q) * (p * x) == p * (x * v) - neg * x * (p * q);
    assert p * (x * v + rest) == p * (x * v) + p * rest;
    assert p * (high + neg * (x - 1) * q) == p * high + neg * x * (p * q) - neg * (p * q);
  }

  lemma RestBelow(p: nat, x: nat, low: nat, rest: nat)
    requires low < p && rest < x
    ensures 0 <= low + p * rest < p * x
  {
    MulMonotone(rest + 1, x, p);
  }

  lemma FloorBeyond(number: int, d: nat, m: nat, negative: bool)
    requires d > 0 && m > 0 && d % m == 0
    requires if negative then 0 <= 2 * number + m && number < 0 else 0 <= number < m
    ensures number / d == if negative then -1 else 0
  {
    var k := d / m;
    assert d == k * m;
    if k >= 1 {
      MulMonotone(1, k, m);
    }
    DivModUnique(number, d, if negative then -1 else 0, if negative then number + d else number);
  }

  lemma SameNumber(b: nat, w: seq<nat>, signed: bool, x: int, d: nat, y: int, negative: bool)
    requires b > 1 && b % 2 == 0 && |w| > 0 && IsLimbs(b, w) && d > 0 && y == x / d
    requires y == Value(b, w) - (if negative then Pow(b, |w|) else 0) && (negative ==> signed)
    requires if negative then 0 <= 2 * x + Pow(b, |w|) && x < 0 else 0 <= x && (signed ==> 2 * x < Pow(b, |w|))
    ensures Number(b, w, signed) == y
  {
    hide Value, Pow;
    NegativeHalf(b, w);
    FloorShrinks(x, d);
  }

  lemma FloorShrinks(x: int, d: nat)
    requires d > 0
    ensures x >= 0 ==> 0 <= x / d <= x
    ensures x < 0 ==> x <= x / d < 0
  {
    var y, r := x / d, x % d;
    assert x == y * d + r;
    if y >= 0 {
      MulMonotone(1, d, y);
    } else {
      MulMonotone(1, d, -(y + 1));
      BelowZero(y, d);
    }
  }

  lemma BelowZero(y: int, d: int)
    ensures d * -(y + 1) == -(y * d) - d
  {
  }

  /** The moved and shifted limbs below the fill stand for the floor quotient. */
  lemma ShiftRightTotal(digits: nat, us: seq<nat>, vs: seq<nat>, fills: seq<nat>, n: nat, signed: bool, rest: nat)
    requires digits > 0 && |us| == |vs| + |fills| > 0 && IsLimbs(Pow(2, digits), us) && IsLimbs(Pow(2, digits), vs)
    requires |fills| == (if n / digits < |us| then n / digits else |us|) && Pow(2, digits) > 0
    requires forall k :: 0 <= k < |fills| ==> fills[k] == FillValue(Pow(2, digits), IsNegative(Pow(2, digits), us, signed))
    requires rest < Pow(2, n % digits)
    requires Pow(2, n % digits) * Value(Pow(2, digits), vs) + rest
          == Value(Pow(2, digits), us[|fills|..])
             + (if IsNegative(Pow(2, digits), us, signed) then Pow(2, n % digits) - 1 else 0) * Pow(Pow(2, digits), |vs|)
    ensures IsLimbs(Pow(2, digits), vs + fills) && Pow(2, n) > 0
    ensures Number(Pow(2, digits), vs + fills, signed) == Number(Pow(2, digits), us, signed) / Pow(2, n)
  {
    hide Value, Pow, IsNegative, Number;
    var b, negative := Pow(2, digits), IsNegative(Pow(2, digits), us, signed);
    EvenBase(digits);
    LimbsConcat(b, vs, fills);
    PowPositive(2, n);
    FilledValue(b, vs, fills, negative);
    NegativeIsSigned(b, us, signed);
    NumberParts(b, us, signed, negative);
    ShiftedFloor(digits, us, vs, n, signed, negative, rest);
    SameNumber(b, vs + fills, signed, Number(b, us, signed), Pow(2, n), Value(b, vs) - (if negative then Pow(b, |vs|) else 0), negative);
  }

  lemma ShiftedFloor(digits: nat, us: seq<nat>, vs: seq<nat>, n: nat, signed: bool, negative: bool, rest: nat)
    requires digits > 0 && |us| >= |vs| && |us| > 0 && IsLimbs(Pow(2, digits), us)
    requires |us| - |vs| == (if n / digits < |us| then n / digits else |us|)
    requires negative == IsNegative(Pow(2, digits), us, signed) && rest < Pow(2, n % digits)
    requires Pow(2, n % digits) * Value(Pow(2, digits), vs) + rest
          == Value(Pow(2, digits), us[|us| - |vs|..]) + (if negative then Pow(2, n % digits) - 1 else 0) * Pow(Pow(2, digits), |vs|)
    ensures Pow(2, n) > 0
    ensures Value(Pow(2, digits), vs) - (if negative then Pow(Pow(2, digits), |vs|) else 0)
         == Number(Pow(2, digits), us, signed) / Pow(2, n)
  {
    hide Value, Pow, IsNegative, Number;
    var b := Pow(2, digits);
    EvenBase(digits);
    PowPositive(2, n);
    ShiftAmount(digits, |us|, n);
    NumberParts(b, us, signed, negative);
    if n / digits < |us| {
      FloorWithin(b, us, vs, Pow(2, n % digits), negative, rest, Number(b, us, signed), Pow(2, n));
    } else {
      assert vs == [];
      ValueEmpty(b);
      FloorBeyond(Number(b, us, signed), Pow(2, n), Pow(b, |us|), negative);
    }
  }
}
