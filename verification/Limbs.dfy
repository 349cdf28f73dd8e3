/**
  Limb sequences: little-endian digits below a base `b`, as `uintwide_t` keeps
  them in `values`, and the number they stand for.
 */
module Limbs {
  import opened Powers

  ghost predicate IsLimbs(b: nat, s: seq<nat>) {
    forall k :: 0 <= k < |s| ==> s[k] < b
  }

  lemma LimbsConcat(b: nat, s: seq<nat>, t: seq<nat>)
    ensures IsLimbs(b, s + t) <==> IsLimbs(b, s) && IsLimbs(b, t)
  {
    assert forall k :: 0 <= k < |s| ==> (s + t)[k] == s[k];
    assert forall k :: 0 <= k < |t| ==> (s + t)[|s| + k] == t[k];
  }

  function Value(b: nat, s: seq<nat>): nat {
    if |s| == 0 then 0
    else Value(b, s[..|s| - 1]) + s[|s| - 1] * Pow(b, |s| - 1)
  }

  lemma ValueEmpty(b: nat)
    ensures Value(b, []) == 0 && Pow(b, 0) == 1
  {
  }

  lemma ValueSnoc(b: nat, s: seq<nat>, x: nat)
    ensures Value(b, s + [x]) == Value(b, s) + x * Pow(b, |s|)
  {
    assert (s + [x])[..|s|] == s;
  }

  lemma {:induction false} ValueBound(b: nat, s: seq<nat>)
    requires b > 0 && IsLimbs(b, s)
    ensures Value(b, s) < Pow(b, |s|)
  {
    if |s| > 0 {
      var n := |s| - 1;
      ValueBound(b, s[..n]);
      MulMonotone(s[n] + 1, b, Pow(b, n));
      assert (s[n] + 1) * Pow(b, n) == s[n] * Pow(b, n) + Pow(b, n);
    }
  }

  lemma Distribute(p: int, v: int, x: int, q: int)
    ensures p * (v + x * q) == p * v + x * (p * q)
  {
  }

  lemma {:induction false} ValueConcat(b: nat, s: seq<nat>, t: seq<nat>)
    ensures Value(b, s + t) == Value(b, s) + Pow(b, |s|) * Value(b, t)
  {
    if |t| == 0 {
      assert s + t == s;
    } else {
      var n := |t| - 1;
      var x := t[n];
      assert s + t == (s + t[..n]) + [x];
      ValueSnoc(b, s + t[..n], x);
      ValueConcat(b, s, t[..n]);
      PowAdd(b, |s|, n);
      Distribute(Pow(b, |s|), Value(b, t[..n]), x, Pow(b, n));
    }
  }

  /** Equal values of equally many limbs are equal limb by limb. */
  lemma {:induction false} ValueInjective(b: nat, s: seq<nat>, t: seq<nat>)
    requires b > 0 && IsLimbs(b, s) && IsLimbs(b, t) && |s| == |t|
    requires Value(b, s) == Value(b, t)
    ensures s == t
  {
    if |s| > 0 {
      var n := |s| - 1;
      ValueBound(b, s[..n]);
      ValueBound(b, t[..n]);
      SameDigits(Pow(b, n), s[n], t[n], Value(b, s[..n]), Value(b, t[..n]));
      hide Value, Pow;
      ValueInjective(b, s[..n], t[..n]);
      assert s == s[..n] + [s[n]] && t == t[..n] + [t[n]];
    }
  }

  lemma SameDigits(p: nat, x: nat, y: nat, u: nat, v: nat)
    requires u < p && v < p && u + x * p == v + y * p
    ensures x == y && u == v
  {
    DivModUnique(u + x * p, p, x, u);
    DivModUnique(v + y * p, p, y, v);
  }

  lemma {:induction false} ValueZeros(b: nat, s: seq<nat>)
    requires forall k :: 0 <= k < |s| ==> s[k] == 0
    ensures Value(b, s) == 0
  {
    if |s| > 0 {
      ValueZeros(b, s[..|s| - 1]);
    }
  }

  lemma {:induction false} ZeroValue(b: nat, s: seq<nat>)
    requires b > 0 && Value(b, s) == 0
    ensures forall k :: 0 <= k < |s| ==> s[k] == 0
  {
    if |s| > 0 {
      var n := |s| - 1;
      assert s[n] * Pow(b, n) == 0;
      ZeroValue(b, s[..n]);
      assert forall k :: 0 <= k < n ==> s[k] == s[..n][k];
    }
  }

  lemma ValueHead(b: nat, s: seq<nat>)
    requires |s| > 0
    ensures Value(b, s) == s[0] + b * Value(b, s[1..])
  {
    assert s == [s[0]] + s[1..];
    ValueConcat(b, [s[0]], s[1..]);
    ValueSnoc(b, [], s[0]);
    assert Value(b, [s[0]]) == s[0] by { assert [] + [s[0]] == [s[0]]; }
    assert Pow(b, 1) == b;
  }
}
