/** Bit strings over GF(2), and machine words as 64 bits, least significant first. */
module BitStrings {
  import opened Powers
  import opened Sequences

  function Zeros(n: nat): (r: seq<bool>)
    ensures |r| == n && forall i :: 0 <= i < n ==> !r[i]
  {
    seq(n, _ => false)
  }

  function Xor(a: seq<bool>, b: seq<bool>): (r: seq<bool>)
    requires |a| == |b|
    ensures |r| == |a| && forall i :: 0 <= i < |a| ==> r[i] == (a[i] != b[i])
  {
    seq(|a|, i requires 0 <= i < |a| => a[i] != b[i])
  }

  function And(a: seq<bool>, b: seq<bool>): (r: seq<bool>)
    requires |a| == |b|
    ensures |r| == |a| && forall i :: 0 <= i < |a| ==> r[i] == (a[i] && b[i])
  {
    seq(|a|, i requires 0 <= i < |a| => a[i] && b[i])
  }

  function Or(a: seq<bool>, b: seq<bool>): (r: seq<bool>)
    requires |a| == |b|
    ensures |r| == |a| && forall i :: 0 <= i < |a| ==> r[i] == (a[i] || b[i])
  {
    seq(|a|, i requires 0 <= i < |a| => a[i] || b[i])
  }

  function Backwards(s: seq<bool>): (r: seq<bool>)
    ensures |r| == |s| && forall i :: 0 <= i < |s| ==> r[i] == s[|s| - 1 - i]
  {
    seq(|s|, i requires 0 <= i < |s| => s[|s| - 1 - i])
  }

  /** Shifts of a word of any width; the vacated bits are clear. */
  function ShiftRight(a: seq<bool>, n: nat): (r: seq<bool>)
    requires n <= |a|
    ensures |r| == |a|
  {
    a[n..] + Zeros(n)
  }

  function ShiftLeft(a: seq<bool>, n: nat): (r: seq<bool>)
    requires n <= |a|
    ensures |r| == |a|
  {
    Zeros(n) + a[..|a| - n]
  }

  /** The low `width` bits of a number. */
  function FromNat(n: nat, width: nat): (r: seq<bool>)
    ensures |r| == width
    decreases width
  {
    if width == 0 then [] else [n % 2 == 1] + FromNat(n / 2, width - 1)
  }

  function ToNat(s: seq<bool>): nat {
    if |s| == 0 then 0 else (if s[0] then 1 else 0) + 2 * ToNat(s[1..])
  }

  lemma {:induction false} ToNatBound(s: seq<bool>)
    ensures ToNat(s) < Pow(2, |s|)
  {
    if |s| > 0 {
      ToNatBound(s[1..]);
    }
  }

  lemma {:induction false} FromToNat(s: seq<bool>, width: nat)
    requires |s| <= width
    ensures FromNat(ToNat(s), width) == s + Zeros(width - |s|)
    decreases width
  {
    if width > 0 {
      if |s| == 0 {
        FromToNat(s, width - 1);
        assert Zeros(width) == [false] + Zeros(width - 1);
      } else {
        var t, d := s[1..], if s[0] then 1 else 0;
        FromToNat(t, width - 1);
        DivModUnique(d + 2 * ToNat(t), 2, ToNat(t), d);
        assert s == [s[0]] + t;
        assert [s[0]] + (t + Zeros(width - |s|)) == s + Zeros(width - |s|);
      }
    }
  }

  lemma {:induction false} FromNatSplit(n: nat, low: nat, high: nat, p: nat)
    requires p == Pow(2, low)
    ensures p > 0 && FromNat(n, low + high) == FromNat(n % p, low) + FromNat(n / p, high)
    decreases low
  {
    hide FromNat;
    if low > 0 {
      var h := Pow(2, low - 1);
      assert p == h * 2;
      hide Pow;
      FromNatSplit(n / 2, low - 1, high, h);
      HalveBoth(n, h, p);
      SplitHalves(n, n % p, n / 2 % h, n / p, low, high);
    } else {
      assert p == 1;
      FromNatStep(n % 1, 0);
    }
  }

  lemma SplitHalves(n: nat, lo: nat, lo': nat, hi: nat, low: nat, high: nat)
    requires low > 0 && lo / 2 == lo' && lo % 2 == n % 2
    requires FromNat(n / 2, low - 1 + high) == FromNat(lo', low - 1) + FromNat(hi, high)
    ensures FromNat(n, low + high) == FromNat(lo, low) + FromNat(hi, high)
  {
    hide FromNat;
    FromNatStep(n, low + high);
    FromNatStep(lo, low);
    Associate([n % 2 == 1], FromNat(lo', low - 1), FromNat(hi, high));
  }

  lemma FromNatStep(n: nat, width: nat)
    ensures FromNat(n, width) == if width == 0 then [] else [n % 2 == 1] + FromNat(n / 2, width - 1)
  {
  }

  lemma HalveBoth(n: nat, h: nat, p: nat)
    requires h > 0 && p == h * 2
    ensures n % p / 2 == n / 2 % h && n % p % 2 == n % 2 && n / p == n / 2 / h
  {
    var q, r := n / 2 / h, n / 2 % h;
    assert n / 2 == q * h + r;
    assert q * p == 2 * (q * h);
    DivModUnique(n, p, q, 2 * r + n % 2);
    DivModUnique(n % p, 2, r, n % 2);
  }
}
