/** Long division of polynomials over GF(2), coefficient strings highest power
    first, and what it says about CRC registers. */
module PolynomialDivision {
  import opened BitStrings
  import opened CyclicRedundancy

  /** A row of the long multiplication: the polynomial or nothing, shifted by k. */
  function Row(use: bool, p: seq<bool>, k: nat): (r: seq<bool>)
    ensures |r| == |p| + k && forall i :: 0 <= i < |r| ==> r[i] == (use && i < |p| && p[i])
  {
    if use then p + Zeros(k) else Zeros(|p| + k)
  }

  /** The product of two polynomials. */
  function Times(q: seq<bool>, p: seq<bool>): (r: seq<bool>)
    requires |p| > 0
    ensures |r| == |q| + |p| - 1
  {
    if |q| == 0 then Zeros(|p| - 1) else Xor(Row(q[0], p, |q| - 1), [false] + Times(q[1..], p))
  }

  function Quotient(poly: seq<bool>, r: seq<bool>, message: seq<bool>): (q: seq<bool>)
    requires |r| == |poly| > 0
    ensures |q| == |message|
    decreases |message|
  {
    if |message| == 0 then [] else [r[0] != message[0]] + Quotient(poly, Divide1(poly, r, message[0]), message[1..])
  }

  /** x^N times the message, with the initial register added to its first N
      coefficients. */
  function Dividend(r: seq<bool>, message: seq<bool>): (s: seq<bool>)
    ensures |s| == |r| + |message|
  {
    Xor(message + Zeros(|r|), r + Zeros(|message|))
  }

  /** The generator polynomial: x^N plus the coefficients given. */
  function Generator(poly: seq<bool>): seq<bool> {
    [true] + poly
  }

  lemma DividendAt(r: seq<bool>, message: seq<bool>, i: nat)
    requires i < |r| + |message|
    ensures Dividend(r, message)[i] == ((i < |message| && message[i]) != (i < |r| && r[i]))
  {
  }

  lemma Divide1At(poly: seq<bool>, r: seq<bool>, bit: bool, i: nat)
    requires |r| == |poly| > i
    ensures Divide1(poly, r, bit)[i] == ((i + 1 < |r| && r[i + 1]) != (r[0] != bit && poly[i]))
  {
  }

  lemma FirstRow(poly: seq<bool>, r: seq<bool>, message: seq<bool>)
    requires |r| == |poly| > 0 && |message| > 0
    ensures Dividend(r, message)
         == Xor(Row(r[0] != message[0], Generator(poly), |message| - 1), [false] + Dividend(Divide1(poly, r, message[0]), message[1..]))
  {
    hide Dividend, Row, Divide1;
    var r', rest, use := Divide1(poly, r, message[0]), message[1..], r[0] != message[0];
    var row, below := Row(use, Generator(poly), |message| - 1), Dividend(Divide1(poly, r, message[0]), message[1..]);
    forall i: nat | i < |r| + |message| ensures Dividend(r, message)[i] == (row[i] != ([false] + below)[i]) {
      DividendAt(r, message, i);
      if i > 0 {
        DividendAt(r', rest, i - 1);
        if i - 1 < |r| {
          Divide1At(poly, r, message[0], i - 1);
        }
      }
    }
  }

  lemma XorNested(a: seq<bool>, x: seq<bool>, y: seq<bool>)
    requires |a| == |x| + 1 && |x| == |y|
    ensures Xor(a, [false] + Xor(x, y)) == Xor(Xor(a, [false] + x), [false] + y)
  {
  }

  /** The register is the remainder: dividend == quotient * generator + register. */
  lemma {:induction false} DivisionEquation(poly: seq<bool>, r: seq<bool>, message: seq<bool>)
    requires |r| == |poly| > 0
    ensures Dividend(r, message)
         == Xor(Times(Quotient(poly, r, message), Generator(poly)), Zeros(|message|) + Register(poly, r, message))
    decreases |message|
  {
    if |message| == 0 {
      assert Dividend(r, message) == r;
    } else {
      var r' := Divide1(poly, r, message[0]);
      FirstRow(poly, r, message);
      DivisionEquation(poly, r', message[1..]);
      NextRemainder(poly, r, message);
      hide Dividend, Times, Quotient, Register, Divide1, Row;
      XorNested(Row(r[0] != message[0], Generator(poly), |message| - 1), Times(Quotient(poly, r', message[1..]), Generator(poly)),
                Zeros(|message| - 1) + Register(poly, r', message[1..]));
    }
  }

  lemma NextRemainder(poly: seq<bool>, r: seq<bool>, message: seq<bool>)
    requires |r| == |poly| > 0 && |message| > 0
    ensures var r' := Divide1(poly, r, message[0]);
      && Times(Quotient(poly, r, message), Generator(poly))
         == Xor(Row(r[0] != message[0], Generator(poly), |message| - 1), [false] + Times(Quotient(poly, r', message[1..]), Generator(poly)))
      && Zeros(|message|) + Register(poly, r, message) == [false] + (Zeros(|message| - 1) + Register(poly, r', message[1..]))
  {
    QuotientStep(poly, r, message);
    var r' := Divide1(poly, r, message[0]);
    var q' := Quotient(poly, r', message[1..]);
    hide Divide1, Quotient, Register;
    ConsParts(r[0] != message[0], q');
    TimesStep([r[0] != message[0]] + q', Generator(poly));
    ZerosCons(|message|, Register(poly, r', message[1..]));
    hide *;
  }

  lemma QuotientStep(poly: seq<bool>, r: seq<bool>, message: seq<bool>)
    requires |r| == |poly| > 0 && |message| > 0
    ensures Quotient(poly, r, message) == [r[0] != message[0]] + Quotient(poly, Divide1(poly, r, message[0]), message[1..])
    ensures Register(poly, r, message) == Register(poly, Divide1(poly, r, message[0]), message[1..])
  {
  }

  lemma ConsParts(x: bool, s: seq<bool>)
    ensures ([x] + s)[0] == x && ([x] + s)[1..] == s
  {
  }

  lemma ZerosCons(n: nat, r: seq<bool>)
    requires n > 0
    ensures Zeros(n) + r == [false] + (Zeros(n - 1) + r)
  {
    assert Zeros(n) == [false] + Zeros(n - 1);
  }

  lemma TimesStep(q: seq<bool>, p: seq<bool>)
    requires |p| > 0 && |q| > 0
    ensures Times(q, p) == Xor(Row(q[0], p, |q| - 1), [false] + Times(q[1..], p))
  {
  }

  /** Quotient and remainder are unique. */
  lemma {:induction false} DivisionUnique(p: seq<bool>, q: seq<bool>, r: seq<bool>, q': seq<bool>, r': seq<bool>)
    requires |p| > 0 && p[0] && |q| == |q'| && |r| == |r'| == |p| - 1
    requires Xor(Times(q, p), Zeros(|q|) + r) == Xor(Times(q', p), Zeros(|q|) + r')
    ensures q == q' && r == r'
    decreases |q|
  {
    hide Times, Xor, Zeros;
    if |q| == 0 {
      assert q == [] && q' == [];
      NoQuotient(p, r);
      NoQuotient(p, r');
    } else {
      SmallerSums(p, q, r, q', r');
      DivisionUnique(p, q[1..], r, q'[1..], r');
      SameParts(q, q');
    }
  }

  lemma SmallerSums(p: seq<bool>, q: seq<bool>, r: seq<bool>, q': seq<bool>, r': seq<bool>)
    requires |p| > 0 && p[0] && |q| == |q'| > 0 && |r| == |r'| == |p| - 1
    requires Xor(Times(q, p), Zeros(|q|) + r) == Xor(Times(q', p), Zeros(|q|) + r')
    ensures q[0] == q'[0]
    ensures Xor(Times(q[1..], p), Zeros(|q| - 1) + r) == Xor(Times(q'[1..], p), Zeros(|q| - 1) + r')
  {
    hide Times, Row;
    SumTail(p, q, r);
    SumTail(p, q', r');
  }

  lemma NoQuotient(p: seq<bool>, r: seq<bool>)
    requires |r| == |p| - 1
    ensures Xor(Times([], p), Zeros(0) + r) == r
  {
  }

  lemma SameParts(s: seq<bool>, t: seq<bool>)
    requires |s| == |t| > 0 && s[0] == t[0] && s[1..] == t[1..]
    ensures s == t
  {
    assert s == [s[0]] + s[1..] && t == [t[0]] + t[1..];
  }

  /** The sum quotient * p + r starts with the quotient's first digit; without
      that digit's row the rest is the smaller sum. */
  lemma SumTail(p: seq<bool>, q: seq<bool>, r: seq<bool>)
    requires |p| > 0 && p[0] && |q| > 0 && |r| == |p| - 1
    ensures var s := Xor(Times(q, p), Zeros(|q|) + r);
      s[0] == q[0] && Xor(Times(q[1..], p), Zeros(|q| - 1) + r) == Xor(s[1..], Row(s[0], p, |q| - 1)[1..])
  {
    TimesStep(q, p);
    SumOfRow(q[0], p, |q| - 1, Times(q[1..], p), r);
    ZerosCons(|q|, r);
    hide *;
  }

  lemma SumOfRow(use: bool, p: seq<bool>, k: nat, t: seq<bool>, r: seq<bool>)
    requires |p| > 0 && p[0] && |t| == k + |r| && |r| == |p| - 1
    ensures var s := Xor(Xor(Row(use, p, k), [false] + t), [false] + (Zeros(k) + r));
      s[0] == use && Xor(t, Zeros(k) + r) == Xor(s[1..], Row(use, p, k)[1..])
  {
  }

  lemma {:induction false} TimesLinear(a: seq<bool>, b: seq<bool>, p: seq<bool>)
    requires |p| > 0 && |a| == |b|
    ensures Times(Xor(a, b), p) == Xor(Times(a, p), Times(b, p))
  {
    if |a| > 0 {
      TimesLinear(a[1..], b[1..], p);
      assert Xor(a, b)[1..] == Xor(a[1..], b[1..]);
      RowsAdd(a[0], b[0], p, |a| - 1, Times(a[1..], p), Times(b[1..], p));
    }
  }

  lemma RowsAdd(x: bool, y: bool, p: seq<bool>, k: nat, s: seq<bool>, t: seq<bool>)
    requires |s| == |t| == |p| + k - 1 && |p| > 0
    ensures Xor(Row(x != y, p, k), [false] + Xor(s, t)) == Xor(Xor(Row(x, p, k), [false] + s), Xor(Row(y, p, k), [false] + t))
  {
  }

  /** Two messages of one length leave the same register exactly when their
      difference is a multiple of the generator: the errors a CRC misses. */
  lemma UndetectedErrors(poly: seq<bool>, r: seq<bool>, a: seq<bool>, b: seq<bool>)
    requires |r| == |poly| > 0 && |a| == |b|
    ensures Register(poly, r, a) == Register(poly, r, b)
       <==> exists q :: |q| == |a| && Times(q, Generator(poly)) == Xor(a, b) + Zeros(|poly|)
  {
    hide Times, Quotient, Register;
    var p, n := Generator(poly), |a|;
    var qa, qb := Quotient(poly, r, a), Quotient(poly, r, b);
    var ra, rb := Register(poly, r, a), Register(poly, r, b);
    DivisionEquation(poly, r, a);
    DivisionEquation(poly, r, b);
    TimesLinear(qa, qb, p);
    var d := Xor(a, b) + Zeros(|poly|);
    DividendDifference(r, a, b, Times(qa, p), Times(qb, p), Zeros(n) + ra, Zeros(n) + rb);
    if ra == rb {
      assert Times(Xor(qa, qb), p) == d;
    }
    if q :| |q| == n && Times(q, p) == d {
      assert Xor(Times(q, p), Zeros(n) + Zeros(|poly|)) == d;
      DivisionUnique(p, q, Zeros(|poly|), Xor(qa, qb), Xor(ra, rb));
      assert forall i :: 0 <= i < |ra| ==> Xor(ra, rb)[i] == (ra[i] != rb[i]);
    }
  }

  lemma DividendDifference(r: seq<bool>, a: seq<bool>, b: seq<bool>, x: seq<bool>, y: seq<bool>, u: seq<bool>, v: seq<bool>)
    requires |a| == |b| && |x| == |y| == |u| == |v| == |r| + |a|
    requires Dividend(r, a) == Xor(x, u) && Dividend(r, b) == Xor(y, v)
    ensures Xor(a, b) + Zeros(|r|) == Xor(Xor(x, y), Xor(u, v))
  {
    var d := Xor(a, b) + Zeros(|r|);
    forall i | 0 <= i < |d| ensures d[i] == ((x[i] != y[i]) != (u[i] != v[i])) {
      assert Dividend(r, a)[i] == (x[i] != u[i]) && Dividend(r, b)[i] == (y[i] != v[i]);
    }
  }
}
