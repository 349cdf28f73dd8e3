/** `export_bits` and `import_bits`: a number as chunks of a chosen size. */
module BitChunks {
  import opened Powers
  import opened Limbs
  import opened Bits

  /** The number of a digit sequence with the most significant digit first. */
  function Horner(b: nat, s: seq<nat>): nat {
    if |s| == 0 then 0 else Horner(b, s[..|s| - 1]) * b + s[|s| - 1]
  }

  /** The low `n` bits of every element. */
  function LowBits(s: seq<nat>, n: nat): (r: seq<nat>)
    ensures |r| == |s|
  {
    seq(|s|, i requires 0 <= i < |s| => Trim(s[i], n))
  }

  function Trim(x: nat, n: nat): nat {
    x % Pow(2, n)
  }

  lemma HornerSnoc(b: nat, s: seq<nat>, x: nat)
    ensures Horner(b, s + [x]) == Horner(b, s) * b + x
  {
    assert (s + [x])[..|s|] == s;
  }

  lemma HornerLast(b: nat, s: seq<nat>, x: nat)
    requires |s| > 0
    ensures Horner(b, s[|s| - 1 := x]) + s[|s| - 1] == Horner(b, s) + x
  {
    var n := |s| - 1;
    assert s[n := x][..n] == s[..n];
  }

  function Ceiling(n: nat, d: nat): nat
    requires d > 0
  {
    n / d + if n % d != 0 then 1 else 0
  }

  lemma CeilingMeaning(n: nat, d: nat)
    requires d > 0
    ensures n > 0 ==> Ceiling(n, d) == (n - 1) / d + 1
    ensures Ceiling(0, d) == 0
    ensures n <= Ceiling(n, d) * d < n + d
  {
    var q, r := n / d, n % d;
    assert n == q * d + r;
    assert (q + 1) * d == q * d + d;
    if r > 0 {
      DivModUnique(n - 1, d, q, r - 1);
    } else if n > 0 {
      DivModUnique(n - 1, d, q - 1, d - 1);
    }
  }

  lemma BitSplit(x: nat, i: nat)
    ensures x / Pow(2, i) == 2 * (x / Pow(2, i + 1)) + Bit(x, i)
  {
    DivideTwice(x, Pow(2, i), 2);
  }

  lemma {:induction false} DigitBitAt(c: nat, s: seq<nat>, q: nat, r: nat)
    requires r < c && q < |s| && forall k :: 0 <= k < |s| ==> s[k] < Pow(2, c)
    ensures Bit(Horner(Pow(2, c), s), q * c + r) == Bit(s[|s| - 1 - q], r)
    decreases q
  {
    hide Bit, Pow;
    var n := |s| - 1;
    var high := Horner(Pow(2, c), s[..n]);
    if q == 0 {
      LowDigitBit(c, high, s[n], r);
    } else {
      assert q * c + r == c + ((q - 1) * c + r);
      DigitBitAt(c, s[..n], q - 1, r);
      HighDigitBit(c, high, s[n], (q - 1) * c + r);
    }
  }

  /** Bit `i` of a number of c-bit digits is bit i % c of one digit. */
  lemma DigitBit(c: nat, s: seq<nat>, i: nat)
    requires c > 0 && i < c * |s| && forall k :: 0 <= k < |s| ==> s[k] < Pow(2, c)
    ensures i / c < |s| && Bit(Horner(Pow(2, c), s), i) == Bit(s[|s| - 1 - i / c], i % c)
  {
    hide Bit, Pow, Horner;
    var q, r := i / c, i % c;
    assert i == q * c + r;
    if q >= |s| {
      MulMonotone(|s|, q, c);
    }
    DigitBitAt(c, s, q, r);
  }

  lemma LowDigitBit(c: nat, high: nat, low: nat, i: nat)
    requires i < c
    ensures Bit(high * Pow(2, c) + low, i) == Bit(low, i)
  {
    var p, h := Pow(2, i), Pow(2, c - i - 1);
    PowAdd(2, i, c - i);
    assert Pow(2, c - i) == h * 2;
    assert high * Pow(2, c) == (high * h * 2) * p by { assert Pow(2, c) == p * (h * 2); PullFactor(high, p, h); }
    ModAddMultiple(low, high * h * 2, p);
    ModAddMultiple(low / p, high * h, 2);
  }

  lemma PullFactor(x: int, p: int, h: int)
    ensures x * (p * (h * 2)) == (x * h * 2) * p
  {
  }

  lemma HighDigitBit(c: nat, high: nat, low: nat, i: nat)
    requires low < Pow(2, c)
    ensures Bit(high * Pow(2, c) + low, c + i) == Bit(high, i)
  {
    var b := Pow(2, c);
    PowAdd(2, c, i);
    DivideTwice(high * b + low, b, Pow(2, i));
    DivModUnique(high * b + low, b, high, low);
  }

  /** A bit below `c` is not touched by dropping the bits from `c` on. */
  lemma TrimmedBit(x: nat, c: nat, i: nat)
    requires i < c
    ensures Bit(x % Pow(2, c), i) == Bit(x, i)
  {
    var b := Pow(2, c);
    assert x == x / b * b + x % b;
    LowDigitBit(c, x / b, x % b, i);
  }

  /** Setting a bit that may be set already. */
  function SetBit(x: nat, i: nat): nat {
    if Bit(x, i) == 1 then x else x + Pow(2, i)
  }

  lemma SetClearBit(x: nat, i: nat, c: nat)
    requires i < c && x % Pow(2, i + 1) == 0 && x < Pow(2, c)
    ensures SetBit(x, i) == x + Pow(2, i) < Pow(2, c) && (x + Pow(2, i)) % Pow(2, i) == 0 && x % Pow(2, i) == 0
  {
    var p := Pow(2, i);
    assert Pow(2, i + 1) == p * 2;
    PowAdd(2, i + 1, c - i - 1);
    var h := Pow(2, c - i - 1);
    var q := x / (p * 2);
    hide Pow;
    assert x == q * (p * 2);
    BelowPower(q, p * 2, h);
    EvenMultiple(x, p, q);
  }

  lemma EvenMultiple(x: nat, p: nat, q: nat)
    requires p > 0 && x == q * (p * 2)
    ensures x / p % 2 == 0 && x % p == 0 && (x + p) % p == 0
  {
    assert x == (q * 2) * p;
    DivModUnique(x, p, q * 2, 0);
    ModAddMultiple(x, 1, p);
  }

  lemma BelowPower(q: nat, p: nat, h: nat)
    requires q * p < p * h
    ensures q * p + p <= p * h
  {
    if q >= h {
      MulMonotone(h, q, p);
    }
    MulMonotone(q + 1, h, p);
    assert (q + 1) * p == q * p + p;
  }

  /** The number still to be written: bits `r` and up of the first `t` bits. */
  lemma NextBit(x: nat, t: nat, i: nat)
    requires i < t
    ensures x % Pow(2, t) / Pow(2, i) == 2 * (x % Pow(2, t) / Pow(2, i + 1)) + Bit(x, i)
  {
    BitSplit(x % Pow(2, t), i);
    TrimmedBit(x, t, i);
  }

  /** The output when the next bit written is bit `i`: the bits from i + 1 on,
      with the current chunk's lower places still clear. */
  ghost predicate Written(x: nat, t: nat, co: nat, i: nat, output: seq<nat>)
    requires co > 0
  {
    && |output| > 0
    && (forall k :: 0 <= k < |output| ==> output[k] < Pow(2, co))
    && output[|output| - 1] % Pow(2, i % co + 1) == 0
    && Horner(Pow(2, co), output) == x % Pow(2, t) / Pow(2, i + 1) * Pow(2, i % co + 1)
  }

  lemma FirstChunk(x: nat, t: nat, co: nat)
    requires co > 0 && t > 0
    ensures Written(x, t, co, t - 1, [0])
  {
    var p := Pow(2, t);
    DivModUnique(x % p, p, 0, x % p);
    assert Horner(Pow(2, co), []) == 0;
    DivModUnique(0, Pow(2, (t - 1) % co + 1), 0, 0);
  }

  /** The output after bit `i` has been put into the current chunk. */
  function AfterBit(output: seq<nat>, co: nat, i: nat, bit: nat): (r: seq<nat>)
    requires co > 0 && |output| > 0
    ensures |r| == |output|
  {
    if bit == 1 then output[|output| - 1 := SetBit(output[|output| - 1], i % co)] else output
  }

  lemma BitWritten(x: nat, t: nat, co: nat, i: nat, output: seq<nat>)
    requires co > 0 && i < t && Written(x, t, co, i, output)
    ensures var r := AfterBit(output, co, i, Bit(x, i));
      && (forall k :: 0 <= k < |r| ==> r[k] < Pow(2, co))
      && r[|r| - 1] % Pow(2, i % co) == 0
      && Horner(Pow(2, co), r) == x % Pow(2, t) / Pow(2, i) * Pow(2, i % co)
  {
    hide Bit, Horner, Pow, SetBit;
    var n, p, bit := |output| - 1, i % co, Bit(x, i);
    BitIsBit(x, i);
    SetClearBit(output[n], p, co);
    NextBit(x, t, i);
    DoublePower(p);
    HornerLast(Pow(2, co), output, SetBit(output[n], p));
    DoubleAndAdd(x % Pow(2, t) / Pow(2, i + 1), Pow(2, p), bit);
  }

  lemma BitIsBit(x: nat, i: nat)
    ensures Bit(x, i) == 0 || Bit(x, i) == 1
    ensures Pow(2, i) > 0
  {
  }

  lemma DoublePower(i: nat)
    ensures Pow(2, i + 1) == Pow(2, i) * 2
  {
  }

  lemma DoubleAndAdd(q: int, p: int, bit: int)
    ensures q * (p * 2) + bit * p == (2 * q + bit) * p
  {
  }

  /** A fresh chunk when the current one is full. */
  lemma NextChunk(x: nat, t: nat, co: nat, i: nat, output: seq<nat>)
    requires co > 0 && 0 < i && i % co == 0 && |output| > 0
    requires forall k :: 0 <= k < |output| ==> output[k] < Pow(2, co)
    requires Horner(Pow(2, co), output) == x % Pow(2, t) / Pow(2, i) * Pow(2, 0)
    ensures Written(x, t, co, i - 1, output + [0])
  {
    hide Horner, Pow, Written;
    var q := HighPart(x, t, i);
    LastOfPrevious(i, co);
    TimesUnit(q);
    AppendZero(co, output, q);
    MakeWritten(x, t, co, i - 1, output + [0], q, co);
  }

  /** The first t bits without the lowest i. */
  function HighPart(x: nat, t: nat, i: nat): nat {
    x % Pow(2, t) / Pow(2, i)
  }

  lemma AppendZero(co: nat, output: seq<nat>, q: nat)
    requires Horner(Pow(2, co), output) == q && forall k :: 0 <= k < |output| ==> output[k] < Pow(2, co)
    ensures Horner(Pow(2, co), output + [0]) == q * Pow(2, co)
    ensures forall k :: 0 <= k < |output| + 1 ==> (output + [0])[k] < Pow(2, co)
    ensures Pow(2, co) > 0 && 0 % Pow(2, co) == 0
  {
    hide Horner, Pow;
    BitIsBit(0, co);
    HornerSnoc(Pow(2, co), output, 0);
    ZeroRemainder(Pow(2, co));
  }

  lemma MakeWritten(x: nat, t: nat, co: nat, i: nat, output: seq<nat>, q: nat, place: nat)
    requires co > 0 && |output| > 0 && forall k :: 0 <= k < |output| ==> output[k] < Pow(2, co)
    requires place == i % co + 1 && q == HighPart(x, t, i + 1)
    requires Pow(2, place) > 0 && output[|output| - 1] % Pow(2, place) == 0
    requires Horner(Pow(2, co), output) == q * Pow(2, place)
    ensures Written(x, t, co, i, output)
  {
    hide Horner, Pow;
  }

  lemma TimesUnit(q: nat)
    ensures q * Pow(2, 0) == q
  {
    assert Pow(2, 0) == 1;
  }

  lemma ZeroRemainder(p: nat)
    requires p > 0
    ensures 0 % p == 0
  {
  }

  lemma LastOfPrevious(i: nat, co: nat)
    requires co > 0 && i > 0 && i % co == 0
    ensures (i - 1) % co == co - 1
  {
    var q := i / co;
    assert i == q * co;
    assert (q - 1) * co == q * co - co;
    DivModUnique(i - 1, co, q - 1, co - 1);
  }

  lemma SameChunk(x: nat, t: nat, co: nat, i: nat, output: seq<nat>)
    requires co > 0 && 0 < i && i % co > 0 && |output| > 0
    requires forall k :: 0 <= k < |output| ==> output[k] < Pow(2, co)
    requires output[|output| - 1] % Pow(2, i % co) == 0
    requires Horner(Pow(2, co), output) == x % Pow(2, t) / Pow(2, i) * Pow(2, i % co)
    ensures Written(x, t, co, i - 1, output)
  {
    hide Horner, Pow;
    PlaceBefore(i, co);
  }

  lemma PlaceBefore(i: nat, co: nat)
    requires co > 0 && i % co > 0
    ensures (i - 1) % co + 1 == i % co
  {
    var q, r := i / co, i % co;
    assert i == q * co + r;
    DivModUnique(i - 1, co, q, r - 1);
  }

  /** `import_export_helper`: copies the low `t` bits of a sequence of ci-bit
      elements into co-bit elements, bit by bit, both most significant first. */
  method CopyBits(input: seq<nat>, t: nat, ci: nat, co: nat) returns (output: seq<nat>)
    requires ci > 0 && co > 0 && t <= ci * |input|
    ensures |output| == Ceiling(t, co) && Ceiling(t, ci) <= |input|
    ensures forall k :: 0 <= k < |output| ==> output[k] < Pow(2, co)
    ensures Horner(Pow(2, co), output) == Horner(Pow(2, ci), LowBits(input[..Ceiling(t, ci)], ci)) % Pow(2, t)
  {
    hide Pow, Horner, Written, AfterBit, Bit, LowBits, Ceiling, Crossed;
    InputLongEnough(t, ci, |input|);
    if t == 0 {
      CeilingMeaning(0, ci);
      CeilingMeaning(0, co);
      NoBitsCopied(input, ci, co);
      return [];
    }
    ghost var s := LowBits(input[..Ceiling(t, ci)], ci);
    ghost var x := Horner(Pow(2, ci), s);
    output := [0];
    var source := 0;
    FirstChunk(x, t, co);
    NoneCrossed(t, ci);
    NoneCrossed(t, co);
    var i := t - 1;
    while true
      invariant 0 <= i < t && source == Crossed(t, ci, i)
      invariant |output| == Crossed(t, co, i) + 1 && |output| > 0
      invariant Written(x, t, co, i, output)
      decreases i
    {
      InputBit(input, t, ci, i, source);
      var bit := Bit(input[source], i % ci);
      BitWritten(x, t, co, i, output);
      output := AfterBit(output, co, i, bit);
      if i == 0 {
        break;
      }
      StepDown(t, i, co);
      if i % co == 0 {
        NextChunk(x, t, co, i, output);
        output := output + [0];
      } else {
        SameChunk(x, t, co, i, output);
      }
      StepDown(t, i, ci);
      if i % ci == 0 {
        source := source + 1;
      }
      i := i - 1;
    }
    LastBits(x, t, co, output);
    AllCrossed(t, co);
  }

  /** How many element boundaries lie between the top bit and bit `i`. */
  function Crossed(t: nat, c: nat, i: nat): int
    requires c > 0 && t > 0
  {
    (t - 1) / c - i / c
  }

  lemma NoneCrossed(t: nat, c: nat)
    requires c > 0 && t > 0
    ensures Crossed(t, c, t - 1) == 0
  {
  }

  lemma AllCrossed(t: nat, c: nat)
    requires c > 0 && t > 0
    ensures Crossed(t, c, 0) + 1 == Ceiling(t, c)
  {
    CeilingMeaning(t, c);
    DivModUnique(0, c, 0, 0);
  }

  lemma InputLongEnough(t: nat, c: nat, n: nat)
    requires c > 0 && t <= c * n
    ensures Ceiling(t, c) <= n
  {
    CeilingMeaning(t, c);
    if t > 0 && (t - 1) / c >= n {
      MulMonotone(n, (t - 1) / c, c);
    }
  }

  lemma NoBitsCopied(input: seq<nat>, ci: nat, co: nat)
    ensures Horner(Pow(2, co), []) == Horner(Pow(2, ci), LowBits(input[..0], ci)) % Pow(2, 0)
  {
    assert Pow(2, 0) == 1;
  }

  /** Where the element boundary lies between bit i and bit i - 1. */
  lemma StepDown(t: nat, i: nat, c: nat)
    requires c > 0 && i > 0 && t > 0
    ensures Crossed(t, c, i - 1) == Crossed(t, c, i) + if i % c == 0 then 1 else 0
  {
    var q, r := i / c, i % c;
    assert i == q * c + r;
    assert (q - 1) * c == q * c - c;
    if r == 0 {
      DivModUnique(i - 1, c, q - 1, c - 1);
    } else {
      DivModUnique(i - 1, c, q, r - 1);
    }
  }

  lemma InputBit(input: seq<nat>, t: nat, c: nat, i: nat, source: int)
    requires c > 0 && i < t && Ceiling(t, c) <= |input| && source == Crossed(t, c, i)
    ensures 0 <= source < |input|
    ensures Bit(input[source], i % c) == Bit(Horner(Pow(2, c), LowBits(input[..Ceiling(t, c)], c)), i)
  {
    hide Bit, Horner, Pow, Trim, Ceiling, Crossed;
    var n := Ceiling(t, c);
    var s := LowBits(input[..n], c);
    SourceIndex(t, c, i, n);
    TrimBound(input[..n], c);
    DigitBit(c, s, i);
    assert s[source] == Trim(input[source], c);
    TrimIsTrim(input[source], c);
    PlaceWithin(i, c);
    TrimmedBit(input[source], c, i % c);
  }

  lemma PlaceWithin(i: nat, c: nat)
    requires c > 0
    ensures 0 <= i % c < c
  {
  }

  lemma SourceIndex(t: nat, c: nat, i: nat, n: nat)
    requires c > 0 && i < t && n == Ceiling(t, c)
    ensures 0 <= i / c < n && Crossed(t, c, i) == n - 1 - i / c && i < c * n
  {
    hide Ceiling;
    CeilingMeaning(t, c);
    QuotientOrder(i, t - 1, c);
    assert c * n == n * c;
  }

  lemma QuotientOrder(i: nat, j: nat, c: nat)
    requires c > 0 && i <= j
    ensures 0 <= i / c <= j / c
  {
    var q, p := i / c, j / c;
    assert i == q * c + i % c && j == p * c + j % c;
    assert (p + 1) * c == p * c + c;
    if q > p {
      MulMonotone(p + 1, q, c);
    }
  }

  lemma TrimIsTrim(x: nat, c: nat)
    ensures Pow(2, c) > 0 && Trim(x, c) == x % Pow(2, c) < Pow(2, c)
  {
  }

  lemma TrimBound(s: seq<nat>, c: nat)
    ensures forall k :: 0 <= k < |s| ==> LowBits(s, c)[k] < Pow(2, c)
  {
  }

  lemma LastBits(x: nat, t: nat, co: nat, output: seq<nat>)
    requires co > 0 && Horner(Pow(2, co), output) == x % Pow(2, t) / Pow(2, 0) * Pow(2, 0 % co)
    ensures Horner(Pow(2, co), output) == x % Pow(2, t)
  {
    DivModUnique(0, co, 0, 0);
    assert Pow(2, 0) == 1;
  }

  // Limbs, least significant first, against chunks, most significant first.

  function Flip(s: seq<nat>): (r: seq<nat>)
    ensures |r| == |s| && forall i :: 0 <= i < |s| ==> r[i] == s[|s| - 1 - i]
  {
    seq(|s|, i requires 0 <= i < |s| => s[|s| - 1 - i])
  }

  lemma {:induction false} HornerFlip(b: nat, s: seq<nat>)
    ensures Horner(b, Flip(s)) == Value(b, s)
  {
    if |s| > 0 {
      assert Flip(s)[..|s| - 1] == Flip(s[1..]);
      HornerFlip(b, s[1..]);
      ValueHead(b, s);
    }
  }

  lemma UpperLimbsZero(b: nat, s: seq<nat>, n: nat)
    requires b > 0 && n <= |s| && Value(b, s) < Pow(b, n)
    ensures Value(b, s[..n]) == Value(b, s)
  {
    hide Value, Pow;
    assert s == s[..n] + s[n..];
    ValueConcat(b, s[..n], s[n..]);
    var high := Value(b, s[n..]);
    if high > 0 {
      MulMonotone(1, high, Pow(b, n));
    }
    assert high == 0;
  }

  lemma LowBitsOfLimbs(s: seq<nat>, c: nat)
    requires IsLimbs(Pow(2, c), s)
    ensures LowBits(s, c) == s
  {
    forall i | 0 <= i < |s| ensures LowBits(s, c)[i] == s[i] {
      DivModUnique(s[i], Pow(2, c), 0, s[i]);
    }
  }

  /** The chunks in order of significance, the most significant first. */
  function InOrder(chunks: seq<nat>, msvFirst: bool): (r: seq<nat>)
    ensures |r| == |chunks|
  {
    if msvFirst then chunks else Flip(chunks)
  }

  /** The bits a number needs; one for zero. */
  function BitsOf(v: nat): nat {
    if v == 0 then 1 else BitLength(v)
  }

  ghost predicate IsExport(v: nat, c: nat, msvFirst: bool, chunks: seq<nat>)
    requires c > 0
  {
    && |chunks| == Ceiling(BitsOf(v), c) && IsLimbs(Pow(2, c), chunks)
    && Horner(Pow(2, c), InOrder(chunks, msvFirst)) == v
  }

  /** What `import_bits` makes of chunks given most significant first: the low
      c bits of each, cut to the width. */
  function Imported(width: nat, c: nat, s: seq<nat>): nat
    requires c > 0
  {
    var t := if c * |s| < width then c * |s| else width;
    InputFits(t, c, |s|);
    Horner(Pow(2, c), LowBits(s[..Ceiling(t, c)], c)) % Pow(2, t)
  }

  lemma InputFits(t: nat, c: nat, n: nat)
    requires c > 0 && t <= c * n
    ensures Ceiling(t, c) <= n
  {
    InputLongEnough(t, c, n);
  }

  lemma BitsOfBound(v: nat)
    ensures BitsOf(v) > 0 && v < Pow(2, BitsOf(v))
  {
    if v > 0 {
      BitLengthBounds(v);
    } else {
      assert Pow(2, 1) == 2;
    }
  }

  lemma LimbsNeeded(digits: nat, s: seq<nat>)
    requires digits > 0 && |s| > 0 && IsLimbs(Pow(2, digits), s)
    ensures var v := Value(Pow(2, digits), s);
      && BitsOf(v) <= digits * |s| && Ceiling(BitsOf(v), digits) <= |s|
      && Value(Pow(2, digits), s[..Ceiling(BitsOf(v), digits)]) == v
  {
    hide Value, Pow, BitLength;
    var b, v := Pow(2, digits), Value(Pow(2, digits), s);
    var n := Ceiling(BitsOf(v), digits);
    BitIsBit(0, digits);
    ValueBound(b, s);
    PowPow(2, digits, |s|);
    BitsWithin(v, digits * |s|);
    InputLongEnough(BitsOf(v), digits, |s|);
    CeilingMeaning(BitsOf(v), digits);
    BitsOfBound(v);
    PowPow(2, digits, n);
    PowMonotone(2, BitsOf(v), digits * n);
    UpperLimbsZero(b, s, n);
  }

  lemma BitsWithin(v: nat, n: nat)
    requires v < Pow(2, n) && n > 0
    ensures BitsOf(v) <= n
  {
    if v > 0 {
      BitLengthBounds(v);
      if BitLength(v) > n {
        PowMonotone(2, n, BitLength(v) - 1);
      }
    }
  }

  /** `export_bits` into elements of `elementDigits` bits. */
  method ExportBits(digits: nat, val: array<nat>, elementDigits: nat, chunkSize: nat, msvFirst: bool) returns (chunks: seq<nat>)
    requires digits > 0 && elementDigits > 0 && chunkSize > 0 && val.Length > 0 && IsLimbs(Pow(2, digits), val[..])
    ensures IsExport(Value(Pow(2, digits), val[..]), if elementDigits < chunkSize then elementDigits else chunkSize, msvFirst, chunks)
  {
    hide Value, Pow, Horner, LowBits, BitLength, BitsOf, Ceiling, IsExport;
    var c := if elementDigits < chunkSize then elementDigits else chunkSize;
    ghost var v := Value(Pow(2, digits), val[..]);
    var msb := Msb(digits, val);
    BitsFromMsb(v, msb);
    var n := Ceiling(msb + 1, digits);
    ExportInput(digits, val[..], msb + 1);
    assert val[..][..n] == val[..n];
    if elementDigits == digits && c == digits {
      chunks := if msvFirst then Flip(val[..n]) else val[..n];
      WholeExport(v, c, msvFirst, val[..n]);
    } else {
      var output := CopyBits(Flip(val[..n]), msb + 1, digits, c);
      chunks := if msvFirst then output else Flip(output);
      CopiedExport(v, msb + 1, digits, c, msvFirst, Flip(val[..n]), output);
    }
  }

  lemma BitsFromMsb(v: nat, msb: nat)
    requires if v == 0 then msb == 0 else BitLength(v) == msb + 1
    ensures BitsOf(v) == msb + 1
  {
  }

  /** The limbs an export starts from, most significant first. */
  lemma ExportInput(digits: nat, s: seq<nat>, bits: nat)
    requires digits > 0 && |s| > 0 && IsLimbs(Pow(2, digits), s) && bits == BitsOf(Value(Pow(2, digits), s))
    ensures Ceiling(bits, digits) <= |s| && bits <= digits * Ceiling(bits, digits)
    ensures var n := Ceiling(bits, digits); var input := Flip(s[..n]);
      && IsLimbs(Pow(2, digits), input) && IsLimbs(Pow(2, digits), s[..n])
      && Horner(Pow(2, digits), input) == Value(Pow(2, digits), s)
  {
    hide Value, Pow, Horner, BitsOf, Ceiling;
    LimbsNeeded(digits, s);
    CeilingMeaning(bits, digits);
    HornerFlip(Pow(2, digits), s[..Ceiling(bits, digits)]);
  }

  lemma WholeExport(v: nat, c: nat, msvFirst: bool, low: seq<nat>)
    requires c > 0 && |low| == Ceiling(BitsOf(v), c) && IsLimbs(Pow(2, c), low) && Horner(Pow(2, c), Flip(low)) == v
    ensures IsExport(v, c, msvFirst, if msvFirst then Flip(low) else low)
  {
    hide Pow, Horner, BitsOf, Ceiling;
  }

  lemma CopiedExport(v: nat, bits: nat, digits: nat, c: nat, msvFirst: bool, input: seq<nat>, output: seq<nat>)
    requires c > 0 && digits > 0 && bits == BitsOf(v) && |input| == Ceiling(bits, digits)
    requires IsLimbs(Pow(2, digits), input) && Horner(Pow(2, digits), input) == v
    requires |output| == Ceiling(bits, c) && IsLimbs(Pow(2, c), output)
    requires Horner(Pow(2, c), output) == Horner(Pow(2, digits), LowBits(input[..|input|], digits)) % Pow(2, bits)
    ensures IsExport(v, c, msvFirst, if msvFirst then output else Flip(output))
  {
    hide Pow, Horner, LowBits, BitsOf, Ceiling;
    assert input[..|input|] == input;
    LowBitsOfLimbs(input, digits);
    BitsOfBound(v);
    DivModUnique(v, Pow(2, bits), 0, v);
    assert Flip(Flip(output)) == output;
  }

  /** Most significant first into the low limbs, the rest cleared. */
  method StoreFlipped(b: nat, val: array<nat>, s: seq<nat>)
    requires b > 0 && |s| <= val.Length && IsLimbs(b, s)
    modifies val
    ensures IsLimbs(b, val[..]) && Value(b, val[..]) == Horner(b, s)
  {
    hide Value, Horner;
    var n := |s|;
    for k := 0 to n
      invariant forall i :: n - k <= i < n ==> val[i] == s[n - 1 - i]
    {
      val[n - 1 - k] := s[k];
    }
    for k := n to val.Length
      invariant forall i :: 0 <= i < n ==> val[i] == s[n - 1 - i]
      invariant forall i :: n <= i < k ==> val[i] == 0
    {
      val[k] := 0;
    }
    assert s == Flip(val[..n]);
    HornerFlip(b, val[..n]);
    assert val[..] == val[..n] + val[n..];
    ValueConcat(b, val[..n], val[n..]);
    ValueZeros(b, val[n..]);
  }

  /** `import_bits` from elements of `elementDigits` bits. */
  method ImportBits(digits: nat, val: array<nat>, elementDigits: nat, chunks: seq<nat>, chunkSize: nat, msvFirst: bool)
    requires digits > 0 && elementDigits > 0 && IsLimbs(Pow(2, elementDigits), chunks)
    modifies val
    ensures IsLimbs(Pow(2, digits), val[..])
    ensures var c := if chunkSize == 0 || elementDigits < chunkSize then elementDigits else chunkSize;
      Value(Pow(2, digits), val[..]) == Imported(digits * val.Length, c, InOrder(chunks, msvFirst))
  {
    hide Value, Pow, Horner, LowBits;
    var c := if chunkSize == 0 || elementDigits < chunkSize then elementDigits else chunkSize;
    var s := InOrder(chunks, msvFirst);
    var width := digits * val.Length;
    BitIsBit(0, digits);
    if elementDigits == digits && c == digits {
      var count := if |s| < val.Length then |s| else val.Length;
      WholeChunks(digits, val.Length, s, count);
      StoreFlipped(Pow(2, digits), val, s[..count]);
    } else {
      var t := if c * |s| < width then c * |s| else width;
      var output := CopyBits(s, t, c, digits);
      InputLongEnough(t, digits, val.Length);
      StoreFlipped(Pow(2, digits), val, output);
    }
  }

  /** Whole limbs need no bit copying. */
  lemma WholeChunks(digits: nat, size: nat, s: seq<nat>, count: nat)
    requires digits > 0 && IsLimbs(Pow(2, digits), s) && count == if |s| < size then |s| else size
    ensures Imported(digits * size, digits, s) == Horner(Pow(2, digits), s[..count])
  {
    hide Pow, Horner, LowBits;
    SmallerProduct(digits, |s|, size);
    var low, b := s[..count], Pow(2, digits);
    WholeCount(digits, count);
    LowBitsOfLimbs(low, digits);
    HornerBound(digits, low);
    DivModUnique(Horner(b, low), Pow(2, digits * count), 0, Horner(b, low));
  }

  lemma SmallerProduct(d: nat, m: nat, n: nat)
    requires d > 0
    ensures (if d * m < d * n then d * m else d * n) == d * if m < n then m else n
  {
    if m < n {
      MulMonotone(m + 1, n, d);
    } else {
      MulMonotone(n, m, d);
    }
  }

  lemma WholeCount(d: nat, count: nat)
    requires d > 0
    ensures Ceiling(d * count, d) == count
  {
    DivModUnique(d * count, d, count, 0);
  }

  lemma HornerBound(digits: nat, s: seq<nat>)
    requires IsLimbs(Pow(2, digits), s)
    ensures Horner(Pow(2, digits), s) < Pow(2, digits * |s|)
  {
    hide Pow, Horner;
    BitIsBit(0, digits);
    ValueBound(Pow(2, digits), Flip(s));
    HornerFlip(Pow(2, digits), Flip(s));
    assert Flip(Flip(s)) == s;
    PowPow(2, digits, |s|);
  }

  /** Importing what was exported gives every unsigned value back, whatever the
      chunk size and order; the first chunk may overhang the width. */
  lemma ChunksRoundTrip(width: nat, v: nat, c: nat, msvFirst: bool, chunks: seq<nat>)
    requires c > 0 && width > 0 && v < Pow(2, width) && IsExport(v, c, msvFirst, chunks)
    ensures Imported(width, c, InOrder(chunks, msvFirst)) == v
  {
    hide Pow, Horner, LowBits, BitLength, BitsOf, Ceiling;
    var s := InOrder(chunks, msvFirst);
    assert IsLimbs(Pow(2, c), s);
    BitsWithin(v, width);
    BitsOfBound(v);
    CeilingMeaning(BitsOf(v), c);
    CountCommutes(c, |s|);
    var t := if c * |s| < width then c * |s| else width;
    ImportedWhole(width, c, s, t);
    CeilingMonotone(BitsOf(v), t, c);
    InputFits(t, c, |s|);
    assert s[..|s|] == s;
    LowBitsOfLimbs(s, c);
    PowMonotone(2, BitsOf(v), t);
    DivModUnique(v, Pow(2, t), 0, v);
  }

  lemma CountCommutes(c: int, n: int)
    ensures c * n == n * c
  {
  }

  lemma ImportedWhole(width: nat, c: nat, s: seq<nat>, t: nat)
    requires c > 0 && t == if c * |s| < width then c * |s| else width
    ensures Ceiling(t, c) <= |s| && Pow(2, t) > 0
    ensures Imported(width, c, s) == Horner(Pow(2, c), LowBits(s[..Ceiling(t, c)], c)) % Pow(2, t)
  {
    hide Horner, LowBits, Ceiling;
    InputFits(t, c, |s|);
  }

  /** The digits of a number, from the number. */
  lemma {:induction false} HornerDigit(c: nat, s: seq<nat>, q: nat)
    requires IsLimbs(Pow(2, c), s) && q < |s|
    ensures Pow(2, c * q) > 0 && Horner(Pow(2, c), s) / Pow(2, c * q) % Pow(2, c) == s[|s| - 1 - q]
  {
    hide Pow;
    var b, n := Pow(2, c), |s| - 1;
    PowPositive(2, c);
    PowPositive(2, c * q);
    DivModUnique(Horner(b, s), b, Horner(b, s[..n]), s[n]);
    if q == 0 {
      SmallPowers(2);
      assert c * q == 0;
    } else {
      HornerDigit(c, s[..n], q - 1);
      assert c * q == c + c * (q - 1);
      PowAdd(2, c, c * (q - 1));
      DivideTwice(Horner(b, s), b, Pow(2, c * (q - 1)));
    }
  }

  /** Chunk k of an export holds c bits of the value: counted from the top when
      the most significant chunk comes first, from the bottom otherwise. */
  lemma ExportedChunk(v: nat, c: nat, msvFirst: bool, chunks: seq<nat>, k: nat)
    requires c > 0 && IsExport(v, c, msvFirst, chunks) && k < |chunks|
    ensures var place := if msvFirst then |chunks| - 1 - k else k;
      Pow(2, c * place) > 0 && chunks[k] == v / Pow(2, c * place) % Pow(2, c)
  {
    hide Pow, Horner;
    var s := InOrder(chunks, msvFirst);
    assert IsLimbs(Pow(2, c), s);
    HornerDigit(c, s, if msvFirst then |chunks| - 1 - k else k);
  }

  // What an import makes of any list of chunks.

  /** Chunks beyond the width's are ignored: what is imported is the number of
      the leading ones, modulo the width. */
  lemma ImportedLeading(width: nat, c: nat, s: seq<nat>)
    requires c > 0
    ensures var m := Ceiling(width, c); var lead := if |s| < m then s else s[..m];
      Pow(2, width) > 0 && Imported(width, c, s) == Horner(Pow(2, c), LowBits(lead, c)) % Pow(2, width)
  {
    hide Pow, Horner, LowBits, Ceiling;
    var m := Ceiling(width, c);
    var t := if c * |s| < width then c * |s| else width;
    ImportedWhole(width, c, s, t);
    PowPositive(2, width);
    CeilingMeaning(width, c);
    CountCommutes(c, m);
    if |s| < m {
      InputFits(t, c, |s|);
      FewerChunks(width, c, |s|, t);
      assert s[..|s|] == s;
      TrimmedNumber(c, s);
      PowMonotone(2, t, width);
      DivModUnique(Horner(Pow(2, c), LowBits(s, c)), Pow(2, t), 0, Horner(Pow(2, c), LowBits(s, c)));
      DivModUnique(Horner(Pow(2, c), LowBits(s, c)), Pow(2, width), 0, Horner(Pow(2, c), LowBits(s, c)));
    } else {
      MulMonotone(m, |s|, c);
      CountCommutes(c, |s|);
    }
  }

  /** Below the width's number of chunks every chunk is used, whole. */
  lemma FewerChunks(width: nat, c: nat, n: nat, t: nat)
    requires c > 0 && n < Ceiling(width, c) && t == if c * n < width then c * n else width
    ensures t == c * n && Ceiling(t, c) == n
  {
    hide Ceiling;
    if c * n >= width {
      InputLongEnough(width, c, n);
    }
    WholeCount(c, n);
  }

  lemma TrimmedNumber(c: nat, s: seq<nat>)
    ensures Horner(Pow(2, c), LowBits(s, c)) < Pow(2, c * |s|)
  {
    hide Pow, Horner;
    PowPositive(2, c);
    TrimBound(s, c);
    HornerBound(c, LowBits(s, c));
  }

  /** The number the chunks spell is imported, modulo the width, for all chunks
      of a given count exactly when the width needs that many. */
  lemma ImportsExactly(width: nat, c: nat, n: nat)
    requires c > 0 && width > 0
    ensures Pow(2, width) > 0
    ensures (forall s: seq<nat> :: |s| == n ==> Imported(width, c, s) == Horner(Pow(2, c), LowBits(s, c)) % Pow(2, width))
       <==> n <= Ceiling(width, c)
  {
    hide Pow, Horner, LowBits, Ceiling, Imported;
    PowPositive(2, width);
    var m := Ceiling(width, c);
    if n <= m {
      forall s: seq<nat> | |s| == n ensures Imported(width, c, s) == Horner(Pow(2, c), LowBits(s, c)) % Pow(2, width) {
        ImportedLeading(width, c, s);
        assert s[..|s|] == s;
      }
    } else {
      var s: seq<nat> := LastChunkOnly(n);
      ImportedLeading(width, c, s);
      ZeroChunks(c, s[..m]);
      OneChunk(c, s);
      SmallPowers(2);
      PowMonotone(2, 1, width);
      DivModUnique(0, Pow(2, width), 0, 0);
      DivModUnique(1, Pow(2, width), 0, 1);
      assert |s| == n;
    }
  }

  /** n - 1 zero chunks and a last chunk 1. */
  function LastChunkOnly(n: nat): (s: seq<nat>)
    requires n > 0
    ensures |s| == n && s[n - 1] == 1 && forall i :: 0 <= i < n - 1 ==> s[i] == 0
  {
    seq(n - 1, _ => 0) + [1]
  }

  lemma {:induction false} ZeroChunks(c: nat, s: seq<nat>)
    requires forall i :: 0 <= i < |s| ==> s[i] == 0
    ensures Horner(Pow(2, c), LowBits(s, c)) == 0
  {
    hide Pow;
    if |s| > 0 {
      var n := |s| - 1;
      PowPositive(2, c);
      DivModUnique(0, Pow(2, c), 0, 0);
      assert LowBits(s, c)[..n] == LowBits(s[..n], c);
      ZeroChunks(c, s[..n]);
    }
  }

  lemma OneChunk(c: nat, s: seq<nat>)
    requires c > 0 && |s| > 0 && s[|s| - 1] == 1 && forall i :: 0 <= i < |s| - 1 ==> s[i] == 0
    ensures Horner(Pow(2, c), LowBits(s, c)) == 1
  {
    hide Pow;
    var n := |s| - 1;
    assert LowBits(s, c)[..n] == LowBits(s[..n], c);
    ZeroChunks(c, s[..n]);
    SmallPowers(2);
    PowMonotone(2, 1, c);
    DivModUnique(1, Pow(2, c), 0, 1);
  }

  /** 65536 in three bytes comes in as 256 at width 16, not as 65536 mod 2^16. */
  lemma ThreeBytesInSixteenBits()
    ensures Imported(16, 8, [1, 0, 0]) == 256 && Horner(Pow(2, 8), LowBits([1, 0, 0], 8)) % Pow(2, 16) == 0
  {
    ByteAndWord();
    hide Pow, Imported, LowBits, Horner;
    ImportedLeading(16, 8, [1, 0, 0]);
    assert [1, 0, 0][..2] == [1, 0];
    LowBitsOfLimbs([1, 0], 8);
    LowBitsOfLimbs([1, 0, 0], 8);
    SpeltBytes();
  }

  lemma ByteAndWord()
    ensures Pow(2, 8) == 256 && Pow(2, 16) == 65536
  {
    SmallPowers(2);
    PowAdd(2, 2, 2);
    PowAdd(2, 4, 4);
    PowAdd(2, 8, 8);
  }

  lemma SpeltBytes()
    ensures Horner(256, [1, 0]) == 256 && Horner(256, [1, 0, 0]) == 65536
  {
    assert Horner(256, []) == 0;
    hide Horner;
    HornerSnoc(256, [], 1);
    HornerSnoc(256, [1], 0);
    HornerSnoc(256, [1, 0], 0);
    assert [] + [1] == [1] && [1] + [0] == [1, 0] && [1, 0] + [0] == [1, 0, 0];
  }

  lemma CeilingMonotone(m: nat, n: nat, c: nat)
    requires c > 0 && m <= n
    ensures Ceiling(m, c) <= Ceiling(n, c)
  {
    CeilingMeaning(n, c);
    InputLongEnough(m, c, Ceiling(n, c));
  }
}