/** What is read back of printed text: text cut by its buffer, and padded text. */
module TextRoundTrips {
  import opened Powers
  import opened Sequences
  import opened WideText

  /** What a text starts with: the sign of a negative decimal number or the one
      asked for, then the prefix of its base, then no zero but that of 0. */
  lemma TextStarts(width: nat, bits: nat, signed: bool, base: nat, showBase: bool, showPos: bool, upper: bool)
    requires bits < Pow(2, width) && (base == 8 || base == 10 || base == 16)
    ensures var text := Text(width, bits, signed, base, showBase, showPos, upper);
      var negative := base == 10 && signed && Pow(2, width) <= 2 * bits;
      && (text[0] == '-' <==> negative) && (text[0] == '+' <==> showPos && !negative)
      && var digits := if negative || showPos then text[1..] else text;
         && |digits| > 0
         && (base == 16 && showBase ==> |digits| > 2 && digits[0] == '0' && digits[1] == if upper then 'X' else 'x')
         && (base == 8 && showBase ==> |digits| > 1 && digits[0] == '0')
         && (base == 10 || !showBase ==> (digits[0] == '0' <==> digits == "0"))
  {
    hide Pow, Digits;
    var negative := IsNegative(width, bits, signed);
    var x := Written(width, bits, negative, base);
    var sign, prefix, digits := Sign(base, negative, showPos), Prefix(base, showBase, upper), Digits(base, x, upper);
    FirstDigit(base, x, upper);
    ZeroDigits(base, upper);
    assert sign + prefix + digits == sign + (prefix + digits);
    assert (sign + (prefix + digits))[|sign|..] == prefix + digits;
    assert digits[0] == '0' ==> digits == "0";
  }

  // Text cut by its buffer.

  /** The last digits of a number read, in base 10 or 8, as no more than its remainder. */
  lemma {:induction false} LastDigitsReading(width: nat, base: nat, x: nat, upper: bool, n: nat)
    requires (base == 8 || base == 10) && n <= |Digits(10, x, upper)|
    ensures var r := ReadDigits(width, Kept(Digits(10, x, upper), n), base, 0); r.ok ==> r.bits <= x % Pow(10, n)
    decreases n
  {
    hide AppendDigit, Pow;
    if n == 0 {
      PowPositive(10, 0);
    } else {
      var q, d := x / 10, x % 10;
      var last := [DigitChar(d, upper)];
      assert last[1..] == "";
      RemainderStep(x, n);
      DigitAppend(width, base, 0, d, upper);
      if x < 10 {
        assert Kept(Digits(10, x, upper), n) == last && DigitChar(x, upper) == last[0];
      } else {
        var head := Kept(Digits(10, q, upper), n - 1);
        assert Kept(Digits(10, x, upper), n) == head + last;
        LastDigitsReading(width, base, q, upper, n - 1);
        var r := ReadDigits(width, head, base, 0);
        if r.ok {
          ReadConcat(width, head, last, base, 0);
          DigitAppend(width, base, r.bits, d, upper);
        } else {
          ReadStops(width, head, last, base, 0);
        }
      }
    }
  }

  lemma RemainderStep(x: nat, n: nat)
    requires n > 0
    ensures Pow(10, n) > 0 && Pow(10, n - 1) > 0 && x % Pow(10, n) == x / 10 % Pow(10, n - 1) * 10 + x % 10
    ensures x < 10 ==> x % Pow(10, n) == x
  {
    hide Pow;
    PowPositive(10, n - 1);
    NextPower(10, n - 1);
    LastPlace(x, Pow(10, n - 1));
    DivModUnique(0, Pow(10, n - 1), 0, 0);
  }

  lemma LastPlace(x: nat, p: nat)
    requires p > 0
    ensures x % (p * 10) == x / 10 % p * 10 + x % 10
  {
    var q, d := x / 10, x % 10;
    var k, r := q / p, q % p;
    assert q == k * p + r;
    Spread(k, p, r, d);
    DivModUnique(x, p * 10, k, r * 10 + d);
  }

  lemma Spread(k: nat, p: nat, r: nat, d: nat)
    ensures (k * p + r) * 10 + d == k * (p * 10) + (r * 10 + d)
  {
  }

  lemma DigitAppend(width: nat, base: nat, v: nat, d: nat, upper: bool)
    requires (base == 8 || base == 10) && d <= 9
    ensures DigitChar(d, upper) != '\''
    ensures IsDigit(base, DigitChar(d, upper)) ==> AppendDigit(width, base, v, DigitChar(d, upper)) <= v * 10 + d
  {
    if base == 8 {
      if d <= 8 {
        OctalAppend(width, v, d, upper);
      }
    } else {
      var m := Pow(2, width);
      RemainderBelow(v * 10, m);
      RemainderBelow(v * 10 % m + d, m);
    }
  }

  lemma RemainderBelow(x: nat, m: nat)
    requires m > 0
    ensures x % m <= x
  {
    assert x == x / m * m + x % m;
  }

  /** Every character of decimal digits is one. */
  lemma {:induction false} DecimalDigits(x: nat, upper: bool, i: nat)
    requires i < |Digits(10, x, upper)|
    ensures '0' <= Digits(10, x, upper)[i] <= '9'
    decreases x
  {
    if x >= 10 && i < |Digits(10, x / 10, upper)| {
      DecimalDigits(x / 10, upper, i);
    }
  }

  /** Text that has lost leading digits reads as a number below the one written. */
  lemma CutTextReading(width: nat, x: nat, upper: bool, n: nat)
    requires 1 < n < |Digits(10, x, upper)|
    ensures var r := Parse(width, Kept(Digits(10, x, upper), n), 0); r.ok ==> r.bits < x
  {
    hide Digits, Pow, ReadDigits;
    var digits := Digits(10, x, upper);
    var s := Kept(digits, n);
    assert s[0] == digits[|digits| - n] && s[1] == digits[|digits| - n + 1];
    DecimalDigits(x, upper, |digits| - n);
    DecimalDigits(x, upper, |digits| - n + 1);
    assert SignLength(s) == 0 && DetectBase(s, 0, 0) in {BaseAt(10, 0), BaseAt(8, 1)};
    assert s[0..] == s && s[1..] == Kept(digits, n - 1);
    LastDigitsReading(width, 10, x, upper, n);
    LastDigitsReading(width, 8, x, upper, n - 1);
    DigitsExactly(10, x, upper, n);
    DigitsExactly(10, x, upper, n - 1);
    RemainderSmaller(x, Pow(10, n));
    RemainderSmaller(x, Pow(10, n - 1));
  }

  lemma RemainderSmaller(x: nat, p: nat)
    requires x >= p > 0
    ensures x % p < x
  {
  }

  /** Parsing what was printed gives the number back exactly when no digit was
      cut off, nor the minus sign of a number other than the minimum: in base 10,
      and in bases 8 and 16 with the base shown. */
  lemma TextRoundTrip(width: nat, bits: nat, signed: bool, base: nat, showBase: bool, showPos: bool, upper: bool)
    requires width > 0 && bits < Pow(2, width) && (base == 10 || ((base == 8 || base == 16) && showBase))
    ensures var negative := IsNegative(width, bits, signed);
      var digits := Digits(base, Written(width, bits, negative, base), upper);
      Parse(width, Printed(width, bits, signed, base, showBase, showPos, upper), 0) == Parsed(true, bits)
      <==> |digits| < BufferSize(base, width) && (base == 10 && negative && |digits| == BufferSize(base, width) - 1 ==> 2 * bits == Pow(2, width))
  {
    hide Pow, Digits, Parse, Printed, Text, Fits, IsNegative, Written, BufferSize;
    PrintedExactly(width, bits, signed, base, showBase, showPos, upper);
    if base != 10 {
      FitsAlways(width, bits, signed, base, showBase, showPos, upper);
      TextReads(width, bits, signed, base, showBase, showPos, upper);
      TextFits(width, bits, signed, base, showBase, showPos, upper);
    } else {
      DecimalRoundTrip(width, bits, signed, showBase, showPos, upper);
    }
  }

  lemma TextFits(width: nat, bits: nat, signed: bool, base: nat, showBase: bool, showPos: bool, upper: bool)
    requires bits < Pow(2, width) && 2 <= base <= 16
    ensures var negative := IsNegative(width, bits, signed); var digits := Digits(base, Written(width, bits, negative, base), upper);
      Fits(width, bits, signed, base, showBase, showPos, upper)
      <==> |Sign(base, negative, showPos)| + |Prefix(base, showBase, upper)| + |digits| < BufferSize(base, width)
  {
  }

  lemma DecimalRoundTrip(width: nat, bits: nat, signed: bool, showBase: bool, showPos: bool, upper: bool)
    requires bits < Pow(2, width)
    ensures var negative := IsNegative(width, bits, signed);
      var digits := Digits(10, Written(width, bits, negative, 10), upper);
      Parse(width, Printed(width, bits, signed, 10, showBase, showPos, upper), 0) == Parsed(true, bits)
      <==> |digits| < BufferSize(10, width) && (negative && |digits| == BufferSize(10, width) - 1 ==> 2 * bits == Pow(2, width))
  {
    hide Pow, Digits, Parse, BufferSize, IsNegative;
    BufferLarge(10, width);
    var n, negative := BufferSize(10, width) - 1, IsNegative(width, bits, signed);
    var x := Written(width, bits, negative, 10);
    var digits := Digits(10, x, upper);
    PrintedExactly(width, bits, signed, 10, showBase, showPos, upper);
    TextFits(width, bits, signed, 10, showBase, showPos, upper);
    PrefixLength(10, showBase, upper);
    SignedMagnitude(width, bits, signed);
    if Fits(width, bits, signed, 10, showBase, showPos, upper) {
      TextReads(width, bits, signed, 10, showBase, showPos, upper);
    } else {
      assert Printed(width, bits, signed, 10, showBase, showPos, upper) == Kept(digits, n);
      if |digits| == n {
        PlainReads(width, x, upper);
      } else {
        CutTextReading(width, x, upper, n);
      }
    }
  }

  lemma SignedMagnitude(width: nat, bits: nat, signed: bool)
    requires bits < Pow(2, width)
    ensures var negative := IsNegative(width, bits, signed); var x := Written(width, bits, negative, 10);
      x <= bits && x < Pow(2, width) && (x == bits <==> !negative || 2 * bits == Pow(2, width))
  {
    var m := Pow(2, width);
    if IsNegative(width, bits, signed) {
      DivModUnique(m - bits, m, 0, m - bits);
    }
  }

  lemma PlainReads(width: nat, x: nat, upper: bool)
    requires x < Pow(2, width)
    ensures Parse(width, Digits(10, x, upper), 0) == Parsed(true, x)
  {
    hide Pow, Digits, Parse;
    TextReads(width, x, false, 10, false, false, upper);
    assert Text(width, x, false, 10, false, false, upper) == "" + "" + Digits(10, x, upper) == Digits(10, x, upper);
  }

  // A field width and a fill character.

  lemma {:induction false} ReadZeros(width: nat, base: nat, k: nat, t: string)
    requires base == 8 || base == 10
    ensures ReadDigits(width, Repeated(k, '0') + t, base, 0) == ReadDigits(width, t, base, 0)
  {
    var s := Repeated(k, '0') + t;
    if k == 0 {
      assert s == t;
    } else {
      assert s[1..] == Repeated(k - 1, '0') + t;
      ZeroAppended(width, base);
      ReadZeros(width, base, k - 1, t);
    }
  }

  lemma ZeroAppended(width: nat, base: nat)
    requires base == 8 || base == 10
    ensures AppendDigit(width, base, 0, '0') == 0
  {
    DivModUnique(0, Pow(2, width), 0, 0);
  }

  /** Decimal digits read in octal are no number, or a smaller one from two digits on. */
  lemma {:induction false} OctalReading(width: nat, x: nat, upper: bool)
    requires x < Pow(2, width)
    ensures var r := ReadDigits(width, Digits(10, x, upper), 8, 0);
      (r.ok ==> r.bits <= x && (x >= 10 ==> r.bits < x)) && (x <= 8 ==> r == Parsed(true, x)) && (x == 9 ==> !r.ok)
    decreases x
  {
    hide AppendDigit, Pow;
    var d := x % 10;
    var last := [DigitChar(d, upper)];
    assert last[1..] == "";
    if x < 10 {
      if x < 9 {
        OctalAppend(width, 0, d, upper);
      }
    } else {
      Quotient(10, x);
      var head := Digits(10, x / 10, upper);
      OctalReading(width, x / 10, upper);
      if ReadDigits(width, head, 8, 0).ok {
        ReadConcat(width, head, last, 8, 0);
        if d <= 8 {
          OctalAppend(width, ReadDigits(width, head, 8, 0).bits, d, upper);
        }
      } else {
        ReadStops(width, head, last, 8, 0);
      }
    }
  }

  lemma OctalAppend(width: nat, v: nat, d: nat, upper: bool)
    requires d <= 8
    ensures IsDigit(8, DigitChar(d, upper)) && AppendDigit(width, 8, v, DigitChar(d, upper)) <= v * 8 + d
    ensures v == 0 ==> AppendDigit(width, 8, v, DigitChar(d, upper)) == d
  {
    var m := Pow(2, width);
    assert v * 8 % m <= v * 8 by { assert v * 8 == v * 8 / m * m + v * 8 % m; }
  }

  lemma {:induction false} ReadStops(width: nat, s: string, t: string, base: nat, v: nat)
    requires !ReadDigits(width, s, base, v).ok
    ensures !ReadDigits(width, s + t, base, v).ok
    decreases |s|
  {
    assert (s + t)[1..] == s[1..] + t;
    if s[0] == '\'' {
      ReadStops(width, s[1..], t, base, v);
    } else if IsDigit(base, s[0]) {
      ReadStops(width, s[1..], t, base, AppendDigit(width, base, v, s[0]));
    }
  }

  lemma NineIsNine(x: nat, upper: bool)
    ensures x <= 8 ==> Digits(10, x, upper)[0] != '9'
  {
  }

  /** A character that is no digit stops the reading wherever it stands. */
  lemma {:induction false} ReadBlocked(width: nat, s: string, base: nat, v: nat, i: nat)
    requires i < |s| && s[i] != '\'' && !IsDigit(base, s[i])
    ensures !ReadDigits(width, s, base, v).ok
    decreases |s|
  {
    if i > 0 && (s[0] == '\'' || IsDigit(base, s[0])) {
      ReadBlocked(width, s[1..], base, if s[0] == '\'' then v else AppendDigit(width, base, v, s[0]), i - 1);
    }
  }

  lemma ParseBlocked(width: nat, s: string, i: nat)
    requires var start := DetectBase(s, SignLength(s), 0); start.pos <= i < |s| && s[i] != '\'' && !IsDigit(start.base, s[i])
    ensures !Parse(width, s, 0).ok
  {
    hide ReadDigits;
    var start := DetectBase(s, SignLength(s), 0);
    assert s[start.pos..][i - start.pos] == s[i];
    ReadBlocked(width, s[start.pos..], start.base, 0, i - start.pos);
  }

  /** Apostrophes are skipped. */
  lemma {:induction false} ReadApostrophes(width: nat, base: nat, k: nat, t: string, v: nat)
    ensures ReadDigits(width, Repeated(k, '\'') + t, base, v) == ReadDigits(width, t, base, v)
  {
    var s := Repeated(k, '\'') + t;
    if k == 0 {
      assert s == t;
    } else {
      assert s[1..] == Repeated(k - 1, '\'') + t;
      ReadApostrophes(width, base, k - 1, t, v);
    }
  }

  predicate AllDecimal(s: string) {
    forall i :: 0 <= i < |s| ==> '0' <= s[i] <= '9'
  }

  /** The number that decimal digits spell behind `v`, without any width. */
  function Spelt(s: string, v: nat): nat
    requires AllDecimal(s)
  {
    if |s| == 0 then v else Spelt(s[1..], v * 10 + (s[0] as nat - 0x30))
  }

  lemma {:induction false} ReadSpelt(width: nat, s: string, v: nat)
    requires AllDecimal(s)
    ensures Pow(2, width) > 0 && ReadDigits(width, s, 10, v % Pow(2, width)) == Parsed(true, Spelt(s, v) % Pow(2, width))
    decreases |s|
  {
    hide Pow, AppendDigit;
    PowPositive(2, width);
    if |s| > 0 {
      var d := s[0] as nat - 0x30;
      ReadSpelt(width, s[1..], v * 10 + d);
      AppendDecimal(width, v % Pow(2, width), s[0]);
      AppendResidue(v, d, Pow(2, width));
    }
  }

  lemma AppendDecimal(width: nat, v: nat, c: char)
    requires '0' <= c <= '9'
    ensures Pow(2, width) > 0 && IsDigit(10, c) && c != '\''
    ensures AppendDigit(width, 10, v, c) == (v * 10 % Pow(2, width) + (c as nat - 0x30)) % Pow(2, width)
  {
  }

  lemma AppendResidue(v: nat, d: nat, m: nat)
    requires m > 0
    ensures (v % m * 10 % m + d) % m == (v * 10 + d) % m
  {
    var k, r := v / m, v % m;
    var l := r * 10 / m;
    assert v == k * m + r && r * 10 == l * m + r * 10 % m;
    TenMultiples(k, m, r, l, r * 10 % m, d);
    ModAddMultiple(r * 10 % m + d, k * 10 + l, m);
  }

  lemma TenMultiples(k: int, m: int, r: int, l: int, e: int, d: int)
    requires r * 10 == l * m + e
    ensures (k * m + r) * 10 + d == e + d + (k * 10 + l) * m
  {
  }

  lemma {:induction false} SpeltShift(s: string, v: nat)
    requires AllDecimal(s)
    ensures Spelt(s, v) == v * Pow(10, |s|) + Spelt(s, 0)
    decreases |s|
  {
    if |s| > 0 {
      var d := s[0] as nat - 0x30;
      SpeltShift(s[1..], v * 10 + d);
      SpeltShift(s[1..], d);
      ShiftSplit(v, d, Pow(10, |s| - 1));
    } else {
      assert Pow(10, 0) == 1;
    }
  }

  lemma ShiftSplit(v: nat, d: nat, p: nat)
    ensures (v * 10 + d) * p == v * (p * 10) + d * p
  {
  }

  /** The number spelt by k equal digits is an odd multiple of the digit. */
  lemma {:induction false} RepeatedDigit(k: nat, c: char, v: nat, j: nat) returns (odd: nat)
    requires k > 0 && '1' <= c <= '9' && v == (c as nat - 0x30) * j && (j % 2 == 1 || j == 0)
    ensures AllDecimal(Repeated(k, c)) && odd % 2 == 1 && Spelt(Repeated(k, c), v) == (c as nat - 0x30) * odd
  {
    var s, d := Repeated(k, c), c as nat - 0x30;
    assert s[1..] == Repeated(k - 1, c);
    assert v * 10 + d == d * (j * 10 + 1);
    if k == 1 {
      odd := j * 10 + 1;
      assert s[1..] == "";
    } else {
      odd := RepeatedDigit(k - 1, c, v * 10 + d, j * 10 + 1);
    }
  }

  /** Four more factors of two than there are decimal places leave no room for
      an odd multiple of a digit. */
  lemma NoMultiple(d: nat, odd: nat, n: nat, width: nat)
    requires 1 <= d <= 9 && odd % 2 == 1 && n + 4 <= width
    ensures Pow(2, width) > 0 && (d * odd) * Pow(10, n) % Pow(2, width) != 0
  {
    hide Pow;
    var f := Pow(5, n);
    var p, t := PowerParts(n, width);
    if (d * odd) * (p * f) % (p * (16 * t)) == 0 {
      var q := WholeQuotient((d * odd) * (p * f), p * (16 * t));
      OddTimesOdd(odd, f);
      CancelPower(d * odd, f, p, 16 * t, q);
      FactorSixteen(q, t);
      Regroup(d, odd, f);
      NoSixteen(d, odd * f, q * t);
    }
  }

  lemma WholeQuotient(x: nat, m: nat) returns (q: nat)
    requires m > 0 && x % m == 0
    ensures x == q * m
  {
    q := x / m;
  }

  /** Ten and two to the powers in question, over their common power of two. */
  lemma PowerParts(n: nat, width: nat) returns (p: nat, t: nat)
    requires n + 4 <= width
    ensures p > 0 && Pow(10, n) == p * Pow(5, n) && Pow(5, n) % 2 == 1 && Pow(2, width) == p * (16 * t) > 0
  {
    assert Pow(2, 4) == 16;
    hide Pow;
    p, t := Pow(2, n), Pow(2, width - n - 4);
    OddPower(n);
    PowProduct(2, 5, n);
    PowAdd(2, n, width - n);
    PowAdd(2, 4, width - n - 4);
    PowPositive(2, n);
    PowPositive(2, width);
  }

  lemma {:induction false} OddPower(n: nat)
    ensures Pow(5, n) % 2 == 1
  {
    if n > 0 {
      OddPower(n - 1);
    }
  }

  lemma OddTimesOdd(x: nat, y: nat)
    requires x % 2 == 1 && y % 2 == 1
    ensures x * y % 2 == 1
  {
    var i := x / 2;
    assert x == 2 * i + 1;
    OneMore(i, y);
    EvenPart(i * y, y);
  }

  lemma EvenPart(t: nat, y: nat)
    requires y % 2 == 1
    ensures (2 * t + y) % 2 == 1
  {
  }

  lemma OneMore(i: nat, y: nat)
    ensures (2 * i + 1) * y == 2 * (i * y) + y
  {
  }

  lemma CancelPower(a: nat, f: nat, p: nat, t: nat, q: nat)
    requires p > 0 && a * (p * f) == q * (p * t)
    ensures a * f == q * t
  {
    assert p * (a * f) == p * (q * t);
  }

  lemma FactorSixteen(q: nat, t: nat)
    ensures q * (16 * t) == 16 * (q * t)
  {
  }

  lemma Regroup(d: nat, odd: nat, f: nat)
    ensures d * odd * f == d * (odd * f)
  {
  }

  lemma NoSixteen(d: nat, odd: nat, q: nat)
    requires 1 <= d <= 9 && odd % 2 == 1
    ensures d * odd != 16 * q
  {
    var j := odd / 2;
    assert odd == 2 * j + 1;
    match d
    case 1 => case 2 => case 3 => case 4 => case 5 => case 6 => case 7 => case 8 => case 9 =>
  }

  /** A digit other than 0 as fill character changes the number. */
  lemma DigitFillChanges(width: nat, x: nat, upper: bool, k: nat, c: char)
    requires width >= 16 && x < Pow(2, width) && k > 0 && '1' <= c <= '9'
    ensures ReadDigits(width, Repeated(k, c) + Digits(10, x, upper), 10, 0) != Parsed(true, x)
  {
    hide Pow, Digits, ReadDigits, Spelt, AllDecimal;
    var digits, d := Digits(10, x, upper), c as nat - 0x30;
    DigitsAreDecimal(x, upper);
    FewDigits(width, x, upper);
    ZeroProduct(d);
    var odd := RepeatedDigit(k, c, 0, 0);
    ReadWritten(width, 10, x, upper);
    NoMultiple(d, odd, |digits|, width);
    if ReadDigits(width, Repeated(k, c) + digits, 10, 0) == Parsed(true, x) {
      SamePlaces(width, Repeated(k, c), digits, x);
    }
  }

  lemma DigitsAreDecimal(x: nat, upper: bool)
    ensures AllDecimal(Digits(10, x, upper))
  {
    forall i | 0 <= i < |Digits(10, x, upper)| ensures '0' <= Digits(10, x, upper)[i] <= '9' {
      DecimalDigits(x, upper, i);
    }
  }

  /** Digits in front change nothing only if their places lie above the width. */
  lemma SamePlaces(width: nat, fill: string, digits: string, x: nat)
    requires AllDecimal(fill) && AllDecimal(digits) && ReadDigits(width, digits, 10, 0) == Parsed(true, x)
    requires ReadDigits(width, fill + digits, 10, 0) == Parsed(true, x)
    ensures Pow(2, width) > 0 && Spelt(fill, 0) * Pow(10, |digits|) % Pow(2, width) == 0
  {
    hide Pow, ReadDigits, Spelt, AllDecimal;
    var m, v := Pow(2, width), Spelt(fill, 0);
    PowPositive(2, width);
    DivModUnique(0, m, 0, 0);
    ReadSpelt(width, fill, 0);
    ReadSpelt(width, digits, v);
    ReadSpelt(width, digits, 0);
    ReadConcat(width, fill, digits, 10, 0);
    SpeltShift(digits, v);
    SameResidue(v * Pow(10, |digits|), Spelt(digits, 0), m);
  }

  lemma ZeroProduct(d: nat)
    ensures 0 == d * 0
  {
  }

  lemma SameResidue(x: nat, y: nat, m: nat)
    requires m > 0 && (x + y) % m == y % m
    ensures x % m == 0
  {
    var i, j := (x + y) / m, y / m;
    assert x + y == i * m + y % m && y == j * m + y % m;
    assert x == (i - j) * m;
    DivModUnique(x, m, i - j, 0);
  }

  lemma FewDigits(width: nat, x: nat, upper: bool)
    requires width >= 16 && x < Pow(2, width)
    ensures |Digits(10, x, upper)| + 4 <= width
  {
    var k := width - 4;
    assert Pow(2, 3) == 8;
    hide Pow;
    PowPow(2, 3, k);
    PowMonotone(2, width, 3 * k);
    PowBaseMonotone(8, 10, k);
    DigitsFit(10, x, upper, k);
  }

  /** Which fill characters in front of a number without a sign leave it readable. */
  predicate FillReads(width: nat, bits: nat, base: nat, upper: bool, k: nat, fill: char)
    requires 2 <= base <= 16
  {
    if fill == '+' then k == 1
    else if fill == '-' then k == 1 && (bits == 0 || 2 * bits == Pow(2, width))
    else if fill == '0' then base == 8 || (base == 10 && (bits <= 8 || (k == 1 && Digits(10, bits, upper)[0] == '9')))
    else fill == '\'' && base == 10
  }

  /** Padding in front of a text spoils it unless no sign was written and the fill
      character passes for part of the number: a single plus, a single minus in
      front of a number that is its own negative, zeros where octal reading makes
      no difference, apostrophes in base 10. In octal, apostrophes and the digits
      1 to 9 are not covered: there the text is read as a decimal number. */
  lemma PaddedRoundTrip(width: nat, bits: nat, signed: bool, base: nat, k: nat, fill: char, showBase: bool, showPos: bool, upper: bool)
    requires width >= 16 && bits < Pow(2, width) && k > 0 && fill != '\0'
    requires base == 10 || base == 16 || (base == 8 && fill != '\'' && !('1' <= fill <= '9'))
    requires base != 10 ==> showBase
    ensures Parse(width, Repeated(k, fill) + Text(width, bits, signed, base, showBase, showPos, upper), 0) == Parsed(true, bits)
       <==> Sign(base, IsNegative(width, bits, signed), showPos) == "" && FillReads(width, bits, base, upper, k, fill)
  {
    hide Pow, Digits, Parse, IsNegative, Prefix, FillReads, DetectBase;
    var negative := IsNegative(width, bits, signed);
    var sign, x := Sign(base, negative, showPos), Written(width, bits, negative, base);
    var body := Prefix(base, showBase, upper) + Digits(base, x, upper);
    var text := Text(width, bits, signed, base, showBase, showPos, upper);
    Associate(sign, Prefix(base, showBase, upper), Digits(base, x, upper));
    assert text == sign + body;
    if sign != "" {
      SignBlocked(width, Repeated(k, fill) + text, k, fill, sign, body);
    } else {
      Associate(body, body, body);
      UnsignedPadded(width, bits, base, k, fill, showBase, upper);
    }
  }

  /** A sign behind the fill characters is no digit in any base. */
  lemma SignBlocked(width: nat, s: string, k: nat, fill: char, sign: string, body: string)
    requires k > 0 && s == Repeated(k, fill) + (sign + body) && (sign == "+" || sign == "-")
    ensures !Parse(width, s, 0).ok
  {
    hide Parse;
    assert s[k] == sign[0] && s[0] == fill && (k > 1 ==> s[1] == fill);
    ParseBlocked(width, s, k);
  }

  lemma UnsignedPadded(width: nat, bits: nat, base: nat, k: nat, fill: char, showBase: bool, upper: bool)
    requires width >= 16 && bits < Pow(2, width) && k > 0 && fill != '\0'
    requires base == 10 || base == 16 || (base == 8 && fill != '\'' && !('1' <= fill <= '9'))
    requires base != 10 ==> showBase
    ensures Parse(width, Repeated(k, fill) + (Prefix(base, showBase, upper) + Digits(base, bits, upper)), 0) == Parsed(true, bits)
       <==> FillReads(width, bits, base, upper, k, fill)
  {
    hide Pow, Digits, Parse;
    var body := Prefix(base, showBase, upper) + Digits(base, bits, upper);
    var s := Repeated(k, fill) + body;
    assert s[0] == fill && (k > 1 ==> s[1] == fill) && s[k] == body[0];
    assert base == 16 ==> s[k + 1] == body[1];
    FirstDigit(base, bits, upper);
    if fill == '+' || fill == '-' {
      if k > 1 {
        ParseBlocked(width, s, 1);
      } else {
        SignFill(width, bits, base, [fill], showBase, upper);
        assert s == [fill] + Prefix(base, showBase, upper) + Digits(base, bits, upper);
      }
    } else if base == 16 {
      ParseBlocked(width, s, if fill == '0' || fill == '\'' || '1' <= fill <= '9' then k + 1 else 0);
    } else if fill == '0' {
      ZeroFill(width, bits, base, k, showBase, upper);
    } else if fill == '\'' {
      ApostropheFill(width, bits, k, upper, s);
    } else if '1' <= fill <= '9' {
      DigitFill(width, bits, k, fill, upper, s);
    } else {
      ParseBlocked(width, s, 0);
    }
  }

  lemma SignFill(width: nat, bits: nat, base: nat, sign: string, showBase: bool, upper: bool)
    requires bits < Pow(2, width) && (base == 10 || ((base == 8 || base == 16) && showBase)) && (sign == "+" || sign == "-")
    ensures var s := sign + Prefix(base, showBase, upper) + Digits(base, bits, upper);
      Parse(width, s, 0) == Parsed(true, bits) <==> sign == "+" || bits == 0 || 2 * bits == Pow(2, width)
  {
    hide Digits, Prefix, ReadDigits, DetectBase, SignLength, At;
    DetectWritten(base, bits, upper, sign, showBase);
    ReadWritten(width, base, bits, upper);
    OwnNegative(width, bits);
  }

  lemma OwnNegative(width: nat, bits: nat)
    requires bits < Pow(2, width)
    ensures Negated(width, bits) == bits <==> bits == 0 || 2 * bits == Pow(2, width)
  {
    var m := Pow(2, width);
    if bits == 0 {
      DivModUnique(m, m, 1, 0);
    } else {
      DivModUnique(m - bits, m, 0, m - bits);
    }
  }

  /** Leading zeros make a decimal text read as octal. It still reads back
      exactly when the number is below 9, or a single zero stands before a digit
      9, which octal does not start with. */
  lemma ZeroFill(width: nat, bits: nat, base: nat, k: nat, showBase: bool, upper: bool)
    requires bits < Pow(2, width) && k > 0 && (base == 10 || (base == 8 && showBase))
    ensures Parse(width, Repeated(k, '0') + (Prefix(base, showBase, upper) + Digits(base, bits, upper)), 0) == Parsed(true, bits)
       <==> base == 8 || bits <= 8 || (k == 1 && Digits(10, bits, upper)[0] == '9')
  {
    hide Pow, Digits, ReadDigits;
    FirstDigit(base, bits, upper);
    var digits, prefix := Digits(base, bits, upper), Prefix(base, showBase, upper);
    var s := Repeated(k, '0') + (prefix + digits);
    var places := k + |prefix|;
    assert s == Repeated(places, '0') + digits;
    assert s[0..] == s && s[1..] == Repeated(places - 1, '0') + digits;
    assert At(s, 0) == '0' && SignLength(s) == 0 && At(s, 1) == if places > 1 then '0' else digits[0];
    var octal := places > 1 || digits[0] != '9';
    assert DetectBase(s, 0, 0) == if octal then BaseAt(8, 1) else BaseAt(10, 0);
    if octal {
      ReadZeros(width, 8, places - 1, digits);
      if base == 8 {
        ReadWritten(width, 8, bits, upper);
      } else {
        OctalReading(width, bits, upper);
        NineIsNine(bits, upper);
      }
    } else {
      ReadZeros(width, 10, places, digits);
      ReadWritten(width, 10, bits, upper);
    }
  }

  lemma ApostropheFill(width: nat, bits: nat, k: nat, upper: bool, s: string)
    requires bits < Pow(2, width) && k > 0 && s == Repeated(k, '\'') + ("" + Digits(10, bits, upper))
    ensures Parse(width, s, 0) == Parsed(true, bits)
  {
    hide Pow, Digits, ReadDigits;
    var digits := Digits(10, bits, upper);
    assert s == Repeated(k, '\'') + digits && s[0] == '\'' && s[0..] == s;
    ReadApostrophes(width, 10, k, digits, 0);
    ReadWritten(width, 10, bits, upper);
  }

  lemma DigitFill(width: nat, bits: nat, k: nat, fill: char, upper: bool, s: string)
    requires width >= 16 && bits < Pow(2, width) && k > 0 && '1' <= fill <= '9' && s == Repeated(k, fill) + ("" + Digits(10, bits, upper))
    ensures Parse(width, s, 0) != Parsed(true, bits)
  {
    hide Pow, Digits, ReadDigits;
    assert s == Repeated(k, fill) + Digits(10, bits, upper) && s[0] == fill && s[0..] == s;
    DigitFillChanges(width, bits, upper, k, fill);
  }
}
