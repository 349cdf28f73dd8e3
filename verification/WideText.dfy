/** `wr_string` and `rd_string`: wide integers as text in bases 8, 10 and 16. */
module WideText {
  import opened Powers
  import opened Sequences
  import opened Bits

  /** The character of one digit. */
  function DigitChar(d: nat, upper: bool): char
    requires d < 16
  {
    if d <= 9 then (d + 0x30) as char else (d + (if upper then 55 else 87)) as char
  }

  /** The digits of a number, most significant first, "0" for zero. */
  function Digits(base: nat, x: nat, upper: bool): (s: string)
    requires 2 <= base <= 16
    ensures |s| > 0
  {
    if x < base then [DigitChar(x, upper)] else Digits(base, x / base, upper) + [DigitChar(x % base, upper)]
  }

  predicate HasCase(c: char, upper: bool) {
    '0' <= c <= '9' || (if upper then 'A' <= c <= 'F' else 'a' <= c <= 'f')
  }

  /** Letters appear in the case asked for. */
  lemma {:induction false} DigitsCase(base: nat, x: nat, upper: bool)
    requires 2 <= base <= 16
    ensures forall i :: 0 <= i < |Digits(base, x, upper)| ==> HasCase(Digits(base, x, upper)[i], upper)
    decreases x
  {
    hide Digits, DigitChar, HasCase;
    DigitsUnfold(base, x, upper);
    if x < base {
      DigitCase(x, upper);
    } else {
      LastDigitCase(base, x, upper);
      Quotient(base, x);
      DigitsCase(base, x / base, upper);
    }
  }

  lemma LastDigitCase(base: nat, x: nat, upper: bool)
    requires 2 <= base <= 16
    ensures x % base < 16 && HasCase(DigitChar(x % base, upper), upper)
  {
    DigitCase(x % base, upper);
  }

  lemma DigitCase(d: nat, upper: bool)
    requires d < 16
    ensures HasCase(DigitChar(d, upper), upper)
  {
  }

  lemma DigitsUnfold(base: nat, x: nat, upper: bool)
    requires 2 <= base <= 16
    ensures Digits(base, x, upper)
         == if x < base then [DigitChar(x, upper)] else Digits(base, x / base, upper) + [DigitChar(x % base, upper)]
  {
  }

  lemma {:induction false} DigitsFit(base: nat, x: nat, upper: bool, k: nat)
    requires 2 <= base <= 16 && k > 0 && x < Pow(base, k)
    ensures |Digits(base, x, upper)| <= k
    decreases k
  {
    hide Pow, Digits;
    DigitCount(base, x, upper);
    if x >= base {
      OneDigitLess(base, x, k);
      DigitsFit(base, x / base, upper, k - 1);
    }
  }

  /** A number has at most k digits exactly when it is below base^k. */
  lemma {:induction false} DigitsExactly(base: nat, x: nat, upper: bool, k: nat)
    requires 2 <= base <= 16 && k > 0
    ensures |Digits(base, x, upper)| <= k <==> x < Pow(base, k)
    decreases k
  {
    hide Digits, Pow;
    if x < Pow(base, k) {
      DigitsFit(base, x, upper, k);
    } else {
      SmallPowers(base);
      PowMonotone(base, 1, k);
      DigitCount(base, x, upper);
      if k > 1 {
        QuotientAtLeast(base, x, k);
        DigitsExactly(base, x / base, upper, k - 1);
      }
    }
  }

  lemma QuotientAtLeast(base: nat, x: nat, k: nat)
    requires base > 0 && k > 0 && x >= Pow(base, k)
    ensures x / base >= Pow(base, k - 1)
  {
    var p := Pow(base, k - 1);
    if x / base < p {
      MulMonotone(x / base + 1, p, base);
    }
  }

  lemma OneDigitLess(base: nat, x: nat, k: nat)
    requires 0 < base <= x < Pow(base, k)
    ensures k > 1 && x / base < Pow(base, k - 1)
  {
    if k <= 1 {
      SmallPowers(base);
    } else {
      QuotientBelow(base, x, Pow(base, k - 1));
    }
  }

  lemma DigitCount(base: nat, x: nat, upper: bool)
    requires 2 <= base <= 16
    ensures |Digits(base, x, upper)| == if x < base then 1 else |Digits(base, x / base, upper)| + 1
  {
  }

  lemma QuotientBelow(base: nat, x: nat, p: nat)
    requires base > 0 && x < p * base
    ensures x / base < p
  {
    if x / base >= p {
      MulMonotone(p, x / base, base);
    }
  }

  /** Sizes of the digit buffers, terminator included. */
  function BufferOct(width: nat): nat {
    8 + (if width % 3 != 0 then 1 else 0) + width / 3
  }

  function BufferDec(width: nat): nat {
    10 + width * 301 / 1000
  }

  function BufferHex(width: nat): nat {
    8 + (if width % 4 != 0 then 1 else 0) + width / 4
  }

  function BufferSize(base: nat, width: nat): (n: nat)
    ensures n >= 8
  {
    if base == 8 then BufferOct(width) else if base == 10 then BufferDec(width) else BufferHex(width)
  }

  /** Room for the digits and two characters of sign and prefix, at least. */
  lemma BufferHoldsPowerBase(width: nat, x: nat, upper: bool)
    requires width > 0 && x < Pow(2, width)
    ensures |Digits(8, x, upper)| + 7 < BufferOct(width) && |Digits(16, x, upper)| + 7 < BufferHex(width)
  {
    var o, h := (width + 2) / 3, (width + 3) / 4;
    PowPow(2, 3, o);
    assert Pow(2, 3) == 8 && Pow(2, 4) == 16;
    PowPow(2, 4, h);
    PowMonotone(2, width, 3 * o);
    PowMonotone(2, width, 4 * h);
    DigitsFit(8, x, upper, o);
    DigitsFit(16, x, upper, h);
  }

  /** 2^93 < 10^28: 28 / 93 is just above the binary logarithm's share of a decimal digit. */
  lemma NinetyThreeBits()
    ensures Pow(2, 93) <= Pow(10, 28)
  {
    assert Pow(2, 10) == 1024 && Pow(10, 3) == 1000;
    PowPow(2, 10, 9);
    PowPow(10, 3, 9);
    PowAdd(2, 90, 3);
    PowAdd(10, 27, 1);
    assert Pow(2, 3) == 8 && Pow(10, 1) == 10;
    assert Pow(1024, 3) == 1073741824 && Pow(1000, 3) == 1000000000;
    PowPow(1024, 3, 3);
    PowPow(1000, 3, 3);
    assert Pow(1073741824, 3) == 1073741824 * 1073741824 * 1073741824;
    assert Pow(1000000000, 3) == 1000000000 * 1000000000 * 1000000000;
  }

  lemma {:induction false} PowBaseMonotone(x: nat, y: nat, n: nat)
    requires x <= y
    ensures Pow(x, n) <= Pow(y, n)
  {
    if n > 0 {
      PowBaseMonotone(x, y, n - 1);
      MulMonotone(Pow(x, n - 1), Pow(y, n - 1), x);
      MulMonotone(x, y, Pow(y, n - 1));
    }
  }

  lemma {:induction false} RootMonotone(x: nat, y: nat, n: nat)
    requires n > 0 && Pow(x, n) <= Pow(y, n)
    ensures x <= y
  {
    if x > y {
      PowStrictBase(y, x, n);
    }
  }

  lemma {:induction false} PowStrictBase(x: nat, y: nat, n: nat)
    requires x < y && n > 0
    ensures Pow(x, n) < Pow(y, n)
  {
    if n == 1 {
      assert Pow(x, 0) == 1 && Pow(y, 0) == 1;
    } else {
      PowStrictBase(x, y, n - 1);
      MulMonotone(Pow(x, n - 1), Pow(y, n - 1), x);
      MulMonotone(x + 1, y, Pow(y, n - 1));
      assert (x + 1) * Pow(y, n - 1) == x * Pow(y, n - 1) + Pow(y, n - 1);
    }
  }

  /** k decimal digits hold any number of 93 k / 28 bits. */
  lemma DecimalDigitsEnough(width: nat, k: nat)
    requires 28 * width <= 93 * k
    ensures Pow(2, width) <= Pow(10, k)
  {
    hide Pow;
    NinetyThreeBits();
    PowBaseMonotone(Pow(2, 93), Pow(10, 28), k);
    PowPow(2, 93, k);
    PowPow(10, 28, k);
    PowMonotone(2, 28 * width, 93 * k);
    PowPow(2, width, 28);
    PowPow(10, k, 28);
    RootMonotone(Pow(2, width), Pow(10, k), 28);
  }

  /** The decimal buffer holds the digits, a sign and the terminator, at every
      width up to 93000. */
  lemma BufferHoldsDecimal(width: nat, x: nat, upper: bool)
    requires 0 < width <= 93000 && x < Pow(2, width)
    ensures |Digits(10, x, upper)| + 2 <= BufferDec(width)
  {
    var k := 8 + width * 301 / 1000;
    DecimalDigitsEnough(width, k);
    DigitsFit(10, x, upper, k);
  }

  /** 10^59 < 2^196: 59 / 196 is just below the binary logarithm's share of a decimal digit. */
  lemma FiftyNineDigits()
    ensures Pow(10, 59) < Pow(2, 196)
  {
    FirstPowers();
    hide Pow;
    PowAdd(5, 8, 8);
    PowAdd(5, 16, 16);
    PowAdd(5, 32, 16);
    PowAdd(5, 48, 8);
    PowAdd(5, 56, 3);
    assert Pow(5, 59) == 173472347597680709441192448139190673828125;
    PowAdd(2, 10, 10);
    PowAdd(2, 20, 20);
    PowAdd(2, 40, 40);
    PowAdd(2, 80, 40);
    PowAdd(2, 120, 10);
    PowAdd(2, 130, 7);
    assert Pow(2, 137) == 174224571863520493293247799005065324265472;
    PowAdd(2, 137, 59);
    PowProduct(2, 5, 59);
    MulStrict(Pow(5, 59), Pow(2, 137), Pow(2, 59));
  }

  lemma FirstPowers()
    ensures Pow(2, 7) == 128 && Pow(2, 10) == 1024 && Pow(5, 3) == 125 && Pow(5, 8) == 390625
  {
    assert Pow(5, 4) == 625;
  }

  lemma {:induction false} PowProduct(x: nat, y: nat, n: nat)
    ensures Pow(x * y, n) == Pow(x, n) * Pow(y, n)
  {
    if n > 0 {
      PowProduct(x, y, n - 1);
      Interchange(Pow(x, n - 1), Pow(y, n - 1), x, y);
    }
  }

  lemma Interchange(a: nat, b: nat, x: nat, y: nat)
    ensures (a * b) * (x * y) == (a * x) * (b * y)
  {
  }

  lemma MulStrict(x: nat, y: nat, z: nat)
    requires x < y && z > 0
    ensures z * x < y * z
  {
    MulMonotone(x + 1, y, z);
  }

  /** k decimal digits do not hold every number of 196 k / 59 bits. */
  lemma DecimalDigitsShort(width: nat, k: nat)
    requires k > 0 && 196 * k <= 59 * width
    ensures Pow(10, k) < Pow(2, width)
  {
    hide Pow;
    FiftyNineDigits();
    PowStrictBase(Pow(10, 59), Pow(2, 196), k);
    PowPow(10, 59, k);
    PowPow(2, 196, k);
    PowMonotone(2, 196 * k, 59 * width);
    PowPow(2, width, 59);
    PowPow(10, k, 59);
    if Pow(2, width) <= Pow(10, k) {
      PowBaseMonotone(Pow(2, width), Pow(10, k), 59);
    }
  }

  // Writing.

  /** Only base 10 writes a minus sign; bases 8 and 16 write the bits. */
  function Sign(base: nat, negative: bool, showPos: bool): string {
    if base == 10 && negative then "-" else if showPos then "+" else ""
  }

  function Prefix(base: nat, showBase: bool, upper: bool): string {
    if !showBase then "" else if base == 8 then "0" else if base == 16 then (if upper then "0X" else "0x") else ""
  }

  function Repeated(n: nat, c: char): (s: string)
    ensures |s| == n && forall i :: 0 <= i < n ==> s[i] == c
  {
    seq(n, _ => c)
  }

  /** The fill characters in front of `text`, up to the field width or the
      buffer's length, whichever is less. */
  function Padding(base: nat, width: nat, text: string, fieldWidth: nat, fill: char): string {
    var field := if fieldWidth < BufferSize(base, width) - 1 then fieldWidth else BufferSize(base, width) - 1;
    if |text| < field then Repeated(field - |text|, fill) else ""
  }

  /** The number whose digits are written: the magnitude in base 10, the bits otherwise. */
  function Written(width: nat, bits: nat, negative: bool, base: nat): nat
    requires bits < Pow(2, width)
  {
    if base == 10 && negative then (Pow(2, width) - bits) % Pow(2, width) else bits
  }

  /** The last n characters, or all of them. */
  function Kept(s: string, n: nat): (r: string)
    ensures |r| <= n && (|s| <= n ==> r == s)
  {
    if |s| <= n then s else s[|s| - n..]
  }

  function IfRoom(s: string, n: nat): string {
    if |s| <= n then s else ""
  }

  lemma LastDigits(head: string, done: string, all: string)
    requires head + done == all && |head| > 0
    ensures Kept(all, |done|) == done
  {
  }

  lemma RepeatedCons(n: nat, c: char, s: string)
    ensures [c] + (Repeated(n, c) + s) == Repeated(n + 1, c) + s
    ensures Repeated(0, c) + s == s
  {
    assert [c] + Repeated(n, c) == Repeated(n + 1, c);
    Associate([c], Repeated(n, c), s);
    assert Repeated(0, c) == "";
    Associate(s, s, s);
  }

  /** A character array written from the end, as the digit buffers are. */
  class DigitBuffer {
    const text: array<char>
    var pos: nat
    ghost var contents: string

    /** What has been written stands in front of the terminator's place. */
    ghost predicate Valid()
      reads this, text
    {
      pos < text.Length && contents == text[pos..text.Length - 1]
    }

    constructor (size: nat)
      requires size > 1
      ensures Valid() && fresh(text) && text.Length == size && pos == size - 1 && contents == ""
    {
      text, pos := new char[size], size - 1;
      contents := "";
    }

    method Put(c: char)
      requires Valid() && pos > 0
      modifies this, text
      ensures Valid() && pos == old(pos) - 1 && contents == [c] + old(contents)
    {
      pos := pos - 1;
      text[pos] := c;
      contents := [c] + contents;
    }

    /** The copy up to the terminator. */
    method Extract() returns (s: string)
      requires Valid()
      ensures s == contents
    {
      s := text[pos..text.Length - 1];
    }

    lemma Length()
      requires Valid()
      ensures pos < text.Length && |contents| + pos == text.Length - 1
    {
    }

    /** The padding loop. */
    method Pad(fieldWidth: nat, fill: char)
      requires Valid()
      modifies this, text
      ensures Valid()
      ensures var field := if fieldWidth < text.Length - 1 then fieldWidth else text.Length - 1;
        contents == (if |old(contents)| < field then Repeated(field - |old(contents)|, fill) else "") + old(contents)
    {
      hide Valid;
      Length();
      ghost var was := contents;
      RepeatedCons(0, fill, was);
      Associate(was, was, was);
      if fieldWidth != 0 {
        var field := if fieldWidth < text.Length - 1 then fieldWidth else text.Length - 1;
        ghost var n := 0;
        while pos > text.Length - 1 - field
          invariant Valid() && pos + n + |was| == text.Length - 1
          invariant pos >= text.Length - 1 - field || n == 0
          invariant contents == Repeated(n, fill) + was
        {
          Put(fill);
          RepeatedCons(n, fill, was);
          n := n + 1;
        }
      }
    }

    method PutPrefix(base: nat, showBase: bool, upper: bool)
      requires Valid()
      modifies this, text
      ensures Valid()
      ensures contents == IfRoom(Prefix(base, showBase, upper), old(pos)) + old(contents)
    {
      hide Valid;
      ghost var was := contents;
      if showBase && base == 8 && pos > 0 {
        Put('0');
      } else if showBase && base == 16 && pos > 1 {
        var x := if upper then 'X' else 'x';
        Put(x);
        Put('0');
        Associate(['0'], [x], was);
        assert ['0'] + [x] == Prefix(base, showBase, upper);
      } else {
        Associate(was, was, was);
      }
    }

    method PutSign(base: nat, negative: bool, showPos: bool)
      requires Valid()
      modifies this, text
      ensures Valid()
      ensures contents == IfRoom(Sign(base, negative, showPos), old(pos)) + old(contents)
    {
      hide Valid;
      ghost var was := contents;
      if pos > 0 && base == 10 && negative {
        Put('-');
      } else if pos > 0 && showPos {
        Put('+');
      } else {
        Associate(was, was, was);
      }
    }

    /** The digit loop; it also stops when the buffer is full, with the last digits in it. */
    method PutDigits(base: nat, number: nat, upper: bool)
      requires Valid() && 2 <= base <= 16 && pos > 0
      modifies this, text
      ensures Valid()
      ensures contents == Kept(Digits(base, number, upper), old(pos)) + old(contents)
    {
      hide Digits, DigitChar, Valid;
      ghost var was, start, all := contents, pos, Digits(base, number, upper);
      var t: nat := number;
      if t == 0 {
        ZeroDigits(base, upper);
        Put(DigitChar(0, upper));
      } else {
        ghost var done := "";
        Associate(was, all, was);
        Associate(all, all, all);
        while t != 0 && pos > 0
          invariant Valid() && start == pos + |done|
          invariant t == 0 ==> done == all
          invariant t > 0 ==> Digits(base, t, upper) + done == all
          invariant contents == done + was
          decreases t
        {
          ghost var before := done;
          DigitsStep(base, t, upper, done, all);
          var c := LastDigit(base, t, upper);
          t := t / base;
          Put(c);
          Associate([c], before, was);
          done := [c] + before;
        }
        if t > 0 {
          LastDigits(Digits(base, t, upper), done, all);
        }
      }
    }
  }

  /** The digit that division by the base splits off. */
  method LastDigit(base: nat, t: nat, upper: bool) returns (c: char)
    requires 2 <= base <= 16 && t > 0
    ensures c == DigitChar(t % base, upper)
  {
    Quotient(base, t);
    c := DigitChar(t - t / base * base, upper);
  }

  predicate IsNegative(width: nat, bits: nat, signed: bool) {
    signed && Pow(2, width) <= 2 * bits
  }

  /** The text of a number. */
  function Text(width: nat, bits: nat, signed: bool, base: nat, showBase: bool, showPos: bool, upper: bool): string
    requires bits < Pow(2, width) && 2 <= base <= 16
  {
    var negative := IsNegative(width, bits, signed);
    Sign(base, negative, showPos) + Prefix(base, showBase, upper) + Digits(base, Written(width, bits, negative, base), upper)
  }

  /** The text fits the buffer of its base, terminator included. */
  predicate Fits(width: nat, bits: nat, signed: bool, base: nat, showBase: bool, showPos: bool, upper: bool)
    requires bits < Pow(2, width) && 2 <= base <= 16
  {
    |Text(width, bits, signed, base, showBase, showPos, upper)| < BufferSize(base, width)
  }

  /** What a buffer for `n` characters holds of digits, prefix and sign: the last
      digits, then the prefix if there is room for it, then the sign likewise. */
  function Shown(n: nat, sign: string, prefix: string, digits: string): string {
    var low := Kept(digits, n);
    var middle := IfRoom(prefix, n - |low|) + low;
    IfRoom(sign, if |middle| <= n then n - |middle| else 0) + middle
  }

  /** The text of a number as it is printed. */
  function Printed(width: nat, bits: nat, signed: bool, base: nat, showBase: bool, showPos: bool, upper: bool): string
    requires bits < Pow(2, width) && 2 <= base <= 16
  {
    var negative := IsNegative(width, bits, signed);
    Shown(BufferSize(base, width) - 1, Sign(base, negative, showPos), Prefix(base, showBase, upper),
          Digits(base, Written(width, bits, negative, base), upper))
  }

  /** `wr_string` on the number with the given bits; it refuses other bases. */
  method WrString(width: nat, bits: nat, signed: bool, base: nat, showBase: bool, showPos: bool, upper: bool,
                  fieldWidth: nat, fill: char) returns (ok: bool, s: string)
    requires width > 0 && bits < Pow(2, width)
    ensures ok <==> base == 8 || base == 10 || base == 16
    ensures ok ==> var printed := Printed(width, bits, signed, base, showBase, showPos, upper);
      s == Padding(base, width, printed, fieldWidth, fill) + printed
    ensures ok ==> (Printed(width, bits, signed, base, showBase, showPos, upper)
                    == Text(width, bits, signed, base, showBase, showPos, upper)
                    <==> Fits(width, bits, signed, base, showBase, showPos, upper))
  {
    hide Pow, Digits, Fits, Text, Shown, BufferSize, Padding, IsNegative, Written, DigitBuffer.Valid;
    if base != 8 && base != 10 && base != 16 {
      return false, "";
    }
    var negative := IsNegative(width, bits, signed);
    var t := Written(width, bits, negative, base);
    PrintedExactly(width, bits, signed, base, showBase, showPos, upper);
    BufferLarge(base, width);
    var buffer := new DigitBuffer(BufferSize(base, width));
    FillBuffer(buffer, base, t, negative, showBase, showPos, upper);
    ghost var text := buffer.contents;
    buffer.Pad(fieldWidth, fill);
    PaddingMeaning(base, width, text, fieldWidth, fill);
    s := buffer.Extract();
    ok := true;
  }

  /** The text is printed whole exactly when it fits the buffer. */
  lemma PrintedExactly(width: nat, bits: nat, signed: bool, base: nat, showBase: bool, showPos: bool, upper: bool)
    requires bits < Pow(2, width) && 2 <= base <= 16
    ensures Printed(width, bits, signed, base, showBase, showPos, upper) == Text(width, bits, signed, base, showBase, showPos, upper)
       <==> Fits(width, bits, signed, base, showBase, showPos, upper)
  {
    hide Pow, Digits, IsNegative, Written, Sign, Prefix, BufferSize;
    var negative := IsNegative(width, bits, signed);
    ShownExactly(BufferSize(base, width) - 1, Sign(base, negative, showPos), Prefix(base, showBase, upper),
                 Digits(base, Written(width, bits, negative, base), upper));
  }

  lemma ShownExactly(n: nat, sign: string, prefix: string, digits: string)
    ensures |Shown(n, sign, prefix, digits)| <= n
    ensures Shown(n, sign, prefix, digits) == sign + prefix + digits <==> |sign + prefix + digits| <= n
  {
    Associate(sign, prefix, digits);
  }

  /** In bases 8 and 16 every text fits, in base 10 at every width up to 93000. */
  lemma FitsAlways(width: nat, bits: nat, signed: bool, base: nat, showBase: bool, showPos: bool, upper: bool)
    requires width > 0 && bits < Pow(2, width)
    requires base == 8 || base == 16 || (base == 10 && width <= 93000)
    ensures Fits(width, bits, signed, base, showBase, showPos, upper)
  {
    hide Pow, Digits;
    var negative := IsNegative(width, bits, signed);
    var t := Written(width, bits, negative, base);
    WrittenBelow(width, bits, negative, base);
    PrefixLength(base, showBase, upper);
    if base == 10 {
      BufferHoldsDecimal(width, t, upper);
    } else {
      BufferHoldsPowerBase(width, t, upper);
    }
  }

  /** Every unsigned number of a width is printed whole exactly when ten to the
      buffer's capacity reaches two to the width. */
  lemma UnsignedPrints(width: nat, upper: bool)
    ensures (forall bits: nat :: bits < Pow(2, width) ==> Fits(width, bits, false, 10, false, false, upper))
       <==> Pow(2, width) <= Pow(10, BufferDec(width) - 1)
  {
    hide Pow, Digits, BufferDec, Fits;
    BufferLarge(10, width);
    var k := BufferSize(10, width) - 1;
    forall bits: nat | bits < Pow(2, width)
      ensures Fits(width, bits, false, 10, false, false, upper) <==> bits < Pow(10, k)
    {
      UnsignedFits(width, bits, upper);
    }
    if Pow(2, width) > Pow(10, k) {
      assert !Fits(width, Pow(10, k), false, 10, false, false, upper);
    }
  }

  lemma UnsignedFits(width: nat, bits: nat, upper: bool)
    requires bits < Pow(2, width)
    ensures BufferDec(width) > 1
    ensures Fits(width, bits, false, 10, false, false, upper) <==> bits < Pow(10, BufferDec(width) - 1)
  {
    hide Pow, Digits;
    DigitsExactly(10, bits, upper, BufferDec(width) - 1);
    Associate(Digits(10, bits, upper), Digits(10, bits, upper), Digits(10, bits, upper));
    assert "" + "" + Digits(10, bits, upper) == Digits(10, bits, upper);
  }

  /** Every signed number likewise, with room for the minus sign of the minimum. */
  lemma SignedPrints(width: nat, showPos: bool, upper: bool)
    requires width > 0
    ensures (forall bits: nat :: bits < Pow(2, width) ==> Fits(width, bits, true, 10, false, showPos, upper))
       <==> Pow(2, width - 1) < Pow(10, BufferDec(width) - 2)
  {
    hide Pow, Digits, BufferDec;
    var k, half := BufferDec(width) - 2, Pow(2, width - 1);
    DoubleHalf(width);
    forall bits: nat | bits < Pow(2, width)
      ensures var x := if half <= bits then 2 * half - bits else bits;
        && (bits >= half || showPos ==> (Fits(width, bits, true, 10, false, showPos, upper) <==> x < Pow(10, k)))
        && (x < Pow(10, k) ==> Fits(width, bits, true, 10, false, showPos, upper))
    {
      SignedFits(width, bits, showPos, upper);
    }
    if half >= Pow(10, k) {
      assert !Fits(width, half, true, 10, false, showPos, upper);
    }
  }

  lemma DoubleHalf(width: nat)
    requires width > 0
    ensures Pow(2, width) == 2 * Pow(2, width - 1) && Pow(2, width - 1) > 0 && BufferDec(width) > 2
  {
  }

  lemma SignedFits(width: nat, bits: nat, showPos: bool, upper: bool)
    requires width > 0 && bits < Pow(2, width) == 2 * Pow(2, width - 1)
    ensures BufferDec(width) > 2
    ensures var half := Pow(2, width - 1); var x := if half <= bits then 2 * half - bits else bits;
      && (bits >= half || showPos ==> (Fits(width, bits, true, 10, false, showPos, upper) <==> x < Pow(10, BufferDec(width) - 2)))
      && (x < Pow(10, BufferDec(width) - 2) ==> Fits(width, bits, true, 10, false, showPos, upper))
  {
    hide Pow, Digits;
    var half := Pow(2, width - 1);
    var negative := IsNegative(width, bits, true);
    var x := if half <= bits then 2 * half - bits else bits;
    assert Written(width, bits, negative, 10) == x by {
      if negative {
        DivModUnique(2 * half - bits, 2 * half, 0, 2 * half - bits);
      }
    }
    DigitsExactly(10, x, upper, BufferDec(width) - 2);
    var sign := Sign(10, negative, showPos);
    assert |sign + "" + Digits(10, x, upper)| == |sign| + |Digits(10, x, upper)|;
  }

  /** From width 441000 on some unsigned number is cut, 524288 for one. */
  lemma WideDecimalIsCut(width: nat, upper: bool)
    requires width >= 441000
    ensures exists bits: nat :: bits < Pow(2, width) && Printed(width, bits, false, 10, false, false, upper)
                                                        != Text(width, bits, false, 10, false, false, upper)
  {
    hide Pow, Digits, Printed, Text, Fits;
    DecimalDigitsShort(width, BufferDec(width) - 1);
    UnsignedPrints(width, upper);
    var bits: nat :| bits < Pow(2, width) && !Fits(width, bits, false, 10, false, false, upper);
    PrintedExactly(width, bits, false, 10, false, false, upper);
  }

  lemma BufferLarge(base: nat, width: nat)
    ensures BufferSize(base, width) >= 8
  {
  }

  /** Digits, prefix and sign, from the end of the buffer on. */
  method FillBuffer(buffer: DigitBuffer, base: nat, t: nat, negative: bool, showBase: bool, showPos: bool, upper: bool)
    requires buffer.Valid() && buffer.contents == "" && buffer.pos >= 7 && (base == 8 || base == 10 || base == 16)
    modifies buffer, buffer.text
    ensures buffer.Valid()
    ensures buffer.contents == Shown(old(buffer.pos), Sign(base, negative, showPos), Prefix(base, showBase, upper), Digits(base, t, upper))
  {
    hide Digits, Sign, Prefix, DigitBuffer.Valid, Kept;
    buffer.Length();
    ghost var digits, empty := Digits(base, t, upper), buffer.contents;
    assert Kept(digits, buffer.pos) + empty == Kept(digits, buffer.pos);
    buffer.PutDigits(base, t, upper);
    buffer.Length();
    buffer.PutPrefix(base, showBase, upper);
    buffer.Length();
    buffer.PutSign(base, negative, showPos);
  }

  lemma PrefixLength(base: nat, showBase: bool, upper: bool)
    ensures |Prefix(base, showBase, upper)| <= 2 && (base == 10 ==> Prefix(base, showBase, upper) == "")
  {
  }

  lemma PaddingMeaning(base: nat, width: nat, text: string, fieldWidth: nat, fill: char)
    ensures var size := BufferSize(base, width); var field := if fieldWidth < size - 1 then fieldWidth else size - 1;
      Padding(base, width, text, fieldWidth, fill) == if |text| < field then Repeated(field - |text|, fill) else ""
  {
  }

  lemma WrittenBelow(width: nat, bits: nat, negative: bool, base: nat)
    requires bits < Pow(2, width)
    ensures Written(width, bits, negative, base) < Pow(2, width)
  {
  }

  lemma ZeroDigits(base: nat, upper: bool)
    requires 2 <= base <= 16
    ensures Digits(base, 0, upper) == [DigitChar(0, upper)]
  {
  }

  lemma DigitsStep(base: nat, t: nat, upper: bool, done: string, all: string)
    requires 2 <= base <= 16 && t > 0 && Digits(base, t, upper) + done == all
    ensures t / base < t && |Digits(base, t, upper)| > 0
    ensures var c := DigitChar(t % base, upper);
      if t / base == 0 then [c] + done == all else Digits(base, t / base, upper) + ([c] + done) == all
  {
    Quotient(base, t);
    var q, r := t / base, t % base;
    if t < base {
      assert Digits(base, t, upper) == [DigitChar(t, upper)];
    } else {
      assert Digits(base, t, upper) == Digits(base, q, upper) + [DigitChar(r, upper)];
      Associate(Digits(base, q, upper), [DigitChar(r, upper)], done);
    }
  }

  lemma Quotient(base: nat, t: nat)
    requires base >= 2 && t > 0
    ensures t == t / base * base + t % base && t % base < base && t / base < t
    ensures t / base == 0 <==> t < base
    ensures t < base ==> t % base == t
  {
    var q := t / base;
    assert t == q * base + t % base;
    MulMonotone(2, base, q);
    if q > 0 {
      MulMonotone(1, q, base);
    }
  }

  // Reading.

  /** The character at `i`; the terminator behind the end. */
  function At(s: string, i: nat): char {
    if i < |s| then s[i] else '\0'
  }

  function SignLength(s: string): nat {
    if At(s, 0) == '+' || At(s, 0) == '-' then 1 else 0
  }

  datatype BaseAt = BaseAt(base: nat, pos: nat)

  /** The base to read in and where its digits start; detected when the hint is 0. */
  function DetectBase(s: string, pos: nat, hint: nat): (r: BaseAt)
    requires pos <= |s|
    ensures pos <= r.pos <= |s|
  {
    if hint != 0 then BaseAt(hint, pos)
    else if At(s, pos) != '0' then BaseAt(10, pos)
    else if '0' <= At(s, pos + 1) <= '8' then BaseAt(8, pos + 1)
    else if At(s, pos + 1) == 'x' || At(s, pos + 1) == 'X' then BaseAt(16, pos + 2)
    else BaseAt(10, pos)
  }

  /** A character the base accepts; octal takes the digit 8 as well. */
  predicate IsDigit(base: nat, c: char) {
    if base == 8 then '0' <= c <= '8'
    else if base == 10 then '0' <= c <= '9'
    else base == 16 ==> '0' <= c <= '9' || 'a' <= c <= 'f' || 'A' <= c <= 'F'
  }

  function DigitValue(c: char): nat
    requires '0' <= c
  {
    if 'a' <= c <= 'f' then c as nat - 87 else if 'A' <= c <= 'F' then c as nat - 55 else c as nat - 0x30
  }

  /** The value after one more digit: a shift and an `or` of the low limb in
      bases 8 and 16, a multiplication and an addition in base 10. */
  function AppendDigit(width: nat, base: nat, v: nat, c: char): (r: nat)
    requires IsDigit(base, c)
  {
    var m := Pow(2, width);
    if base == 10 then (v * 10 % m + DigitValue(c)) % m
    else if base == 8 || base == 16 then AndBound(v * base % m, DigitValue(c)); Or(v * base % m, DigitValue(c))
    else v
  }

  datatype Parsed = Parsed(ok: bool, bits: nat)

  /** Digits up to the first character that is none; apostrophes are skipped. */
  function ReadDigits(width: nat, s: string, base: nat, v: nat): Parsed {
    if |s| == 0 then Parsed(true, v)
    else if s[0] == '\'' then ReadDigits(width, s[1..], base, v)
    else if IsDigit(base, s[0]) then ReadDigits(width, s[1..], base, AppendDigit(width, base, v, s[0]))
    else Parsed(false, v)
  }

  function Negated(width: nat, v: nat): nat {
    (Pow(2, width) - v) % Pow(2, width)
  }

  function Parse(width: nat, s: string, hint: nat): Parsed {
    var start := DetectBase(s, SignLength(s), hint);
    var digits := ReadDigits(width, s[start.pos..], start.base, 0);
    if At(s, 0) == '-' then Parsed(digits.ok, Negated(width, digits.bits)) else digits
  }

  /** `rd_string` on a terminated string. */
  method RdString(width: nat, s: string, hint: nat) returns (ok: bool, bits: nat)
    ensures Parsed(ok, bits) == Parse(width, s, hint)
  {
    var pos := 0;
    if |s| > 0 && s[0] == '+' {
      pos := pos + 1;
    }
    var negative := false;
    if |s| > 0 && s[0] == '-' {
      negative := true;
      pos := pos + 1;
    }
    var base := hint;
    if base == 0 {
      base := 10;
      if |s| > pos && s[pos] == '0' {
        if '0' <= At(s, pos + 1) <= '8' {
          base, pos := 8, pos + 1;
        } else if At(s, pos + 1) == 'x' || At(s, pos + 1) == 'X' {
          base, pos := 16, pos + 2;
        }
      }
    }
    ghost var start := DetectBase(s, SignLength(s), hint);
    assert start == BaseAt(base, pos);
    bits := 0;
    ok := true;
    while pos < |s| && ok
      invariant 0 <= pos <= |s|
      invariant ReadDigits(width, s[start.pos..], base, 0) == if ok then ReadDigits(width, s[pos..], base, bits) else Parsed(false, bits)
    {
      var c := s[pos];
      assert s[pos..][1..] == s[pos + 1..];
      pos := pos + 1;
      if c != '\'' {
        ok := IsDigit(base, c);
        if ok {
          bits := AppendDigit(width, base, bits, c);
        }
      }
    }
    if negative {
      bits := Negated(width, bits);
    }
  }

  // Round trips.

  /** Appending the last digit of a number to the rest gives the number back. */
  lemma AppendLast(width: nat, base: nat, x: nat, upper: bool)
    requires (base == 8 || base == 10 || base == 16) && x < Pow(2, width)
    ensures var c := DigitChar(x % base, upper); IsDigit(base, c) && c != '\'' && AppendDigit(width, base, x / base, c) == x
  {
    var m, q, d := Pow(2, width), x / base, x % base;
    assert x == q * base + d;
    DivModUnique(q * base, m, 0, q * base);
    DivModUnique(x, m, 0, x);
    assert Pow(2, 3) == 8 && Pow(2, 4) == 16;
    AndLow(q, 3, if base == 8 then d else 0);
    AndLow(q, 4, if base == 16 then d else 0);
  }

  lemma {:induction false} ReadConcat(width: nat, s: string, t: string, base: nat, v: nat)
    requires ReadDigits(width, s, base, v).ok
    ensures ReadDigits(width, s + t, base, v) == ReadDigits(width, t, base, ReadDigits(width, s, base, v).bits)
    decreases |s|
  {
    if |s| == 0 {
      assert s + t == t;
    } else {
      assert (s + t)[1..] == s[1..] + t;
      ReadConcat(width, s[1..], t, base, if s[0] == '\'' then v else AppendDigit(width, base, v, s[0]));
    }
  }

  lemma {:induction false} ReadWritten(width: nat, base: nat, x: nat, upper: bool)
    requires (base == 8 || base == 10 || base == 16) && x < Pow(2, width)
    ensures ReadDigits(width, Digits(base, x, upper), base, 0) == Parsed(true, x)
    decreases x
  {
    hide Pow, AppendDigit, DigitChar, IsDigit;
    AppendLast(width, base, x, upper);
    var last := [DigitChar(x % base, upper)];
    assert last[1..] == "";
    if x < base {
      DivModUnique(x, base, 0, x);
    } else {
      Quotient(base, x);
      ReadWritten(width, base, x / base, upper);
      ReadConcat(width, Digits(base, x / base, upper), last, base, 0);
    }
  }

  /** The first digit is 0 for the number 0 only. */
  lemma {:induction false} FirstDigit(base: nat, x: nat, upper: bool)
    requires 2 <= base <= 16
    ensures var c := Digits(base, x, upper)[0];
      (c == '0' <==> x == 0) && (x == 0 ==> |Digits(base, x, upper)| == 1) && c != '-' && c != '+' && (base <= 10 ==> '0' <= c <= '9')
      && (base == 8 ==> c <= '7')
    decreases x
  {
    if x >= base {
      Quotient(base, x);
      FirstDigit(base, x / base, upper);
    }
  }

  /** What the detection makes of a written number. */
  lemma DetectWritten(base: nat, x: nat, upper: bool, sign: string, showBase: bool)
    requires base == 10 || ((base == 8 || base == 16) && showBase)
    requires sign == "" || sign == "+" || sign == "-"
    ensures var s := sign + Prefix(base, showBase, upper) + Digits(base, x, upper);
      && SignLength(s) == |sign| && (At(s, 0) == '-' <==> sign == "-")
      && DetectBase(s, |sign|, 0).base == base
      && s[DetectBase(s, |sign|, 0).pos..] == Digits(base, x, upper)
  {
    hide Digits;
    FirstDigit(base, x, upper);
    var prefix, digits := Prefix(base, showBase, upper), Digits(base, x, upper);
    var s := sign + prefix + digits;
    assert At(s, 0) == if |sign| > 0 then sign[0] else if |prefix| > 0 then '0' else digits[0];
    assert At(s, |sign|) == if |prefix| > 0 then '0' else digits[0];
    assert base == 8 ==> At(s, |sign| + 1) == digits[0];
    assert s[|sign| + |prefix|..] == digits;
  }

  /** Parsing the whole text gives the number back: in base 10, and in bases
      8 and 16 with the base shown; signed minimum included. */
  lemma TextReads(width: nat, bits: nat, signed: bool, base: nat, showBase: bool, showPos: bool, upper: bool)
    requires bits < Pow(2, width) && (base == 10 || ((base == 8 || base == 16) && showBase))
    ensures Parse(width, Text(width, bits, signed, base, showBase, showPos, upper), 0) == Parsed(true, bits)
  {
    hide Pow, Digits, Prefix, DetectBase, SignLength, At, IsNegative;
    var negative := IsNegative(width, bits, signed);
    var x := Written(width, bits, negative, base);
    WrittenBelow(width, bits, negative, base);
    ReadWritten(width, base, x, upper);
    DetectWritten(base, x, upper, Sign(base, negative, showPos), showBase);
    if base == 10 && negative {
      NegatedTwice(width, bits);
    }
  }

  lemma NegatedTwice(width: nat, bits: nat)
    requires bits < Pow(2, width)
    ensures Negated(width, (Pow(2, width) - bits) % Pow(2, width)) == bits
  {
    var m := Pow(2, width);
    if bits == 0 {
      DivModUnique(m, m, 1, 0);
    } else {
      DivModUnique(m - bits, m, 0, m - bits);
      DivModUnique(bits, m, 0, bits);
    }
  }
}
