/** Conversions between UTF-8, UTF-16 and UTF-32, and `truncateUtf8`. */
module Unicode {
  import opened Options

  function Prepend<T>(head: seq<T>, tail: Option<seq<T>>): Option<seq<T>> {
    if tail.None? then None else Some(head + tail.value)
  }

  lemma PrependTwice<T>(a: seq<T>, b: seq<T>, tail: Option<seq<T>>)
    ensures Prepend(a, Prepend(b, tail)) == Prepend(a + b, tail)
  {
    if tail.Some? {
      assert a + (b + tail.value) == a + b + tail.value;
    }
  }

  lemma PrependEnds<T>(a: seq<T>, tail: Option<seq<T>>)
    ensures Prepend(a, Some([])) == Some(a) && Prepend(a, None) == None && Prepend([], tail) == tail
  {
    assert a + [] == a;
    if tail.Some? {
      assert [] + tail.value == tail.value;
    }
  }

  // One code point as bytes.

  /** The bytes written for a value; only the values up to 0x10FFFF are code points. */
  function Utf8(cp: bv32): (r: seq<bv8>)
    requires cp < 0x40_0000
    ensures 1 <= |r| <= 4
  {
    if cp <= 0x7F then [cp as bv8]
    else if cp <= 0x7FF then [(0xC0 | (cp >> 6)) as bv8, (0x80 | (cp & 0x3F)) as bv8]
    else if cp <= 0xFFFF then
      [(0xE0 | (cp >> 12)) as bv8, (0x80 | ((cp >> 6) & 0x3F)) as bv8, (0x80 | (cp & 0x3F)) as bv8]
    else
      [(0xF0 | (cp >> 18)) as bv8, (0x80 | ((cp >> 12) & 0x3F)) as bv8, (0x80 | ((cp >> 6) & 0x3F)) as bv8, (0x80 | (cp & 0x3F)) as bv8]
  }

  /** The number of bytes a lead byte announces; 0 for no lead byte. */
  function LeadLength(lead: bv8): (n: nat)
    ensures n <= 4
  {
    if lead <= 0x7F then 1
    else if lead & 0xE0 == 0xC0 then 2
    else if lead & 0xF0 == 0xE0 then 3
    else if lead & 0xF8 == 0xF0 then 4
    else 0
  }

  /** The value of a sequence with its lead byte first. */
  function Assemble(s: seq<bv8>): bv32
    requires 1 <= |s| <= 4
  {
    if |s| == 1 then s[0] as bv32
    else if |s| == 2 then ((s[0] & 0x1F) as bv32 << 6) | (s[1] & 0x3F) as bv32
    else if |s| == 3 then ((s[0] & 0x0F) as bv32 << 12) | ((s[1] & 0x3F) as bv32 << 6) | (s[2] & 0x3F) as bv32
    else ((s[0] & 0x07) as bv32 << 18) | ((s[1] & 0x3F) as bv32 << 12) | ((s[2] & 0x3F) as bv32 << 6) | (s[3] & 0x3F) as bv32
  }

  predicate IsTail(b: bv8) {
    b & 0xC0 == 0x80
  }

  /** One character by the grammar of section 4 of RFC 3629: no overlong form,
      no surrogate, nothing above 0x10FFFF. */
  predicate ValidChar(s: seq<bv8>) {
    || (|s| == 1 && s[0] <= 0x7F)
    || (|s| == 2 && 0xC2 <= s[0] <= 0xDF && IsTail(s[1]))
    || (|s| == 3 && IsTail(s[1]) && IsTail(s[2])
        && ((s[0] == 0xE0 && s[1] >= 0xA0) || (0xE1 <= s[0] <= 0xEC) || (s[0] == 0xED && s[1] <= 0x9F) || (0xEE <= s[0] <= 0xEF)))
    || (|s| == 4 && IsTail(s[1]) && IsTail(s[2]) && IsTail(s[3])
        && ((s[0] == 0xF0 && s[1] >= 0x90) || (0xF1 <= s[0] <= 0xF3) || (s[0] == 0xF4 && s[1] <= 0x8F)))
  }

  predicate IsScalar(cp: bv32) {
    cp <= 0x10_FFFF && !(0xD800 <= cp <= 0xDFFF)
  }

  lemma OneByte(cp: bv32, a: bv8)
    requires cp <= 0x7F && a == cp as bv8
    ensures a <= 0x7F && a as bv32 == cp
  {
  }

  lemma TwoBytes(cp: bv32, a: bv8, b: bv8)
    requires 0x7F < cp <= 0x7FF && a == (0xC0 | (cp >> 6)) as bv8 && b == (0x80 | (cp & 0x3F)) as bv8
    ensures a > 0x7F && a & 0xE0 == 0xC0 && 0xC2 <= a <= 0xDF && b & 0xC0 == 0x80
    ensures ((a & 0x1F) as bv32 << 6) | (b & 0x3F) as bv32 == cp
  {
  }

  lemma ThreeBytes(cp: bv32, a: bv8, b: bv8, c: bv8)
    requires 0x7FF < cp <= 0xFFFF && a == (0xE0 | (cp >> 12)) as bv8 && b == (0x80 | ((cp >> 6) & 0x3F)) as bv8
    requires c == (0x80 | (cp & 0x3F)) as bv8
    ensures a > 0x7F && a & 0xE0 != 0xC0 && a & 0xF0 == 0xE0 && b & 0xC0 == 0x80 && c & 0xC0 == 0x80
    ensures 0xE0 <= a <= 0xEF && (a == 0xE0 ==> b >= 0xA0) && (a == 0xED && b > 0x9F <==> 0xD800 <= cp <= 0xDFFF)
    ensures ((a & 0x0F) as bv32 << 12) | ((b & 0x3F) as bv32 << 6) | (c & 0x3F) as bv32 == cp
  {
  }

  lemma FourBytes(cp: bv32, a: bv8, b: bv8, c: bv8, d: bv8)
    requires 0xFFFF < cp < 0x20_0000 && a == (0xF0 | (cp >> 18)) as bv8 && b == (0x80 | ((cp >> 12) & 0x3F)) as bv8
    requires c == (0x80 | ((cp >> 6) & 0x3F)) as bv8 && d == (0x80 | (cp & 0x3F)) as bv8
    ensures a > 0x7F && a & 0xE0 != 0xC0 && a & 0xF0 != 0xE0 && a & 0xF8 == 0xF0
    ensures b & 0xC0 == 0x80 && c & 0xC0 == 0x80 && d & 0xC0 == 0x80
    ensures (a == 0xF0 ==> b >= 0x90) && (cp <= 0x10_FFFF ==> a <= 0xF4 && (a == 0xF4 ==> b <= 0x8F))
    ensures ((a & 0x07) as bv32 << 18) | ((b & 0x3F) as bv32 << 12) | ((c & 0x3F) as bv32 << 6) | (d & 0x3F) as bv32 == cp
  {
  }

  lemma TooBig(cp: bv32, a: bv8)
    requires 0x20_0000 <= cp < 0x40_0000 && a == (0xF0 | (cp >> 18)) as bv8
    ensures a > 0x7F && a & 0xE0 != 0xC0 && a & 0xF0 != 0xE0 && a & 0xF8 != 0xF0
  {
  }

  lemma AssembleTwo(cp: bv32, a: bv8, b: bv8)
    requires a > 0x7F && a & 0xE0 == 0xC0 && ((a & 0x1F) as bv32 << 6) | (b & 0x3F) as bv32 == cp
    ensures LeadLength(a) == 2 && Assemble([a, b]) == cp
  {
  }

  lemma AssembleThree(cp: bv32, a: bv8, b: bv8, c: bv8)
    requires a > 0x7F && a & 0xE0 != 0xC0 && a & 0xF0 == 0xE0
    requires ((a & 0x0F) as bv32 << 12) | ((b & 0x3F) as bv32 << 6) | (c & 0x3F) as bv32 == cp
    ensures LeadLength(a) == 3 && Assemble([a, b, c]) == cp
  {
  }

  lemma AssembleFour(cp: bv32, a: bv8, b: bv8, c: bv8, d: bv8)
    requires a > 0x7F && a & 0xE0 != 0xC0 && a & 0xF0 != 0xE0 && a & 0xF8 == 0xF0
    requires ((a & 0x07) as bv32 << 18) | ((b & 0x3F) as bv32 << 12) | ((c & 0x3F) as bv32 << 6) | (d & 0x3F) as bv32 == cp
    ensures LeadLength(a) == 4 && Assemble([a, b, c, d]) == cp
  {
  }

  lemma InOneByte(cp: bv32)
    requires cp <= 0x7F
    ensures var s := Utf8(cp); LeadLength(s[0]) == |s| && Assemble(s) == cp && ValidChar(s)
  {
    OneByte(cp, cp as bv8);
  }

  lemma InTwoBytes(cp: bv32)
    requires 0x7F < cp <= 0x7FF
    ensures var s := Utf8(cp); LeadLength(s[0]) == |s| && Assemble(s) == cp && ValidChar(s)
  {
    hide LeadLength, Assemble;
    var a, b := (0xC0 | (cp >> 6)) as bv8, (0x80 | (cp & 0x3F)) as bv8;
    assert Utf8(cp) == [a, b];
    TwoBytes(cp, a, b);
    AssembleTwo(cp, a, b);
  }

  lemma InThreeBytes(cp: bv32)
    requires 0x7FF < cp <= 0xFFFF
    ensures var s := Utf8(cp); LeadLength(s[0]) == |s| && Assemble(s) == cp && (IsScalar(cp) ==> ValidChar(s))
  {
    hide LeadLength, Assemble, ValidChar;
    var a, b, c := (0xE0 | (cp >> 12)) as bv8, (0x80 | ((cp >> 6) & 0x3F)) as bv8, (0x80 | (cp & 0x3F)) as bv8;
    assert Utf8(cp) == [a, b, c];
    hide Utf8;
    ThreeBytes(cp, a, b, c);
    AssembleThree(cp, a, b, c);
    ValidThree(cp, a, b, c);
  }

  lemma ValidThree(cp: bv32, a: bv8, b: bv8, c: bv8)
    requires IsTail(b) && IsTail(c) && 0xE0 <= a <= 0xEF && (a == 0xE0 ==> b >= 0xA0)
    requires a == 0xED && b > 0x9F <==> 0xD800 <= cp <= 0xDFFF
    ensures IsScalar(cp) ==> ValidChar([a, b, c])
  {
  }

  lemma InFourBytes(cp: bv32)
    requires 0xFFFF < cp < 0x20_0000
    ensures var s := Utf8(cp); LeadLength(s[0]) == |s| && Assemble(s) == cp && (IsScalar(cp) ==> ValidChar(s))
  {
    hide LeadLength, Assemble, ValidChar;
    var a, b := (0xF0 | (cp >> 18)) as bv8, (0x80 | ((cp >> 12) & 0x3F)) as bv8;
    var c, d := (0x80 | ((cp >> 6) & 0x3F)) as bv8, (0x80 | (cp & 0x3F)) as bv8;
    assert Utf8(cp) == [a, b, c, d];
    hide Utf8;
    FourBytes(cp, a, b, c, d);
    AssembleFour(cp, a, b, c, d);
    ValidFour(cp, a, b, c, d);
  }

  lemma ValidFour(cp: bv32, a: bv8, b: bv8, c: bv8, d: bv8)
    requires IsTail(b) && IsTail(c) && IsTail(d) && a & 0xF8 == 0xF0 && (a == 0xF0 ==> b >= 0x90)
    requires cp <= 0x10_FFFF ==> a <= 0xF4 && (a == 0xF4 ==> b <= 0x8F)
    ensures IsScalar(cp) ==> ValidChar([a, b, c, d])
  {
    assert a >= 0xF0;
  }

  /** Reading the bytes of a value gives it back; for a code point they are valid. */
  lemma AssembleUtf8(cp: bv32)
    requires cp < 0x20_0000
    ensures var s := Utf8(cp); LeadLength(s[0]) == |s| && Assemble(s) == cp && (IsScalar(cp) ==> ValidChar(s))
  {
    hide Utf8, LeadLength, Assemble, ValidChar;
    if cp <= 0x7F {
      InOneByte(cp);
    } else if cp <= 0x7FF {
      InTwoBytes(cp);
    } else if cp <= 0xFFFF {
      InThreeBytes(cp);
    } else {
      InFourBytes(cp);
    }
  }

  lemma NoLead(cp: bv32)
    requires 0x20_0000 <= cp < 0x40_0000
    ensures LeadLength(Utf8(cp)[0]) == 0
  {
    TooBig(cp, Utf8(cp)[0]);
  }

  // Valid bytes are the bytes of their value.

  lemma CanonicalTwo(a: bv8, b: bv8, cp: bv32)
    requires 0xC2 <= a <= 0xDF && b & 0xC0 == 0x80 && cp == ((a & 0x1F) as bv32 << 6) | (b & 0x3F) as bv32
    ensures 0x7F < cp <= 0x7FF && a & 0xE0 == 0xC0 && (0xC0 | (cp >> 6)) as bv8 == a && (0x80 | (cp & 0x3F)) as bv8 == b
  {
  }

  lemma CanonicalThree(a: bv8, b: bv8, c: bv8, cp: bv32)
    requires 0xE0 <= a <= 0xEF && b & 0xC0 == 0x80 && c & 0xC0 == 0x80 && (a == 0xE0 ==> b >= 0xA0) && (a == 0xED ==> b <= 0x9F)
    requires cp == ((a & 0x0F) as bv32 << 12) | ((b & 0x3F) as bv32 << 6) | (c & 0x3F) as bv32
    ensures 0x7FF < cp <= 0xFFFF && !(0xD800 <= cp <= 0xDFFF) && a & 0xE0 != 0xC0 && a & 0xF0 == 0xE0
    ensures (0xE0 | (cp >> 12)) as bv8 == a && (0x80 | ((cp >> 6) & 0x3F)) as bv8 == b && (0x80 | (cp & 0x3F)) as bv8 == c
  {
  }

  lemma CanonicalFour(a: bv8, b: bv8, c: bv8, d: bv8, cp: bv32)
    requires 0xF0 <= a <= 0xF4 && b & 0xC0 == 0x80 && c & 0xC0 == 0x80 && d & 0xC0 == 0x80
    requires (a == 0xF0 ==> b >= 0x90) && (a == 0xF4 ==> b <= 0x8F)
    requires cp == ((a & 0x07) as bv32 << 18) | ((b & 0x3F) as bv32 << 12) | ((c & 0x3F) as bv32 << 6) | (d & 0x3F) as bv32
    ensures 0xFFFF < cp <= 0x10_FFFF && a & 0xE0 != 0xC0 && a & 0xF0 != 0xE0 && a & 0xF8 == 0xF0
    ensures (0xF0 | (cp >> 18)) as bv8 == a && (0x80 | ((cp >> 12) & 0x3F)) as bv8 == b
    ensures (0x80 | ((cp >> 6) & 0x3F)) as bv8 == c && (0x80 | (cp & 0x3F)) as bv8 == d
  {
  }

  lemma CanonicalOne(s: seq<bv8>)
    requires |s| == 1 && ValidChar(s)
    ensures LeadLength(s[0]) == 1 && IsScalar(Assemble(s)) && Utf8(Assemble(s)) == s
  {
    OneByte(Assemble(s), s[0]);
  }

  lemma Utf8Two(cp: bv32, a: bv8, b: bv8)
    requires 0x7F < cp <= 0x7FF && (0xC0 | (cp >> 6)) as bv8 == a && (0x80 | (cp & 0x3F)) as bv8 == b
    ensures Utf8(cp) == [a, b] && IsScalar(cp)
  {
  }

  lemma Utf8Three(cp: bv32, a: bv8, b: bv8, c: bv8)
    requires 0x7FF < cp <= 0xFFFF && !(0xD800 <= cp <= 0xDFFF) && (0xE0 | (cp >> 12)) as bv8 == a
    requires (0x80 | ((cp >> 6) & 0x3F)) as bv8 == b && (0x80 | (cp & 0x3F)) as bv8 == c
    ensures Utf8(cp) == [a, b, c] && IsScalar(cp)
  {
  }

  lemma Utf8Four(cp: bv32, a: bv8, b: bv8, c: bv8, d: bv8)
    requires 0xFFFF < cp <= 0x10_FFFF && (0xF0 | (cp >> 18)) as bv8 == a && (0x80 | ((cp >> 12) & 0x3F)) as bv8 == b
    requires (0x80 | ((cp >> 6) & 0x3F)) as bv8 == c && (0x80 | (cp & 0x3F)) as bv8 == d
    ensures Utf8(cp) == [a, b, c, d] && IsScalar(cp)
  {
  }

  lemma CanonicalTwoBytes(s: seq<bv8>)
    requires |s| == 2 && ValidChar(s)
    ensures LeadLength(s[0]) == 2 && IsScalar(Assemble(s)) && Utf8(Assemble(s)) == s
  {
    hide Assemble, LeadLength, Utf8, IsScalar;
    var a, b := s[0], s[1];
    var cp := ((a & 0x1F) as bv32 << 6) | (b & 0x3F) as bv32;
    CanonicalTwo(a, b, cp);
    AssembleTwo(cp, a, b);
    Utf8Two(cp, a, b);
    assert s == [a, b];
  }

  lemma CanonicalThreeBytes(s: seq<bv8>)
    requires |s| == 3 && ValidChar(s)
    ensures LeadLength(s[0]) == 3 && IsScalar(Assemble(s)) && Utf8(Assemble(s)) == s
  {
    hide Assemble, LeadLength, Utf8, IsScalar;
    var a, b, c := s[0], s[1], s[2];
    var cp := ((a & 0x0F) as bv32 << 12) | ((b & 0x3F) as bv32 << 6) | (c & 0x3F) as bv32;
    CanonicalThree(a, b, c, cp);
    AssembleThree(cp, a, b, c);
    Utf8Three(cp, a, b, c);
    assert s == [a, b, c];
  }

  lemma CanonicalFourBytes(s: seq<bv8>)
    requires |s| == 4 && ValidChar(s)
    ensures LeadLength(s[0]) == 4 && IsScalar(Assemble(s)) && Utf8(Assemble(s)) == s
  {
    hide Assemble, LeadLength, Utf8, IsScalar;
    var a, b, c, d := s[0], s[1], s[2], s[3];
    var cp := ((a & 0x07) as bv32 << 18) | ((b & 0x3F) as bv32 << 12) | ((c & 0x3F) as bv32 << 6) | (d & 0x3F) as bv32;
    CanonicalFour(a, b, c, d, cp);
    AssembleFour(cp, a, b, c, d);
    Utf8Four(cp, a, b, c, d);
    assert s == [a, b, c, d];
  }

  /** A valid character is the byte form of its code point. */
  lemma ValidCharIsUtf8(s: seq<bv8>)
    requires ValidChar(s)
    ensures 1 <= |s| <= 4 && LeadLength(s[0]) == |s| && IsScalar(Assemble(s)) && Utf8(Assemble(s)) == s
  {
    ValidCharLength(s);
    hide Assemble, LeadLength, ValidChar, Utf8, IsScalar;
    if |s| == 1 {
      CanonicalOne(s);
    } else if |s| == 2 {
      CanonicalTwoBytes(s);
    } else if |s| == 3 {
      CanonicalThreeBytes(s);
    } else {
      CanonicalFourBytes(s);
    }
  }

  lemma ValidCharLength(s: seq<bv8>)
    requires ValidChar(s)
    ensures 1 <= |s| <= 4
  {
  }

  // Whole strings.

  /** UTF-8 by section 4 of RFC 3629. */
  predicate ValidUtf8(s: seq<bv8>) {
    |s| == 0 || (var n := LeadLength(s[0]); 0 < n <= |s| && ValidChar(s[..n]) && ValidUtf8(s[n..]))
  }

  function Utf32ToUtf8(input: seq<bv32>): Option<seq<bv8>> {
    if |input| == 0 then Some([])
    else if input[0] > 0x10_FFFF then None
    else Prepend(Utf8(input[0]), Utf32ToUtf8(input[1..]))
  }

  /** The first n bytes; behind the end the terminating zero is read. */
  function Window(s: seq<bv8>, n: nat): (r: seq<bv8>)
    ensures |r| == n && (n <= |s| ==> r == s[..n])
  {
    seq(n, i => if 0 <= i < |s| then s[i] else 0)
  }

  /** The value at the front of a string, taken from as many bytes as its lead
      byte announces, or a lone byte as it is. */
  function FrontValue(s: seq<bv8>): bv32
    requires |s| > 0
  {
    if LeadLength(s[0]) == 0 then s[0] as bv32 else Assemble(Window(s, LeadLength(s[0])))
  }

  function Behind(s: seq<bv8>, n: nat): seq<bv8> {
    if n <= |s| then s[n..] else []
  }

  function Utf8ToUtf32(s: seq<bv8>, allowInvalid: bool): Option<seq<bv32>>
    decreases |s|
  {
    if |s| == 0 then Some([])
    else
      var n := LeadLength(s[0]);
      if n == 0 && !allowInvalid then None
      else Prepend([FrontValue(s)], Utf8ToUtf32(Behind(s, if n == 0 then 1 else n), allowInvalid))
  }

  /** A byte that starts no sequence decodes to itself when invalid text is
      allowed, and fails the decoding otherwise. */
  lemma StrayByte(b: bv8, rest: seq<bv8>, allowInvalid: bool)
    requires 0x80 <= b < 0xC0 || 0xF8 <= b
    ensures Utf8ToUtf32([b] + rest, allowInvalid) == if allowInvalid then Prepend([b as bv32], Utf8ToUtf32(rest, true)) else None
  {
    assert LeadLength(b) == 0;
    assert Behind([b] + rest, 1) == rest;
  }

  predicate IsSurrogate(u: bv16) {
    0xD800 <= u <= 0xDFFF
  }

  predicate IsLow(u: bv16) {
    0xDC00 <= u <= 0xDFFF
  }

  predicate IsHigh(u: bv16) {
    0xD800 <= u <= 0xDBFF
  }

  function Wide(u: bv16): (cp: bv32)
    ensures cp < 0x20_0000
  {
    u as bv32
  }

  function FullChar(first: bv16, second: bv16): (cp: bv32)
    requires IsSurrogate(first) && IsLow(second)
    ensures 0xFFFF < cp < 0x40_0000
  {
    ((first - 0xD800) as bv32 << 10) + (second - 0xDC00) as bv32 + 0x1_0000
  }

  /** The value at the front: one unit, or two when the first is a surrogate. */
  function Utf16ToUtf8(s: seq<bv16>): Option<seq<bv8>> {
    if |s| == 0 then Some([])
    else if !IsSurrogate(s[0]) then Prepend(Utf8(Wide(s[0])), Utf16ToUtf8(s[1..]))
    else if |s| > 1 && IsLow(s[1]) then Prepend(Utf8(FullChar(s[0], s[1])), Utf16ToUtf8(s[2..]))
    else None
  }

  /** A value as UTF-16 units. */
  function Units(cp: bv32): (r: seq<bv16>)
    requires cp < 0x20_0000
    ensures 1 <= |r| <= 2
  {
    if cp > 0xFFFF then [(0xD800 + ((cp - 0x1_0000) >> 10)) as bv16, (0xDC00 + ((cp - 0x1_0000) & 0x3FF)) as bv16]
    else [cp as bv16]
  }

  lemma AssembledBound(s: seq<bv8>)
    requires 1 <= |s| <= 4
    ensures Assemble(s) < 0x20_0000
  {
  }

  function Utf8ToUtf16(s: seq<bv8>): Option<seq<bv16>>
    decreases |s|
  {
    if |s| == 0 then Some([])
    else
      var n := LeadLength(s[0]);
      if n == 0 || n > |s| then None
      else AssembledBound(s[..n]); Prepend(Units(Assemble(s[..n])), Utf8ToUtf16(s[n..]))
  }

  lemma FrontOfUtf8(cp: bv32, rest: seq<bv8>)
    requires cp < 0x20_0000
    ensures var s := Utf8(cp) + rest; var n := LeadLength(s[0]);
      && 0 < n == |Utf8(cp)| <= |s| && Assemble(s[..n]) == cp && FrontValue(s) == cp && s[n..] == rest && Behind(s, n) == rest
  {
    hide Utf8, LeadLength, Assemble;
    AssembleUtf8(cp);
    var s := Utf8(cp) + rest;
    assert s[..|Utf8(cp)|] == Utf8(cp);
  }

  lemma Utf32Front(cp: bv32, rest: seq<bv8>, allowInvalid: bool)
    requires cp < 0x20_0000
    ensures Utf8ToUtf32(Utf8(cp) + rest, allowInvalid)
         == Prepend([cp], Utf8ToUtf32(rest, allowInvalid))
  {
    hide Utf8, LeadLength, Assemble, FrontValue, Behind;
    FrontOfUtf8(cp, rest);
  }

  lemma Utf16Front(cp: bv32, rest: seq<bv8>)
    requires cp < 0x20_0000
    ensures Utf8ToUtf16(Utf8(cp) + rest) == Prepend(Units(cp), Utf8ToUtf16(rest))
  {
    hide Utf8, LeadLength, Assemble, Units;
    FrontOfUtf8(cp, rest);
  }

  predicate AllBelow(s: seq<bv32>) {
    forall i :: 0 <= i < |s| ==> s[i] <= 0x10_FFFF
  }

  /** `utf32ToUtf8` takes exactly the lists of values up to 0x10FFFF, and
      reading its result gives the list back. */
  lemma {:induction false} Utf32RoundTrip(s: seq<bv32>, allowInvalid: bool)
    ensures Utf32ToUtf8(s).Some? <==> AllBelow(s)
    ensures Utf32ToUtf8(s).Some? ==> Utf8ToUtf32(Utf32ToUtf8(s).value, allowInvalid) == Some(s)
    decreases |s|
  {
    hide Utf8, Utf8ToUtf32;
    if |s| == 0 {
      EmptyDecodes(allowInvalid);
    } else {
      Utf32RoundTrip(s[1..], allowInvalid);
      assert s == [s[0]] + s[1..];
      if s[0] <= 0x10_FFFF && AllBelow(s[1..]) {
        Utf32Front(s[0], Utf32ToUtf8(s[1..]).value, allowInvalid);
      }
    }
  }

  lemma EmptyDecodes(allowInvalid: bool)
    ensures Utf8ToUtf32([], allowInvalid) == Some([]) && Utf8ToUtf16([]) == Some([])
  {
  }

  // UTF-16.

  /** Every surrogate, high or low, is followed by a low one. */
  predicate Paired(s: seq<bv16>) {
    || |s| == 0
    || (!IsSurrogate(s[0]) && Paired(s[1..]))
    || (IsSurrogate(s[0]) && |s| > 1 && IsLow(s[1]) && Paired(s[2..]))
  }

  predicate IsReadable(first: bv16) {
    first < 0xDFC0
  }

  /** No pair starts with a unit from 0xDFC0 on. */
  predicate PairsReadable(s: seq<bv16>)
    requires Paired(s)
  {
    || |s| == 0
    || (!IsSurrogate(s[0]) && PairsReadable(s[1..]))
    || (IsSurrogate(s[0]) && IsReadable(s[0]) && PairsReadable(s[2..]))
  }

  /** Well-formed UTF-16: pairs start with a high surrogate. */
  predicate WellFormed16(s: seq<bv16>) {
    || |s| == 0
    || (!IsSurrogate(s[0]) && WellFormed16(s[1..]))
    || (IsHigh(s[0]) && |s| > 1 && IsLow(s[1]) && WellFormed16(s[2..]))
  }

  /** Decoding by section 2.2 of RFC 2781. */
  function CodePoints(s: seq<bv16>): seq<bv32>
    requires WellFormed16(s)
  {
    if |s| == 0 then []
    else if !IsSurrogate(s[0]) then [Wide(s[0])] + CodePoints(s[1..])
    else [PairPoint(s[0], s[1])] + CodePoints(s[2..])
  }

  function PairPoint(first: bv16, second: bv16): bv32 {
    (((first & 0x3FF) as bv32 << 10) | (second & 0x3FF) as bv32) + 0x1_0000
  }

  lemma PairValue(first: bv16, second: bv16)
    requires IsHigh(first) && IsLow(second)
    ensures IsSurrogate(first) && FullChar(first, second) == PairPoint(first, second) <= 0x10_FFFF
    ensures IsScalar(PairPoint(first, second))
  {
  }

  lemma PairUnits(first: bv16, second: bv16)
    requires IsSurrogate(first) && IsLow(second)
    ensures IsReadable(first) <==> FullChar(first, second) < 0x20_0000
    ensures IsReadable(first) ==> Units(FullChar(first, second)) == [first, second]
  {
  }

  lemma OneUnit(u: bv16)
    ensures Wide(u) <= 0x10_FFFF && Units(Wide(u)) == [u] && (!IsSurrogate(u) ==> IsScalar(Wide(u)))
  {
  }

  lemma UnreadableFront(cp: bv32, rest: seq<bv8>)
    requires 0x20_0000 <= cp < 0x40_0000
    ensures Utf8ToUtf16(Utf8(cp) + rest) == None
  {
    hide Utf8, LeadLength, Assemble;
    NoLead(cp);
  }

  /** `utf16ToUtf8` takes exactly the paired strings; reading its result gives
      the string back, or nothing when a pair starts from 0xDFC0 on. */
  lemma {:induction false} Utf16RoundTrip(s: seq<bv16>)
    ensures Utf16ToUtf8(s).Some? <==> Paired(s)
    ensures Paired(s) ==> Utf8ToUtf16(Utf16ToUtf8(s).value) == if PairsReadable(s) then Some(s) else None
    decreases |s|
  {
    hide Utf8, Utf8ToUtf16, Units, IsSurrogate, IsLow, IsReadable, FullChar, Wide;
    if |s| == 0 {
      EmptyDecodes(false);
    } else if !IsSurrogate(s[0]) {
      Utf16RoundTrip(s[1..]);
      assert s == [s[0]] + s[1..];
      OneUnit(s[0]);
      if Paired(s[1..]) {
        Utf16Front(Wide(s[0]), Utf16ToUtf8(s[1..]).value);
      }
    } else if |s| > 1 && IsLow(s[1]) {
      Utf16RoundTrip(s[2..]);
      assert s == [s[0], s[1]] + s[2..];
      PairUnits(s[0], s[1]);
      if Paired(s[2..]) {
        if IsReadable(s[0]) {
          Utf16Front(FullChar(s[0], s[1]), Utf16ToUtf8(s[2..]).value);
        } else {
          UnreadableFront(FullChar(s[0], s[1]), Utf16ToUtf8(s[2..]).value);
        }
      }
    }
  }

  lemma HighIsReadable(u: bv16)
    ensures IsHigh(u) ==> IsSurrogate(u) && IsReadable(u)
  {
  }

  /** Well-formed UTF-16 survives the way to UTF-8 and back. */
  lemma {:induction false} WellFormedIsReadable(s: seq<bv16>)
    requires WellFormed16(s)
    ensures Paired(s) && PairsReadable(s)
    decreases |s|
  {
    if |s| > 0 {
      HighIsReadable(s[0]);
      if !IsSurrogate(s[0]) {
        WellFormedIsReadable(s[1..]);
      } else {
        WellFormedIsReadable(s[2..]);
      }
    }
  }

  predicate AllScalars(s: seq<bv32>) {
    forall i :: 0 <= i < |s| ==> IsScalar(s[i])
  }

  /** The UTF-8 of well-formed UTF-16 is the UTF-8 of its code points, so reading
      it as UTF-32 gives them. */
  lemma {:induction false} CodePointsAgree(s: seq<bv16>)
    requires WellFormed16(s)
    ensures AllScalars(CodePoints(s)) && Utf16ToUtf8(s).Some? && Utf32ToUtf8(CodePoints(s)) == Utf16ToUtf8(s)
    decreases |s|
  {
    hide Utf8, FullChar, Wide, IsHigh, IsSurrogate, IsReadable, IsLow, IsScalar, PairPoint;
    if |s| > 0 {
      HighIsReadable(s[0]);
      if !IsSurrogate(s[0]) {
        CodePointsAgree(s[1..]);
        OneUnit(s[0]);
        assert CodePoints(s)[1..] == CodePoints(s[1..]);
      } else {
        CodePointsAgree(s[2..]);
        PairValue(s[0], s[1]);
        assert CodePoints(s)[1..] == CodePoints(s[2..]);
      }
    }
  }

  lemma DecodedCodePoints(s: seq<bv16>, allowInvalid: bool)
    requires WellFormed16(s)
    ensures Utf16ToUtf8(s).Some? && Utf8ToUtf32(Utf16ToUtf8(s).value, allowInvalid) == Some(CodePoints(s))
    ensures Utf8ToUtf16(Utf16ToUtf8(s).value) == Some(s) && ValidUtf8(Utf16ToUtf8(s).value)
  {
    hide Utf8ToUtf32, Utf8ToUtf16, Utf32ToUtf8, Utf16ToUtf8, ValidUtf8;
    CodePointsAgree(s);
    Utf32RoundTrip(CodePoints(s), allowInvalid);
    WellFormedIsReadable(s);
    Utf16RoundTrip(s);
    ScalarsAreValid(CodePoints(s));
  }

  // Valid UTF-8.

  lemma ValidFront(cp: bv32, rest: seq<bv8>)
    requires IsScalar(cp) && ValidUtf8(rest)
    ensures ValidUtf8(Utf8(cp) + rest)
  {
    hide Utf8, LeadLength, Assemble, ValidChar;
    AssembleUtf8(cp);
    FrontOfUtf8(cp, rest);
    var s := Utf8(cp) + rest;
    assert s[..|Utf8(cp)|] == Utf8(cp);
  }

  lemma {:induction false} ScalarsAreValid(s: seq<bv32>)
    requires AllScalars(s)
    ensures Utf32ToUtf8(s).Some? && ValidUtf8(Utf32ToUtf8(s).value)
    decreases |s|
  {
    hide Utf8, ValidUtf8;
    if |s| == 0 {
      EmptyIsValid();
    } else {
      ScalarsAreValid(s[1..]);
      ValidFront(s[0], Utf32ToUtf8(s[1..]).value);
    }
  }

  lemma EmptyIsValid()
    ensures ValidUtf8([])
  {
  }

  /** Valid UTF-8 read as UTF-32 is a list of code points with just these bytes. */
  lemma {:induction false} ValidRoundTrip(s: seq<bv8>, allowInvalid: bool)
    requires ValidUtf8(s)
    ensures var r := Utf8ToUtf32(s, allowInvalid); r.Some? && AllScalars(r.value) && Utf32ToUtf8(r.value) == Some(s)
    decreases |s|
  {
    hide Utf8, LeadLength, Assemble, ValidChar, Utf8ToUtf32;
    if |s| == 0 {
      EmptyDecodes(allowInvalid);
    } else {
      var n := LeadLength(s[0]);
      var cp := Assemble(s[..n]);
      ValidRoundTrip(s[n..], allowInvalid);
      ValidCharIsUtf8(s[..n]);
      Utf32Front(cp, s[n..], allowInvalid);
      assert s == s[..n] + s[n..];
      var tail := Utf8ToUtf32(s[n..], allowInvalid).value;
      assert ([cp] + tail)[1..] == tail;
    }
  }

  // The loops.

  method ConvertUtf32ToUtf8(input: seq<bv32>) returns (r: Option<seq<bv8>>)
    ensures r == Utf32ToUtf8(input)
  {
    hide Utf8, Prepend;
    var output: seq<bv8> := [];
    assert input[0..] == input;
    PrependEnds([], Utf32ToUtf8(input));
    for i := 0 to |input|
      invariant Utf32ToUtf8(input) == Prepend(output, Utf32ToUtf8(input[i..]))
    {
      assert input[i..][1..] == input[i + 1..];
      if input[i] > 0x10_FFFF {
        PrependEnds(output, None);
        return None;
      }
      PrependTwice(output, Utf8(input[i]), Utf32ToUtf8(input[i + 1..]));
      output := output + Utf8(input[i]);
    }
    PrependEnds(output, None);
    r := Some(output);
  }

  lemma BehindTwice(s: seq<bv8>, i: nat, n: nat)
    ensures i <= |s| ==> Behind(s, i) == s[i..] && Behind(s[i..], n) == Behind(s, i + n)
    ensures Behind(s, 0) == s
    ensures i >= |s| ==> Behind(s, i) == []
  {
  }

  method ConvertUtf8ToUtf32(input: seq<bv8>, allowInvalid: bool) returns (r: Option<seq<bv32>>)
    ensures r == Utf8ToUtf32(input, allowInvalid)
  {
    hide LeadLength, FrontValue, Prepend, Behind;
    var output: seq<bv32> := [];
    var i := 0;
    BehindTwice(input, 0, 0);
    PrependEnds([], Utf8ToUtf32(input, allowInvalid));
    while i < |input|
      invariant 0 <= i
      invariant Utf8ToUtf32(input, allowInvalid) == Prepend(output, Utf8ToUtf32(Behind(input, i), allowInvalid))
    {
      BehindTwice(input, i, 0);
      var n := LeadLength(input[i]);
      if n == 0 && !allowInvalid {
        PrependEnds(output, None);
        return None;
      }
      var step := if n == 0 then 1 else n;
      BehindTwice(input, i, step);
      PrependTwice(output, [FrontValue(input[i..])], Utf8ToUtf32(Behind(input, i + step), allowInvalid));
      output := output + [FrontValue(input[i..])];
      i := i + step;
    }
    BehindTwice(input, i, 0);
    PrependEnds(output, None);
    r := Some(output);
  }

  method ConvertUtf16ToUtf8(input: seq<bv16>) returns (r: Option<seq<bv8>>)
    ensures r == Utf16ToUtf8(input)
  {
    hide Utf8, Wide, FullChar, IsSurrogate, IsLow, Prepend;
    var output: seq<bv8> := [];
    var i := 0;
    assert input[0..] == input;
    PrependEnds([], Utf16ToUtf8(input));
    while i < |input|
      invariant 0 <= i <= |input|
      invariant Utf16ToUtf8(input) == Prepend(output, Utf16ToUtf8(input[i..]))
    {
      if !IsSurrogate(input[i]) {
        assert input[i..][1..] == input[i + 1..];
        PrependTwice(output, Utf8(Wide(input[i])), Utf16ToUtf8(input[i + 1..]));
        output := output + Utf8(Wide(input[i]));
      } else if i + 1 < |input| && IsLow(input[i + 1]) {
        assert input[i..][2..] == input[i + 2..];
        PrependTwice(output, Utf8(FullChar(input[i], input[i + 1])), Utf16ToUtf8(input[i + 2..]));
        output := output + Utf8(FullChar(input[i], input[i + 1]));
        i := i + 1;
      } else {
        PrependEnds(output, None);
        return None;
      }
      i := i + 1;
    }
    PrependEnds(output, None);
    r := Some(output);
  }

  method ConvertUtf8ToUtf16(input: seq<bv8>) returns (r: Option<seq<bv16>>)
    ensures r == Utf8ToUtf16(input)
  {
    hide LeadLength, Assemble, Units, Prepend;
    var output: seq<bv16> := [];
    var i := 0;
    assert input[0..] == input;
    PrependEnds([], Utf8ToUtf16(input));
    while i < |input|
      invariant 0 <= i <= |input|
      invariant Utf8ToUtf16(input) == Prepend(output, Utf8ToUtf16(input[i..]))
    {
      var n := LeadLength(input[i]);
      if n == 0 || i + n > |input| {
        PrependEnds(output, None);
        return None;
      }
      assert input[i..][..n] == input[i..i + n] && input[i..][n..] == input[i + n..];
      AssembledBound(input[i..i + n]);
      PrependTwice(output, Units(Assemble(input[i..i + n])), Utf8ToUtf16(input[i + n..]));
      output := output + Units(Assemble(input[i..i + n]));
      i := i + n;
    }
    PrependEnds(output, None);
    r := Some(output);
  }

  // Truncation.

  /** A character starts, or the string ends, at position `k`. */
  predicate IsBoundary(s: seq<bv8>, k: nat) {
    k == 0 || (|s| > 0 && var n := LeadLength(s[0]); 0 < n <= k && n <= |s| && IsBoundary(s[n..], k - n))
  }

  lemma LeadIsNoTail(b: bv8)
    ensures LeadLength(b) > 0 ==> !IsTail(b)
  {
  }

  lemma TailsOfChar(s: seq<bv8>, i: nat)
    requires ValidChar(s) && 0 < i < |s|
    ensures IsTail(s[i])
  {
    hide IsTail;
  }

  /** In valid UTF-8 the bytes that start no character are the tail bytes. */
  lemma {:induction false} TailsAreInside(s: seq<bv8>, p: nat)
    requires ValidUtf8(s) && p < |s|
    ensures IsTail(s[p]) <==> !IsBoundary(s, p)
    decreases |s|
  {
    hide LeadLength, IsTail, ValidChar;
    var n := LeadLength(s[0]);
    LeadIsNoTail(s[0]);
    if 0 < p < n {
      TailsOfChar(s[..n], p);
    } else if p >= n {
      TailsAreInside(s[n..], p - n);
    }
  }

  lemma {:induction false} NextBoundary(s: seq<bv8>, p: nat)
    requires ValidUtf8(s) && p < |s| && IsBoundary(s, p)
    ensures var n := LeadLength(s[p]);
      0 < n && p + n <= |s| && IsBoundary(s, p + n) && forall j :: p < j < p + n ==> !IsBoundary(s, j)
    decreases |s|
  {
    hide LeadLength, ValidChar;
    var n := LeadLength(s[0]);
    if p == 0 {
      assert IsBoundary(s[n..], 0);
    } else {
      NextBoundary(s[n..], p - n);
      forall j | p < j < p + LeadLength(s[p]) ensures !IsBoundary(s, j) {
        assert !IsBoundary(s[n..], j - n);
      }
    }
  }

  lemma {:induction false} BoundaryIsValid(s: seq<bv8>, k: nat)
    requires ValidUtf8(s) && IsBoundary(s, k)
    ensures k <= |s| && ValidUtf8(s[..k])
    decreases |s|
  {
    hide LeadLength, ValidChar;
    if k > 0 {
      var n := LeadLength(s[0]);
      BoundaryIsValid(s[n..], k - n);
      assert s[..k][..n] == s[..n] && s[..k][n..] == s[n..][..k - n];
    }
  }

  lemma {:induction false} EndIsBoundary(s: seq<bv8>)
    requires ValidUtf8(s)
    ensures IsBoundary(s, |s|)
    decreases |s|
  {
    hide LeadLength, ValidChar;
    if |s| > 0 {
      EndIsBoundary(s[LeadLength(s[0])..]);
    }
  }

  /** `truncateUtf8`: always a prefix of at most `maxBytes` bytes; of a valid
      string the longest that ends between characters, itself valid. */
  method TruncateUtf8(s: seq<bv8>, maxBytes: nat) returns (r: seq<bv8>)
    ensures |r| <= maxBytes && r <= s
    ensures |s| <= maxBytes ==> r == s
    ensures ValidUtf8(s) ==> ValidUtf8(r) && IsBoundary(s, |r|)
    ensures ValidUtf8(s) ==> forall k: nat :: IsBoundary(s, k) && k <= maxBytes ==> k <= |r|
  {
    hide LeadLength, IsTail, ValidUtf8, IsBoundary;
    if |s| <= maxBytes {
      if ValidUtf8(s) {
        EndIsBoundary(s);
        forall k: nat | IsBoundary(s, k) ensures k <= |s| {
          BoundaryIsValid(s, k);
        }
      }
      return s;
    }
    var p: nat := maxBytes;
    while p > 0 && IsTail(s[p - 1])
      invariant 0 <= p <= maxBytes
      invariant forall j :: p <= j < maxBytes ==> IsTail(s[j])
    {
      p := p - 1;
    }
    StartIsBoundary(s);
    if ValidUtf8(s) {
      forall j: nat | p <= j < maxBytes ensures !IsBoundary(s, j) {
        TailsAreInside(s, j);
      }
      if p > 0 {
        TailsAreInside(s, p - 1);
        NextBoundary(s, p - 1);
        BoundaryIsValid(s, p - 1);
        BoundaryIsValid(s, p - 1 + LeadLength(s[p - 1]));
        assert p - 1 + LeadLength(s[p - 1]) >= maxBytes;
      }
    }
    if p == 0 {
      assert s[..0] == [];
      return [];
    }
    var length := LeadLength(s[p - 1]);
    if length == 0 {
      return [];
    }
    if p - 1 + length > maxBytes {
      return s[..p - 1];
    }
    r := s[..p - 1 + length];
  }

  lemma StartIsBoundary(s: seq<bv8>)
    ensures IsBoundary(s, 0) && ValidUtf8([])
  {
  }
}