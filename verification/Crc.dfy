/**
  The table-driven CRC engine. A register or polynomial of N bits is a bit
  string with the highest power of x first; the engine's word holds the same
  string with its bit 0 first, which is what the source calls reflected.
 */
module CyclicRedundancy {
  import opened BitStrings
  import opened Powers

  /** A 64-bit word, least significant bit first. */
  type Word = s: seq<bool> | |s| == 64 witness Zeros(64)
  type Byte = s: seq<bool> | |s| == 8 witness Zeros(8)

  function LowMask(bits: nat): Word
    requires bits <= 64
  {
    seq(64, i => i < bits)
  }

  /** The low `bits` bits in reverse order. */
  function Reflected(w: Word, bits: nat): (r: Word)
    requires bits <= 64
    ensures forall i :: 0 <= i < 64 ==> r[i] == (i < bits && w[bits - 1 - i])
  {
    Backwards(w[..bits]) + Zeros(64 - bits)
  }

  // The polynomial division the engine stands for.

  /** One bit of the division: shift the register up, bring the message bit in
      at the top, and subtract the polynomial when a 1 leaves. */
  function Divide1(poly: seq<bool>, r: seq<bool>, bit: bool): (r': seq<bool>)
    requires |r| == |poly| > 0
    ensures |r'| == |r|
  {
    Xor(r[1..] + [false], if r[0] != bit then poly else Zeros(|r|))
  }

  function Register(poly: seq<bool>, r: seq<bool>, message: seq<bool>): (r': seq<bool>)
    requires |r| == |poly| > 0
    ensures |r'| == |r|
    decreases |message|
  {
    if |message| == 0 then r else Register(poly, Divide1(poly, r, message[0]), message[1..])
  }

  /** The bits of a byte, first to last. */
  function InOrder(byte: Byte, reflectInput: bool): Byte {
    if reflectInput then byte else Backwards(byte)
  }

  /** The bits of the message in the order they enter the division. */
  function MessageBits(bytes: seq<Byte>, reflectInput: bool): seq<bool> {
    if |bytes| == 0 then []
    else InOrder(bytes[0], reflectInput) + MessageBits(bytes[1..], reflectInput)
  }

  datatype Parameters = Parameters(bits: nat, polynomial: Word, init: Word, xorOut: Word, reflectInput: bool, reflectOutput: bool)
  {
    predicate Valid() {
      1 <= bits <= 64
    }

    /** The low N bits of a word, highest power first. */
    function Coefficients(w: Word): (r: seq<bool>)
      requires Valid()
      ensures |r| == bits
    {
      Backwards(w[..bits])
    }
  }

  /** The CRC of a message by bit-at-a-time polynomial division. */
  function Checksum(p: Parameters, bytes: seq<Byte>): Word
    requires p.Valid()
  {
    var r := Register(p.Coefficients(p.polynomial), p.Coefficients(p.init), MessageBits(bytes, p.reflectInput));
    FinalWord(p, r)
  }

  /** The final register as the result word: reflected if so asked, xor-out added. */
  function FinalWord(p: Parameters, r: seq<bool>): Word
    requires p.Valid() && |r| == p.bits
  {
    Backwards(Xor(if p.reflectOutput then Backwards(r) else r, p.Coefficients(p.xorOut))) + Zeros(64 - p.bits)
  }

  // The reflected engine.

  function Step(poly: Word, c: Word): Word {
    if c[0] then Xor(poly, ShiftRight(c, 1)) else ShiftRight(c, 1)
  }

  function Steps(poly: Word, c: Word, n: nat): Word
    decreases n
  {
    if n == 0 then c else Steps(poly, Step(poly, c), n - 1)
  }

  function TableEntry(poly: Word, i: nat): Word {
    Steps(poly, FromNat(i, 64), 8)
  }

  function AsWord(bits: seq<bool>): Word
    requires |bits| <= 64
  {
    bits + Zeros(64 - |bits|)
  }

  /** What `process` does to its value for one byte, given the table. */
  function Update(poly: Word, value: Word, byte: Byte): Word {
    Xor(TableEntry(poly, ToNat(Xor(value, AsWord(byte))[..8])), ShiftRight(value, 8))
  }

  lemma StepLinear(poly: Word, a: Word, b: Word)
    ensures Step(poly, Xor(a, b)) == Xor(Step(poly, a), Step(poly, b))
  {
  }

  lemma {:induction false} StepsLinear(poly: Word, a: Word, b: Word, n: nat)
    ensures Steps(poly, Xor(a, b), n) == Xor(Steps(poly, a, n), Steps(poly, b, n))
    decreases n
  {
    if n > 0 {
      StepLinear(poly, a, b);
      StepsLinear(poly, Step(poly, a), Step(poly, b), n - 1);
    }
  }

  /** A word whose low n bits are clear is only shifted. */
  lemma {:induction false} StepsShift(poly: Word, c: Word, n: nat)
    requires n <= 64 && forall i :: 0 <= i < n ==> !c[i]
    ensures Steps(poly, c, n) == ShiftRight(c, n)
    decreases n
  {
    if n > 0 {
      var d := ShiftRight(c, 1);
      assert Step(poly, c) == d;
      StepsShift(poly, d, n - 1);
      assert ShiftRight(d, n - 1) == ShiftRight(c, n);
    }
  }

  /** Eight steps at once: the table takes the low byte, the rest is shifted. */
  lemma EightSteps(poly: Word, v: Word)
    ensures Steps(poly, v, 8) == Xor(TableEntry(poly, ToNat(v[..8])), ShiftRight(v, 8))
  {
    hide Steps;
    var low, high: Word := AsWord(v[..8]), Zeros(8) + v[8..];
    assert v == Xor(low, high);
    StepsLinear(poly, low, high, 8);
    FromToNat(v[..8], 64);
    StepsShift(poly, high, 8);
    assert ShiftRight(high, 8) == ShiftRight(v, 8);
  }

  /** One message bit into the reflected register. */
  function StepBit(poly: Word, v: Word, bit: bool): Word {
    Step(poly, v[0 := v[0] != bit])
  }

  function Feed(poly: Word, v: Word, bits: seq<bool>): Word
    decreases |bits|
  {
    if |bits| == 0 then v else Feed(poly, StepBit(poly, v, bits[0]), bits[1..])
  }

  /** Up to 64 message bits may be added to the register in one go. */
  lemma {:induction false} FeedTogether(poly: Word, v: Word, bits: seq<bool>)
    requires |bits| <= 64
    ensures Steps(poly, Xor(v, AsWord(bits)), |bits|) == Feed(poly, v, bits)
    decreases |bits|
  {
    if |bits| == 0 {
      assert Xor(v, AsWord(bits)) == v;
    } else {
      assert Step(poly, Xor(v, AsWord(bits))) == Xor(StepBit(poly, v, bits[0]), AsWord(bits[1..]));
      FeedTogether(poly, StepBit(poly, v, bits[0]), bits[1..]);
    }
  }

  lemma UpdateFeeds(poly: Word, v: Word, byte: Byte)
    ensures Update(poly, v, byte) == Feed(poly, v, byte)
  {
    hide Steps, Feed;
    FeedTogether(poly, v, byte);
    var w := Xor(v, AsWord(byte));
    EightSteps(poly, w);
    assert ShiftRight(w, 8) == ShiftRight(v, 8);
  }

  /** The simulation: the word holds the register, highest power in bit 0. */
  lemma {:induction false} FeedDivides(poly: seq<bool>, r: seq<bool>, bits: seq<bool>)
    requires |r| == |poly| && 0 < |poly| <= 64
    ensures Feed(AsWord(poly), AsWord(r), bits) == AsWord(Register(poly, r, bits))
    decreases |bits|
  {
    if |bits| > 0 {
      SimulateBit(poly, r, bits[0]);
      FeedDivides(poly, Divide1(poly, r, bits[0]), bits[1..]);
    }
  }

  lemma SimulateBit(poly: seq<bool>, r: seq<bool>, bit: bool)
    requires |r| == |poly| && 0 < |poly| <= 64
    ensures StepBit(AsWord(poly), AsWord(r), bit) == AsWord(Divide1(poly, r, bit))
  {
  }

  /** Whole bytes: `process` in terms of the message bits. */
  function Process(poly: Word, value: Word, bytes: seq<Byte>, reflectInput: bool): Word
    decreases |bytes|
  {
    if |bytes| == 0 then value
    else Process(poly, Update(poly, value, InOrder(bytes[0], reflectInput)), bytes[1..], reflectInput)
  }

  lemma {:induction false} FeedConcat(poly: Word, v: Word, s: seq<bool>, t: seq<bool>)
    ensures Feed(poly, v, s + t) == Feed(poly, Feed(poly, v, s), t)
    decreases |s|
  {
    if |s| == 0 {
      assert s + t == t;
    } else {
      assert (s + t)[1..] == s[1..] + t;
      FeedConcat(poly, StepBit(poly, v, s[0]), s[1..], t);
    }
  }

  lemma {:induction false} ProcessFeeds(poly: Word, v: Word, bytes: seq<Byte>, reflectInput: bool)
    ensures Process(poly, v, bytes, reflectInput) == Feed(poly, v, MessageBits(bytes, reflectInput))
    decreases |bytes|
  {
    if |bytes| > 0 {
      var byte: Byte := InOrder(bytes[0], reflectInput);
      UpdateFeeds(poly, v, byte);
      FeedConcat(poly, v, byte, MessageBits(bytes[1..], reflectInput));
      ProcessFeeds(poly, Update(poly, v, byte), bytes[1..], reflectInput);
    }
  }

  lemma {:induction false} ProcessConcat(poly: Word, v: Word, s: seq<Byte>, t: seq<Byte>, reflectInput: bool)
    ensures Process(poly, v, s + t, reflectInput) == Process(poly, Process(poly, v, s, reflectInput), t, reflectInput)
    decreases |s|
  {
    if |s| == 0 {
      assert s + t == t;
    } else {
      assert (s + t)[1..] == s[1..] + t;
      ProcessConcat(poly, Update(poly, v, InOrder(s[0], reflectInput)), s[1..], t, reflectInput);
    }
  }

  /** The engine's result for a register word. */
  function Output(p: Parameters, value: Word): Word
    requires p.Valid()
  {
    Xor(if p.reflectOutput then value else Reflected(value, p.bits), And(p.xorOut, LowMask(p.bits)))
  }

  /** The table engine computes the bit-at-a-time polynomial division. */
  lemma EngineIsDivision(p: Parameters, bytes: seq<Byte>)
    requires p.Valid()
    ensures Output(p, Process(Reflected(p.polynomial, p.bits), Reflected(p.init, p.bits), bytes, p.reflectInput))
         == Checksum(p, bytes)
  {
    hide Process, Feed, Register;
    var message := MessageBits(bytes, p.reflectInput);
    var poly, init := p.Coefficients(p.polynomial), p.Coefficients(p.init);
    assert Reflected(p.polynomial, p.bits) == AsWord(poly) && Reflected(p.init, p.bits) == AsWord(init);
    ProcessFeeds(AsWord(poly), AsWord(init), bytes, p.reflectInput);
    FeedDivides(poly, init, message);
    OutputOfRegister(p, Register(poly, init, message));
  }

  lemma OutputOfRegister(p: Parameters, r: seq<bool>)
    requires p.Valid() && |r| == p.bits
    ensures Output(p, AsWord(r)) == FinalWord(p, r)
  {
    hide LowMask, And, Xor, Backwards, Zeros;
    var n, low := 64 - p.bits, p.xorOut[..p.bits];
    MaskedWord(p.xorOut, p.bits);
    assert AsWord(r)[..p.bits] == r;
    if p.reflectOutput {
      XorPadded(r, low, n);
      XorBackwards(Backwards(r), Backwards(low));
      BackwardsTwice(r);
    } else {
      XorPadded(Backwards(r), low, n);
      XorBackwards(r, Backwards(low));
    }
    BackwardsTwice(low);
  }

  lemma MaskedWord(w: Word, bits: nat)
    requires bits <= 64
    ensures And(w, LowMask(bits)) == w[..bits] + Zeros(64 - bits)
  {
  }

  lemma XorPadded(a: seq<bool>, b: seq<bool>, n: nat)
    requires |a| == |b|
    ensures Xor(a + Zeros(n), b + Zeros(n)) == Xor(a, b) + Zeros(n)
  {
  }

  lemma XorBackwards(a: seq<bool>, b: seq<bool>)
    requires |a| == |b|
    ensures Backwards(Xor(a, b)) == Xor(Backwards(a), Backwards(b))
  {
  }

  lemma BackwardsTwice(s: seq<bool>)
    ensures Backwards(Backwards(s)) == s
  {
  }

  /** `reflect` on a word, a bit per round. */
  method Reflect(input: Word, bits: nat) returns (output: Word)
    requires bits <= 64
    ensures output == Reflected(input, bits)
  {
    hide Reflected, HalfReflected, ShiftLeft, ShiftRight;
    NothingReflected(input);
    output := Zeros(64);
    var rest: Word := input;
    for i := 0 to bits
      invariant HalfReflected(input, i, output, rest)
    {
      MoveBit(input, i, output, rest);
      output := ShiftLeft(output, 1);
      if rest[0] {
        output := output[0 := true];
      }
      rest := ShiftRight(rest, 1);
    }
    AllReflected(input, bits, output, rest);
  }

  /** After `i` rounds: the low i bits moved over, reversed; the rest shifted down. */
  ghost predicate HalfReflected(input: Word, i: nat, output: Word, rest: Word) {
    && (forall k :: 0 <= k < 64 ==> rest[k] == (k + i < 64 && input[k + i]))
    && (forall k :: 0 <= k < 64 ==> output[k] == (k < i && i - 1 - k < 64 && input[i - 1 - k]))
  }

  lemma NothingReflected(input: Word)
    ensures HalfReflected(input, 0, Zeros(64), input)
  {
  }

  lemma MoveBit(input: Word, i: nat, output: Word, rest: Word)
    requires i < 64 && HalfReflected(input, i, output, rest)
    ensures HalfReflected(input, i + 1, if rest[0] then ShiftLeft(output, 1)[0 := true] else ShiftLeft(output, 1), ShiftRight(rest, 1))
  {
    assert rest[0] == input[i];
  }

  lemma AllReflected(input: Word, bits: nat, output: Word, rest: Word)
    requires bits <= 64 && HalfReflected(input, bits, output, rest)
    ensures output == Reflected(input, bits)
  {
  }

  /** One exchange within a byte: the bits under each mask move by `n`. */
  function Exchange(byte: Byte, n: nat, high: Byte, low: Byte): Byte
    requires n <= 8
  {
    Or(ShiftRight(And(byte, high), n), ShiftLeft(And(byte, low), n))
  }

  lemma ExchangeAt(s: Byte, n: nat, high: Byte, low: Byte, i: nat)
    requires n <= 8 && i < 8
    ensures Exchange(s, n, high, low)[i] == ((i + n < 8 && s[i + n] && high[i + n]) || (i >= n && s[i - n] && low[i - n]))
  {
  }

  /** `reflect` on a byte: exchange halves, pairs and neighbours. */
  method ReflectByte(input: Byte) returns (output: Byte)
    ensures output == Backwards(input)
  {
    hide Exchange, FromNat;
    output := input;
    ExchangeHalves(output);
    output := Exchange(output, 4, FromNat(0xF0, 8), FromNat(0x0F, 8));
    ExchangePairs(output);
    output := Exchange(output, 2, FromNat(0xCC, 8), FromNat(0x33, 8));
    ExchangeNeighbours(output);
    output := Exchange(output, 1, FromNat(0xAA, 8), FromNat(0x55, 8));
    BackwardsByExchanges(input);
  }

  function SwapHalves(s: Byte): Byte {
    [s[4], s[5], s[6], s[7], s[0], s[1], s[2], s[3]]
  }

  function SwapPairs(s: Byte): Byte {
    [s[2], s[3], s[0], s[1], s[6], s[7], s[4], s[5]]
  }

  function SwapNeighbours(s: Byte): Byte {
    [s[1], s[0], s[3], s[2], s[5], s[4], s[7], s[6]]
  }

  lemma BackwardsByExchanges(s: Byte)
    ensures SwapNeighbours(SwapPairs(SwapHalves(s))) == Backwards(s)
  {
  }

  lemma MaskF0()
    ensures FromNat(0xF0, 8) == [false, false, false, false, true, true, true, true]
  {
  }

  lemma Mask0F()
    ensures FromNat(0x0F, 8) == [true, true, true, true, false, false, false, false]
  {
  }

  lemma MaskCC()
    ensures FromNat(0xCC, 8) == [false, false, true, true, false, false, true, true]
  {
  }

  lemma Mask33()
    ensures FromNat(0x33, 8) == [true, true, false, false, true, true, false, false]
  {
  }

  lemma MaskAA()
    ensures FromNat(0xAA, 8) == [false, true, false, true, false, true, false, true]
  {
  }

  lemma Mask55()
    ensures FromNat(0x55, 8) == [true, false, true, false, true, false, true, false]
  {
  }

  lemma ExchangeHalves(s: Byte)
    ensures Exchange(s, 4, FromNat(0xF0, 8), FromNat(0x0F, 8)) == SwapHalves(s)
  {
    hide FromNat, Exchange;
    MaskF0();
    Mask0F();
    forall i: nat | i < 8 ensures Exchange(s, 4, FromNat(0xF0, 8), FromNat(0x0F, 8))[i] == SwapHalves(s)[i] {
      ExchangeAt(s, 4, FromNat(0xF0, 8), FromNat(0x0F, 8), i);
    }
  }

  lemma ExchangePairs(s: Byte)
    ensures Exchange(s, 2, FromNat(0xCC, 8), FromNat(0x33, 8)) == SwapPairs(s)
  {
    hide FromNat, Exchange;
    MaskCC();
    Mask33();
    forall i: nat | i < 8 ensures Exchange(s, 2, FromNat(0xCC, 8), FromNat(0x33, 8))[i] == SwapPairs(s)[i] {
      ExchangeAt(s, 2, FromNat(0xCC, 8), FromNat(0x33, 8), i);
    }
  }

  lemma ExchangeNeighbours(s: Byte)
    ensures Exchange(s, 1, FromNat(0xAA, 8), FromNat(0x55, 8)) == SwapNeighbours(s)
  {
    hide FromNat, Exchange;
    MaskAA();
    Mask55();
    forall i: nat | i < 8 ensures Exchange(s, 1, FromNat(0xAA, 8), FromNat(0x55, 8))[i] == SwapNeighbours(s)[i] {
      ExchangeAt(s, 1, FromNat(0xAA, 8), FromNat(0x55, 8), i);
    }
  }

  /** The table of the constructor: eight steps for each byte value. */
  method BuildTable(poly: Word) returns (table: seq<Word>)
    ensures |table| == 256 && forall i :: 0 <= i < 256 ==> table[i] == TableEntry(poly, i)
  {
    table := [];
    for i := 0 to 256
      invariant |table| == i && forall k :: 0 <= k < i ==> table[k] == TableEntry(poly, k)
    {
      var c := EntryOf(poly, i);
      table := table + [c];
    }
  }

  method EntryOf(poly: Word, i: nat) returns (c: Word)
    ensures c == TableEntry(poly, i)
  {
    hide FromNat, Xor;
    c := FromNat(i, 64);
    for j := 0 to 8
      invariant Steps(poly, c, 8 - j) == TableEntry(poly, i)
    {
      c := if c[0] then Xor(poly, ShiftRight(c, 1)) else ShiftRight(c, 1);
    }
  }

  class Crc {
    const p: Parameters
    const table: seq<Word>
    var value: Word
    ghost var message: seq<Byte>

    /** The value is the register after the bytes processed since the last reset. */
    ghost predicate Valid()
      reads this
    {
      && p.Valid()
      && |table| == 256
      && (forall i :: 0 <= i < 256 ==> table[i] == TableEntry(Reflected(p.polynomial, p.bits), i))
      && value == Process(Reflected(p.polynomial, p.bits), Reflected(p.init, p.bits), message, p.reflectInput)
    }

    constructor (p: Parameters)
      requires p.Valid()
      ensures Valid() && this.p == p && message == []
    {
      var poly := Reflect(And(p.polynomial, LowMask(p.bits)), p.bits);
      assert poly == Reflected(p.polynomial, p.bits);
      hide TableEntry;
      var entries := BuildTable(poly);
      this.p, table := p, entries;
      message := [];
      var init := Reflect(And(p.init, LowMask(p.bits)), p.bits);
      assert init == Reflected(p.init, p.bits);
      value := init;
    }

    method Reset()
      requires Valid()
      modifies this
      ensures Valid() && message == []
    {
      var init := Reflect(And(p.init, LowMask(p.bits)), p.bits);
      assert init == Reflected(p.init, p.bits);
      value, message := init, [];
    }

    method ProcessBytes(bytes: seq<Byte>)
      requires Valid()
      modifies this
      ensures Valid() && message == old(message) + bytes
    {
      hide Process, TableEntry, Reflected;
      ghost var start, poly := message, Reflected(p.polynomial, p.bits);
      ghost var v0 := Reflected(p.init, p.bits);
      assert start + bytes[..0] == start;
      for i := 0 to |bytes|
        invariant message == start + bytes[..i]
        invariant value == Process(poly, v0, message, p.reflectInput)
      {
        var byte := bytes[i];
        if !p.reflectInput {
          byte := ReflectByte(byte);
        }
        var index := Xor(value, AsWord(byte))[..8];
        ToNatBound(index);
        PowEight();
        ProcessOne(poly, v0, message, bytes[i], p.reflectInput);
        value := Xor(table[ToNat(index)], ShiftRight(value, 8));
        assert start + bytes[..i + 1] == start + bytes[..i] + [bytes[i]];
        message := message + [bytes[i]];
      }
      assert bytes[..|bytes|] == bytes;
    }

    /** The CRC of everything processed since the last reset. */
    method GetResult() returns (r: Word)
      requires Valid()
      ensures r == Checksum(p, message)
    {
      EngineIsDivision(p, message);
      hide Checksum, Process;
      if p.reflectOutput {
        r := Xor(value, And(p.xorOut, LowMask(p.bits)));
      } else {
        var reflected := Reflect(value, p.bits);
        r := Xor(reflected, And(p.xorOut, LowMask(p.bits)));
      }
    }
  }

  lemma PowEight()
    ensures Pow(2, 8) == 256
  {
  }

  lemma ProcessOne(poly: Word, v: Word, bytes: seq<Byte>, byte: Byte, reflectInput: bool)
    ensures Process(poly, v, bytes + [byte], reflectInput)
         == Update(poly, Process(poly, v, bytes, reflectInput), InOrder(byte, reflectInput))
  {
    hide Update;
    ProcessConcat(poly, v, bytes, [byte], reflectInput);
    var w := Process(poly, v, bytes, reflectInput);
    assert [byte][1..] == [];
    assert Process(poly, w, [byte], reflectInput) == Update(poly, w, InOrder(byte, reflectInput));
  }

  // Error detection.

  /** With the constant term set, distinct registers or distinct bits lead to
      distinct registers. */
  lemma DivideInjective(poly: seq<bool>, r: seq<bool>, s: seq<bool>, a: bool, b: bool)
    requires |r| == |s| == |poly| > 0 && poly[|poly| - 1]
    requires Divide1(poly, r, a) == Divide1(poly, s, b)
    ensures r[1..] == s[1..] && (r[0] != a) == (s[0] != b)
  {
    var n := |poly|;
    var x, y := Divide1(poly, r, a), Divide1(poly, s, b);
    assert x[n - 1] == (r[0] != a) && y[n - 1] == (s[0] != b);
    assert forall i :: 0 <= i < n - 1 ==> x[i] == (r[i + 1] != (x[n - 1] && poly[i]));
    assert forall i :: 0 <= i < n - 1 ==> y[i] == (s[i + 1] != (x[n - 1] && poly[i]));
    assert forall i :: 1 <= i < n ==> r[i] == s[i] by {
      forall i | 1 <= i < n ensures r[i] == s[i] {
        assert x[i - 1] == y[i - 1];
      }
    }
  }

  /** Distinct registers stay distinct under equal message bits. */
  lemma {:induction false} RegisterInjective(poly: seq<bool>, r: seq<bool>, s: seq<bool>, message: seq<bool>)
    requires |r| == |s| == |poly| > 0 && poly[|poly| - 1] && r != s
    ensures Register(poly, r, message) != Register(poly, s, message)
    decreases |message|
  {
    if |message| > 0 {
      hide Divide1;
      DivideDiffers(poly, r, s, message[0]);
      RegisterInjective(poly, Divide1(poly, r, message[0]), Divide1(poly, s, message[0]), message[1..]);
    }
  }

  lemma DivideDiffers(poly: seq<bool>, r: seq<bool>, s: seq<bool>, bit: bool)
    requires |r| == |s| == |poly| > 0 && poly[|poly| - 1] && r != s
    ensures Divide1(poly, r, bit) != Divide1(poly, s, bit)
  {
    hide Divide1;
    assert r == [r[0]] + r[1..] && s == [s[0]] + s[1..];
    if Divide1(poly, r, bit) == Divide1(poly, s, bit) {
      DivideInjective(poly, r, s, bit, bit);
    }
  }

  /** Feeding `a` to `r` and `b` to `s`, at most N bits, ends in one register
      only if both started N - |a| bits apart: equal beyond the first |a| bits,
      and equal in the rest when the message bits are added in. */
  lemma {:induction false} BurstSeen(poly: seq<bool>, r: seq<bool>, s: seq<bool>, a: seq<bool>, b: seq<bool>)
    requires |r| == |s| == |poly| > 0 && poly[|poly| - 1] && |a| == |b| <= |poly|
    requires Register(poly, r, a) == Register(poly, s, b)
    ensures forall i :: 0 <= i < |poly| ==> (r[i] != (i < |a| && a[i])) == (s[i] != (i < |b| && b[i]))
    decreases |a|
  {
    if |a| > 0 {
      var n := |poly|;
      var r', s' := Divide1(poly, r, a[0]), Divide1(poly, s, b[0]);
      BurstSeen(poly, r', s', a[1..], b[1..]);
      LastBitEqual(poly, r, s, a, b, r', s');
    }
  }

  /** The step behind `BurstSeen`: one bit earlier. */
  lemma LastBitEqual(poly: seq<bool>, r: seq<bool>, s: seq<bool>, a: seq<bool>, b: seq<bool>, r': seq<bool>, s': seq<bool>)
    requires |r| == |s| == |poly| > 0 && poly[|poly| - 1] && 0 < |a| == |b| <= |poly|
    requires r' == Divide1(poly, r, a[0]) && s' == Divide1(poly, s, b[0])
    requires forall i :: 0 <= i < |poly| ==> (r'[i] != (i < |a| - 1 && a[1..][i])) == (s'[i] != (i < |b| - 1 && b[1..][i]))
    ensures forall i :: 0 <= i < |poly| ==> (r[i] != (i < |a| && a[i])) == (s[i] != (i < |b| && b[i]))
  {
    var n := |poly|;
    var x, y := r[0] != a[0], s[0] != b[0];
    assert r'[n - 1] == x && s'[n - 1] == y;
    assert x == y;
    forall i | 1 <= i < n ensures (r[i] != (i < |a| && a[i])) == (s[i] != (i < |b| && b[i])) {
      assert r'[i - 1] == (r[i] != (x && poly[i - 1])) && s'[i - 1] == (s[i] != (x && poly[i - 1]));
      assert i < |a| ==> a[1..][i - 1] == a[i] && b[1..][i - 1] == b[i];
    }
  }

  lemma {:induction false} RegisterConcat(poly: seq<bool>, r: seq<bool>, s: seq<bool>, t: seq<bool>)
    requires |r| == |poly| > 0
    ensures Register(poly, r, s + t) == Register(poly, Register(poly, r, s), t)
    decreases |s|
  {
    if |s| == 0 {
      assert s + t == t;
    } else {
      assert (s + t)[1..] == s[1..] + t;
      RegisterConcat(poly, Divide1(poly, r, s[0]), s[1..], t);
    }
  }

  /** A burst error of at most N bits always changes the register. */
  lemma BurstDetected(poly: seq<bool>, r: seq<bool>, head: seq<bool>, a: seq<bool>, b: seq<bool>, tail: seq<bool>)
    requires |r| == |poly| > 0 && poly[|poly| - 1] && |a| == |b| <= |poly| && a != b
    ensures Register(poly, r, head + a + tail) != Register(poly, r, head + b + tail)
  {
    hide Register;
    var start := Register(poly, r, head);
    RegisterConcat(poly, r, head + a, tail);
    RegisterConcat(poly, r, head, a);
    RegisterConcat(poly, r, head + b, tail);
    RegisterConcat(poly, r, head, b);
    BurstDiffers(poly, start, a, b);
    RegisterInjective(poly, Register(poly, start, a), Register(poly, start, b), tail);
  }

  lemma BurstDiffers(poly: seq<bool>, r: seq<bool>, a: seq<bool>, b: seq<bool>)
    requires |r| == |poly| > 0 && poly[|poly| - 1] && |a| == |b| <= |poly| && a != b
    ensures Register(poly, r, a) != Register(poly, r, b)
  {
    hide Register;
    if Register(poly, r, a) == Register(poly, r, b) {
      BurstSeen(poly, r, r, a, b);
      assert false;
    }
  }

  lemma {:induction false} MessageBitsConcat(s: seq<Byte>, t: seq<Byte>, reflectInput: bool)
    ensures MessageBits(s + t, reflectInput) == MessageBits(s, reflectInput) + MessageBits(t, reflectInput)
  {
    if |s| == 0 {
      assert s + t == t;
    } else {
      assert (s + t)[1..] == s[1..] + t;
      MessageBitsConcat(s[1..], t, reflectInput);
    }
  }

  lemma {:induction false} MessageBitsInjective(s: seq<Byte>, t: seq<Byte>, reflectInput: bool)
    requires |s| == |t| && s != t
    ensures |MessageBits(s, reflectInput)| == |MessageBits(t, reflectInput)| == 8 * |s|
    ensures MessageBits(s, reflectInput) != MessageBits(t, reflectInput)
  {
    MessageBitsLength(s, reflectInput);
    MessageBitsLength(t, reflectInput);
    MessageBitsLength(s[1..], reflectInput);
    MessageBitsLength(t[1..], reflectInput);
    var a, b := InOrder(s[0], reflectInput), InOrder(t[0], reflectInput);
    var u, v := MessageBits(s[1..], reflectInput), MessageBits(t[1..], reflectInput);
    assert MessageBits(s, reflectInput) == a + u && MessageBits(t, reflectInput) == b + v;
    hide MessageBits;
    if a + u == b + v {
      ConcatInjective(a, u, b, v);
      InOrderInjective(s[0], t[0], reflectInput);
      HeadTail(s, t);
      MessageBitsInjective(s[1..], t[1..], reflectInput);
    }
  }

  lemma ConcatInjective(a: seq<bool>, u: seq<bool>, b: seq<bool>, v: seq<bool>)
    requires |a| == |b| && a + u == b + v
    ensures a == b && u == v
  {
    assert a == (a + u)[..|a|] && b == (b + v)[..|a|];
    assert u == (a + u)[|a|..] && v == (b + v)[|a|..];
  }

  lemma InOrderInjective(a: Byte, b: Byte, reflectInput: bool)
    requires InOrder(a, reflectInput) == InOrder(b, reflectInput)
    ensures a == b
  {
    assert Backwards(Backwards(a)) == a && Backwards(Backwards(b)) == b;
  }

  lemma HeadTail(s: seq<Byte>, t: seq<Byte>)
    requires |s| == |t| > 0 && s != t && s[0] == t[0]
    ensures s[1..] != t[1..]
  {
    assert s == [s[0]] + s[1..] && t == [t[0]] + t[1..];
  }

  lemma {:induction false} MessageBitsLength(s: seq<Byte>, reflectInput: bool)
    ensures |MessageBits(s, reflectInput)| == 8 * |s|
  {
    if |s| > 0 {
      MessageBitsLength(s[1..], reflectInput);
    }
  }

  lemma FinalWordAt(p: Parameters, r: seq<bool>, i: nat)
    requires p.Valid() && |r| == p.bits && i < p.bits
    ensures var k := if p.reflectOutput then i else p.bits - 1 - i;
      FinalWord(p, r)[k] == (r[i] != p.Coefficients(p.xorOut)[p.bits - 1 - k])
  {
    var k := if p.reflectOutput then i else p.bits - 1 - i;
    var y, x := if p.reflectOutput then Backwards(r) else r, p.Coefficients(p.xorOut);
    assert FinalWord(p, r) == Backwards(Xor(y, x)) + Zeros(64 - p.bits);
    hide *;
    assert y[p.bits - 1 - k] == r[i];
    assert Backwards(Xor(y, x))[k] == Xor(y, x)[p.bits - 1 - k];
  }

  // Which bits go where.

  /** Bit 8 k + i of the message is bit i of byte k, or bit 7 - i unless the input is reflected. */
  lemma {:induction false} MessageBitAt(bytes: seq<Byte>, reflectInput: bool, k: nat, i: nat)
    requires k < |bytes| && i < 8
    ensures |MessageBits(bytes, reflectInput)| == 8 * |bytes|
    ensures MessageBits(bytes, reflectInput)[8 * k + i] == bytes[k][if reflectInput then i else 7 - i]
    decreases |bytes|
  {
    hide Backwards, InOrder;
    MessageBitsLength(bytes, reflectInput);
    InOrderAt(bytes[0], reflectInput, i);
    if k > 0 {
      MessageBitAt(bytes[1..], reflectInput, k - 1, i);
      ConcatAt(InOrder(bytes[0], reflectInput), MessageBits(bytes[1..], reflectInput), 8 * (k - 1) + i);
    }
  }

  lemma InOrderAt(byte: Byte, reflectInput: bool, i: nat)
    requires i < 8
    ensures InOrder(byte, reflectInput)[i] == byte[if reflectInput then i else 7 - i]
  {
  }

  lemma ConcatAt(s: seq<bool>, t: seq<bool>, i: nat)
    requires i < |t|
    ensures (s + t)[|s| + i] == t[i]
  {
  }

  function AllBackwards(bytes: seq<Byte>): (r: seq<Byte>)
    ensures |r| == |bytes|
  {
    seq(|bytes|, k requires 0 <= k < |bytes| => Backwards(bytes[k]))
  }

  lemma {:induction false} ReversedInput(bytes: seq<Byte>)
    ensures MessageBits(bytes, false) == MessageBits(AllBackwards(bytes), true)
  {
    if |bytes| > 0 {
      assert AllBackwards(bytes)[1..] == AllBackwards(bytes[1..]);
      ReversedInput(bytes[1..]);
    }
  }

  /** Unreflected input is reflected input with the bits of every byte reversed. */
  lemma UnreflectedChecksum(p: Parameters, bytes: seq<Byte>)
    requires p.Valid() && !p.reflectInput
    ensures Checksum(p, bytes) == Checksum(p.(reflectInput := true), AllBackwards(bytes))
  {
    ReversedInput(bytes);
    hide Register, MessageBits;
  }

  /** Bit i of the result is the register's coefficient of x^i, or of x^(N-1-i)
      when the output is reflected, changed by bit i of the xor-out. */
  lemma ChecksumBit(p: Parameters, bytes: seq<Byte>, i: nat)
    requires p.Valid() && i < 64
    ensures var r := Register(p.Coefficients(p.polynomial), p.Coefficients(p.init), MessageBits(bytes, p.reflectInput));
      Checksum(p, bytes)[i] == (i < p.bits && r[if p.reflectOutput then i else p.bits - 1 - i] != p.xorOut[i])
  {
    hide Register, MessageBits, FinalWord;
    var r := Register(p.Coefficients(p.polynomial), p.Coefficients(p.init), MessageBits(bytes, p.reflectInput));
    if i < p.bits {
      FinalWordAt(p, r, if p.reflectOutput then i else p.bits - 1 - i);
    } else {
      HighBitsClear(p, r, i);
    }
  }

  lemma HighBitsClear(p: Parameters, r: seq<bool>, i: nat)
    requires p.Valid() && |r| == p.bits <= i < 64
    ensures !FinalWord(p, r)[i]
  {
    hide Xor, Backwards;
  }

  lemma FinalWordInjective(p: Parameters, r: seq<bool>, s: seq<bool>)
    requires p.Valid() && |r| == |s| == p.bits && r != s
    ensures FinalWord(p, r) != FinalWord(p, s)
  {
    hide FinalWord;
    var i :| 0 <= i < p.bits && r[i] != s[i];
    FinalWordAt(p, r, i);
    FinalWordAt(p, s, i);
  }

  /** Equal-length messages that differ only within N / 8 consecutive bytes,
      one byte for instance, have different CRCs when the polynomial's constant
      term is set. */
  lemma ByteBurstDetected(p: Parameters, head: seq<Byte>, a: seq<Byte>, b: seq<Byte>, tail: seq<Byte>)
    requires p.Valid() && p.polynomial[0] && |a| == |b| && 8 * |a| <= p.bits && a != b
    ensures Checksum(p, head + a + tail) != Checksum(p, head + b + tail)
  {
    hide Register, MessageBits, FinalWord;
    var poly, init := p.Coefficients(p.polynomial), p.Coefficients(p.init);
    var f := p.reflectInput;
    MessageBitsConcat(head + a, tail, f);
    MessageBitsConcat(head, a, f);
    MessageBitsConcat(head + b, tail, f);
    MessageBitsConcat(head, b, f);
    MessageBitsInjective(a, b, f);
    BurstDetected(poly, init, MessageBits(head, f), MessageBits(a, f), MessageBits(b, f), MessageBits(tail, f));
    FinalWordInjective(p, Register(poly, init, MessageBits(head + a + tail, f)), Register(poly, init, MessageBits(head + b + tail, f)));
  }

  // CRC-32, the instance of section 8 of RFC 1952.

  const Crc32: Parameters :=
    Parameters(32, FromNat(0x04C11DB7, 64), LowMask(32), LowMask(32), true, true)

  // The RFC's sample code, with tables and loops of its own.

  /** The inner loop of its `make_crc_table`. */
  function RfcShifts(c: Word, k: nat): Word {
    if k == 0 then c
    else
      var previous := RfcShifts(c, k - 1);
      if previous[0] then Xor(FromNat(0xEDB88320, 64), ShiftRight(previous, 1)) else ShiftRight(previous, 1)
  }

  function RfcTable(n: nat): Word {
    RfcShifts(FromNat(n, 64), 8)
  }

  /** The loop of its `update_crc`, after all bytes of the buffer. */
  function RfcUpdate(c: Word, buffer: seq<Byte>): Word {
    if |buffer| == 0 then c
    else
      var n := |buffer| - 1;
      var previous := RfcUpdate(c, buffer[..n]);
      Xor(RfcTable(ToNat(Xor(previous, AsWord(buffer[n]))[..8])), ShiftRight(previous, 8))
  }

  /** Register all ones, the buffer, inverted at the end. */
  function Rfc1952Crc(bytes: seq<Byte>): Word {
    Xor(RfcUpdate(LowMask(32), bytes), LowMask(32))
  }

  lemma {:induction false} RfcShiftsAreSteps(c: Word, k: nat)
    ensures RfcShifts(c, k) == Steps(FromNat(0xEDB88320, 64), c, k)
  {
    hide FromNat;
    if k > 0 {
      RfcShiftsAreSteps(c, k - 1);
      StepLast(FromNat(0xEDB88320, 64), c, k - 1);
    }
  }

  lemma {:induction false} StepLast(poly: Word, c: Word, n: nat)
    ensures Steps(poly, c, n + 1) == Step(poly, Steps(poly, c, n))
    decreases n
  {
    if n > 0 {
      StepLast(poly, Step(poly, c), n - 1);
    }
  }

  /** The RFC's loop is the engine's. */
  lemma {:induction false} RfcUpdateIsProcess(c: Word, buffer: seq<Byte>)
    ensures RfcUpdate(c, buffer) == Process(FromNat(0xEDB88320, 64), c, buffer, true)
    decreases |buffer|
  {
    hide FromNat, RfcShifts, Steps, Process;
    if |buffer| == 0 {
      ProcessNothing(FromNat(0xEDB88320, 64), c);
    } else {
      var n, poly := |buffer| - 1, FromNat(0xEDB88320, 64);
      RfcUpdateIsProcess(c, buffer[..n]);
      assert buffer == buffer[..n] + [buffer[n]];
      ProcessConcat(poly, c, buffer[..n], [buffer[n]], true);
      ProcessSingle(poly, RfcUpdate(c, buffer[..n]), buffer[n]);
      RfcShiftsAreSteps(FromNat(ToNat(Xor(RfcUpdate(c, buffer[..n]), AsWord(buffer[n]))[..8]), 64), 8);
    }
  }

  lemma ProcessNothing(poly: Word, v: Word)
    ensures Process(poly, v, [], true) == v
  {
  }

  lemma ProcessSingle(poly: Word, v: Word, byte: Byte)
    ensures Process(poly, v, [byte], true) == Update(poly, v, byte)
  {
    assert [byte][1..] == [];
  }

  lemma LowByte(n: nat, rest: nat, b: nat, width: nat)
    requires n == rest * 256 + b && b < 256
    ensures FromNat(n, 8 + width) == FromNat(b, 8) + FromNat(rest, width)
  {
    PowEight();
    FromNatSplit(n, 8, width, 256);
    DivModUnique(n, 256, rest, b);
  }

  /** A number of four bytes as a word. */
  lemma FourBytes(b3: nat, b2: nat, b1: nat, b0: nat)
    requires b3 < 256 && b2 < 256 && b1 < 256 && b0 < 256
    ensures FromNat(((b3 * 256 + b2) * 256 + b1) * 256 + b0, 64)
         == FromNat(b0, 8) + (FromNat(b1, 8) + (FromNat(b2, 8) + (FromNat(b3, 8) + Zeros(32))))
  {
    hide FromNat;
    var n2 := b3 * 256 + b2;
    var n1 := n2 * 256 + b1;
    LowByte(n1 * 256 + b0, n1, b0, 56);
    LowByte(n1, n2, b1, 48);
    LowByte(n2, b3, b2, 40);
    LowByte(b3, 0, b3, 32);
    NoBits(32);
  }

  lemma {:induction false} NoBits(width: nat)
    ensures FromNat(0, width) == Zeros(width)
  {
    if width > 0 {
      NoBits(width - 1);
    }
  }

  lemma Reversed04()
    ensures FromNat(0x20, 8) == Backwards(FromNat(0x04, 8))
  {
    ByteBits04();
    ByteBits20();
    hide FromNat;
  }

  lemma ReversedC1()
    ensures FromNat(0x83, 8) == Backwards(FromNat(0xC1, 8))
  {
    ByteBitsC1();
    ByteBits83();
    hide FromNat;
  }

  lemma Reversed1D()
    ensures FromNat(0xB8, 8) == Backwards(FromNat(0x1D, 8))
  {
    ByteBits1D();
    ByteBitsB8();
    hide FromNat;
  }

  lemma ReversedB7()
    ensures FromNat(0xED, 8) == Backwards(FromNat(0xB7, 8))
  {
    ByteBitsB7();
    ByteBitsED();
    hide FromNat;
  }

  lemma ByteBits04()
    ensures FromNat(0x04, 8) == [false, false, true, false, false, false, false, false]
  {
  }

  lemma ByteBits20()
    ensures FromNat(0x20, 8) == [false, false, false, false, false, true, false, false]
  {
  }

  lemma ByteBitsC1()
    ensures FromNat(0xC1, 8) == [true, false, false, false, false, false, true, true]
  {
  }

  lemma ByteBits83()
    ensures FromNat(0x83, 8) == [true, true, false, false, false, false, false, true]
  {
  }

  lemma ByteBits1D()
    ensures FromNat(0x1D, 8) == [true, false, true, true, true, false, false, false]
  {
  }

  lemma ByteBitsB8()
    ensures FromNat(0xB8, 8) == [false, false, false, true, true, true, false, true]
  {
  }

  lemma ByteBitsB7()
    ensures FromNat(0xB7, 8) == [true, true, true, false, true, true, false, true]
  {
  }

  lemma ByteBitsED()
    ensures FromNat(0xED, 8) == [true, false, true, true, false, true, true, true]
  {
  }

  lemma ReflectedBytes(a: Byte, b: Byte, c: Byte, d: Byte)
    ensures Reflected(a + (b + (c + (d + Zeros(32)))), 32)
         == Backwards(d) + (Backwards(c) + (Backwards(b) + (Backwards(a) + Zeros(32))))
  {
    var w := a + (b + (c + (d + Zeros(32))));
    assert w[..32] == a + b + c + d;
    assert Backwards(a + b + c + d) == Backwards(d) + Backwards(c) + Backwards(b) + Backwards(a);
  }

  /** 0xEDB88320 is the reflected 0x04C11DB7. */
  lemma Crc32Polynomial()
    ensures Reflected(FromNat(0x04C11DB7, 64), 32) == FromNat(0xEDB88320, 64)
  {
    FourBytes(0x04, 0xC1, 0x1D, 0xB7);
    FourBytes(0xED, 0xB8, 0x83, 0x20);
    Reversed04();
    ReversedC1();
    Reversed1D();
    ReversedB7();
    ReflectedBytes(FromNat(0xB7, 8), FromNat(0x1D, 8), FromNat(0xC1, 8), FromNat(0x04, 8));
    hide *;
  }

  lemma Crc32Mask()
    ensures Reflected(LowMask(32), 32) == LowMask(32) == And(LowMask(32), LowMask(32))
  {
  }

  lemma Crc32IsRfc1952(bytes: seq<Byte>)
    ensures Checksum(Crc32, bytes) == Rfc1952Crc(bytes)
  {
    hide Checksum, Process, FromNat, LowMask, Reflected, RfcUpdate;
    EngineIsDivision(Crc32, bytes);
    RfcUpdateIsProcess(LowMask(32), bytes);
    Crc32Polynomial();
    Crc32Mask();
  }
}
