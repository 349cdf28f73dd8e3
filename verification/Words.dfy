/** 64-bit words as numbers, and the bitwise operations on them. */
module Words {
  import opened Powers
  import opened Bits

  const TwoTo63: int := 0x8000_0000_0000_0000
  const TwoTo64: int := 0x1_0000_0000_0000_0000

  type Word = x: nat | x < TwoTo64

  /** The two's complement reading of a word. */
  function Signed(w: Word): int {
    if w < TwoTo63 then w else w - TwoTo64
  }

  function ToWord(x: int): Word {
    x % TwoTo64
  }

  lemma WordPower()
    ensures Pow(2, 64) == TwoTo64 && Pow(2, 63) == TwoTo63 && Pow(2, 0) == 1
  {
    assert Pow(2, 8) == 256;
    PowAdd(2, 8, 8);
    PowAdd(2, 16, 16);
    PowAdd(2, 32, 32);
    NextPower(2, 63);
  }

  function BitAnd(x: Word, y: Word): Word {
    AndBound(x, y);
    And(x, y)
  }

  function BitOr(x: Word, y: Word): Word {
    WordPower();
    OrFits(64, x, y);
    Or(x, y)
  }

  function BitXor(x: Word, y: Word): Word {
    WordPower();
    OrFits(64, x, y);
    Xor(x, y)
  }

  function BitNot(x: Word): Word {
    TwoTo64 - 1 - x
  }

  function ShiftLeft(x: Word, n: nat): Word {
    x * Pow(2, n) % TwoTo64
  }

  /** The sign bit fills from above. */
  function ShiftRight(x: Word, n: nat): Word {
    ToWord(Signed(x) / Pow(2, n))
  }

  /** 64 minus the number of leading zeros. */
  function BitWidth(x: Word): (n: Word)
    ensures n <= 64
  {
    WordPower();
    if x > 0 then
      BitLengthBounds(x);
      LengthBelow(x, 64);
      BitLength(x)
    else 0
  }

  lemma LengthBelow(x: nat, n: nat)
    requires 0 < x < Pow(2, n)
    ensures BitLength(x) <= n
  {
    BitLengthBounds(x);
    if BitLength(x) > n {
      PowMonotone(2, n, BitLength(x) - 1);
    }
  }

  function Xor(x: nat, y: nat): int {
    x + y - 2 * And(x, y)
  }

  lemma AndSymmetric(x: nat, y: nat)
    ensures And(x, y) <= y
    decreases x
  {
    if x > 0 && y > 0 {
      AndSymmetric(x / 2, y / 2);
      assert (x % 2) * (y % 2) <= y % 2;
    }
  }

  /** One bit of the operations, and the bits above it. */
  lemma Halves(x: nat, y: nat)
    ensures And(x, y) % 2 == (if x % 2 == 1 && y % 2 == 1 then 1 else 0) && And(x, y) / 2 == And(x / 2, y / 2)
    ensures Or(x, y) >= 0 && Or(x, y) / 2 == Or(x / 2, y / 2)
    ensures Or(x, y) % 2 == if x % 2 == 1 || y % 2 == 1 then 1 else 0
    ensures Xor(x, y) >= 0 && Xor(x, y) / 2 == Xor(x / 2, y / 2)
    ensures Xor(x, y) % 2 == if x % 2 == y % 2 then 0 else 1
  {
    hide And, Or, Xor;
    var u, p, v, q := x / 2, x % 2, y / 2, y % 2;
    assert x == 2 * u + p && y == 2 * v + q;
    Doubled(u, p, v, q);
  }

  lemma Doubled(u: nat, p: nat, v: nat, q: nat)
    requires p <= 1 && q <= 1
    ensures var and, or, xor := And(2 * u + p, 2 * v + q), Or(2 * u + p, 2 * v + q), Xor(2 * u + p, 2 * v + q);
      && and % 2 == (if p == 1 && q == 1 then 1 else 0) && and / 2 == And(u, v)
      && or >= 0 && or / 2 == Or(u, v) && or % 2 == (if p == 1 || q == 1 then 1 else 0)
      && xor >= 0 && xor / 2 == Xor(u, v) && xor % 2 == if p == q then 0 else 1
  {
    hide And;
    AndBound(u, v);
    AndSymmetric(u, v);
    AndOfHalves(u, p, v, q);
    HalvesOf(u, p, v, q, And(u, v), And(2 * u + p, 2 * v + q), Or(2 * u + p, 2 * v + q), Xor(2 * u + p, 2 * v + q));
  }

  lemma AndOfHalves(u: nat, p: nat, v: nat, q: nat)
    requires p <= 1 && q <= 1
    ensures And(2 * u + p, 2 * v + q) == (if p == 1 && q == 1 then 1 else 0) + 2 * And(u, v)
  {
    hide And;
    AndHalves(u, p, v, q);
    BitProduct(p, q);
  }

  lemma HalvesOf(u: nat, p: nat, v: nat, q: nat, w: nat, and: int, or: int, xor: int)
    requires p <= 1 && q <= 1 && w <= u && w <= v && and == (if p == 1 && q == 1 then 1 else 0) + 2 * w
    requires or == 2 * u + p + (2 * v + q) - and && xor == 2 * u + p + (2 * v + q) - 2 * and
    ensures and % 2 == (if p == 1 && q == 1 then 1 else 0) && and / 2 == w
    ensures or >= 0 && or / 2 == u + v - w && or % 2 == (if p == 1 || q == 1 then 1 else 0)
    ensures xor >= 0 && xor / 2 == u + v - 2 * w && xor % 2 == if p == q then 0 else 1
  {
  }

  lemma BitProduct(p: nat, q: nat)
    requires p <= 1 && q <= 1
    ensures p * q == if p == 1 && q == 1 then 1 else 0
  {
  }

  lemma {:induction false} OrFits(n: nat, x: nat, y: nat)
    requires x < Pow(2, n) && y < Pow(2, n)
    ensures 0 <= Or(x, y) < Pow(2, n) && 0 <= Xor(x, y) <= Or(x, y)
  {
    hide And, Or, Xor, Pow;
    if n == 0 {
      SmallPowers(2);
      NoBits();
    } else {
      var p := Pow(2, n - 1);
      Halves(x, y);
      NextPower(2, n - 1);
      HalfBelow(x, p);
      HalfBelow(y, p);
      OrFits(n - 1, x / 2, y / 2);
      FromHalves(Or(x, y), Xor(x, y), p);
    }
  }

  lemma NoBits()
    ensures Or(0, 0) == 0 && Xor(0, 0) == 0
  {
  }

  lemma HalfBelow(x: nat, p: nat)
    requires x < p * 2
    ensures x / 2 < p
  {
  }

  lemma FromHalves(or: int, xor: int, p: nat)
    requires 0 <= or && 0 <= xor && or / 2 < p && xor / 2 <= or / 2 && xor % 2 <= or % 2
    ensures or < p * 2 && xor <= or
  {
  }

  lemma NextBit(x: nat, i: nat)
    requires i > 0
    ensures Bit(x, i) == Bit(x / 2, i - 1) && Bit(x, 0) == x % 2
  {
    NextPower(2, i - 1);
    DivideTwice(x, 2, Pow(2, i - 1));
  }

  /** The operations are what their names say, bit by bit. */
  lemma {:induction false} BitByBit(x: nat, y: nat, i: nat)
    ensures Or(x, y) >= 0 && Xor(x, y) >= 0
    ensures Bit(And(x, y), i) == if Bit(x, i) == 1 && Bit(y, i) == 1 then 1 else 0
    ensures Bit(Or(x, y), i) == if Bit(x, i) == 1 || Bit(y, i) == 1 then 1 else 0
    ensures Bit(Xor(x, y), i) == if Bit(x, i) == Bit(y, i) then 0 else 1
  {
    Halves(x, y);
    if i == 0 {
      SmallPowers(2);
    } else {
      BitByBit(x / 2, y / 2, i - 1);
      hide And, Or, Xor, Bit;
      NextBit(x, i);
      NextBit(y, i);
      NextBit(And(x, y), i);
      NextBit(Or(x, y), i);
      NextBit(Xor(x, y), i);
    }
  }

  /** Equal words, and only those, have no differing bit. */
  lemma XorZero(x: nat, y: nat)
    ensures Xor(x, y) == 0 <==> x == y
  {
    AndSelf(x);
    AndBound(x, y);
    AndSymmetric(x, y);
  }

  lemma TopBit(w: Word)
    ensures Bit(w, 63) == if Signed(w) < 0 then 1 else 0
  {
    WordPower();
    hide Pow;
    if w >= TwoTo63 {
      DivModUnique(w, TwoTo63, 1, w - TwoTo63);
    } else {
      DivModUnique(w, TwoTo63, 0, w);
    }
  }

  /** The exclusive or of two words is positive when they differ and agree in sign. */
  lemma XorPositive(x: Word, y: Word)
    ensures Signed(BitXor(x, y)) > 0 <==> x != y && (Signed(x) < 0 <==> Signed(y) < 0)
  {
    XorZero(x, y);
    BitByBit(x, y, 63);
    TopBit(x);
    TopBit(y);
    TopBit(BitXor(x, y));
  }

  lemma SignedResidue(w: Word)
    ensures (Signed(w) - w) % TwoTo64 == 0 && -TwoTo63 <= Signed(w) < TwoTo63 && ToWord(Signed(w)) == w
  {
  }

  lemma WordResidue(x: int)
    ensures (ToWord(x) - x) % TwoTo64 == 0
    ensures -TwoTo63 <= x < TwoTo63 ==> Signed(ToWord(x)) == x
  {
  }
}
