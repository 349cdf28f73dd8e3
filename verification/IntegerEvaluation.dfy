/** The evaluator on 64-bit signed integers: what `l op r` comes to. */
module IntegerEvaluation {
  import opened Options
  import opened Powers
  import opened Bits
  import opened Words
  import opened ExpressionTokens
  import opened ShuntingYard
  import opened MathEvaluation
  import opened SignedDivision

  predicate In64(x: int) {
    -TwoTo63 <= x < TwoTo63
  }

  function Wrap(x: int): int {
    Signed(ToWord(x))
  }

  function IntPow(x: int, n: nat): int {
    if n == 0 then 1 else IntPow(x, n - 1) * x
  }

  /** The instance for i64, with wrap-around where C++ leaves overflow open. */
  const SignedIntegers: Arithmetic<int> := Arithmetic(
    0,
    (x: int, y: int) => Wrap(x + y),
    (x: int, y: int) => Wrap(x - y),
    (x: int, y: int) => Wrap(x * y),
    (x: int, y: int) => if y == 0 then 0 else Wrap(TruncatedQuotient(x, y)),
    (x: int, y: int) => if y == 0 then 0 else Wrap(TruncatedRemainder(x, y)),
    (x: int, y: int) => if y < 0 then 0 else Wrap(IntPow(x, y)),
    (x: int) => Wrap(-x),
    (x: int, y: int) => x < y,
    (x: int, y: int) => x == y,
    (x: int) => ToWord(x),
    (x: int) => ToWord(x),
    (w: Word) => Signed(w),
    (w: Word) => Signed(w),
    (x: Word, n: Word) => x)

  /** What the tokens `l op r`, converted and run, evaluate to. */
  function Infix(env: Environment<int>, l: int, op: Operator, r: int): Option<int> {
    var p := Postfix([Number(l), Operation(op), Number(r)]);
    if p.None? then None else Run(env, p.value, [], None).value
  }

  /** What `op r` evaluates to. */
  function Prefix(env: Environment<int>, op: Operator, r: int): Option<int> {
    var p := Postfix([Operation(op), Number(r)]);
    if p.None? then None else Run(env, p.value, [], None).value
  }

  lemma InfixApplies(env: Environment<int>, l: int, op: Operator, r: int)
    requires !IsUnary(op)
    ensures Infix(env, l, op, r) == Succeeded(Apply(env.arithmetic, op, l, r))
  {
    hide Postfix, Run, Apply, IsUnary;
    var e: Expr<int> := Binary(op, Literal(l), Literal(r));
    assert Print(e) == [Number(l), Operation(op), Number(r)];
    CompiledMeaning(env, e, None);
  }

  lemma PrefixApplies(env: Environment<int>, op: Operator, r: int)
    requires IsUnary(op) && env.arithmetic == SignedIntegers
    ensures Prefix(env, op, r) == Succeeded(Apply(SignedIntegers, op, 0, r))
  {
    hide Postfix, Run, Apply, IsUnary;
    var e: Expr<int> := Unary(op, Literal(r));
    assert Print(e) == [Operation(op), Number(r)];
    CompiledMeaning(env, e, None);
  }

  lemma ArithmeticIsBinary()
    ensures !IsUnary(Addition) && !IsUnary(Subtraction) && !IsUnary(Multiplication) && !IsUnary(Exponentiation)
    ensures !IsUnary(Division) && !IsUnary(Modulus) && !IsUnary(Combine)
    ensures !IsUnary(Operator.ShiftLeft) && !IsUnary(Operator.ShiftRight)
  {
  }

  lemma ComparisonIsBinary()
    ensures !IsUnary(LessThan) && !IsUnary(GreaterThan) && !IsUnary(LessThanOrEquals) && !IsUnary(GreaterThanOrEquals)
    ensures !IsUnary(Equals) && !IsUnary(NotEquals)
  {
  }

  lemma LogicIsBinary()
    ensures !IsUnary(Operator.And) && !IsUnary(Operator.Or) && !IsUnary(Operator.Xor)
    ensures !IsUnary(BitwiseAnd) && !IsUnary(BitwiseOr) && !IsUnary(BitwiseXor)
    ensures IsUnary(Not) && IsUnary(BitwiseNot) && IsUnary(Plus) && IsUnary(Minus)
  {
  }

  // One branch of the switch at a time.

  lemma AppliedSum(l: int, r: int)
    ensures Apply(SignedIntegers, Addition, l, r) == Ok(Wrap(l + r))
    ensures Apply(SignedIntegers, Subtraction, l, r) == Ok(Wrap(l - r))
  {
    hide Wrap, Signed, ToWord, BitAnd, BitOr, BitXor, BitNot;
  }

  lemma AppliedProduct(l: int, r: int)
    ensures Apply(SignedIntegers, Multiplication, l, r) == Ok(Wrap(l * r))
    ensures Apply(SignedIntegers, Exponentiation, l, r) == Ok(if r < 0 then 0 else Wrap(IntPow(l, r)))
  {
    hide Wrap, Signed, ToWord, BitAnd, BitOr, BitXor, BitNot;
  }

  lemma AppliedQuotient(l: int, r: int)
    ensures Apply(SignedIntegers, Division, l, r) == if r == 0 then Err("Division by Zero!") else Ok(Wrap(TruncatedQuotient(l, r)))
    ensures Apply(SignedIntegers, Modulus, l, r) == if r == 0 then Err("Division by Zero!") else Ok(Wrap(TruncatedRemainder(l, r)))
  {
    hide Wrap, Signed, ToWord, BitAnd, BitOr, BitXor, BitNot;
  }

  lemma AppliedOrder(l: int, r: int)
    ensures Apply(SignedIntegers, LessThan, l, r) == Ok(Signed(if l < r then 1 else 0))
    ensures Apply(SignedIntegers, GreaterThan, l, r) == Ok(Signed(if l > r then 1 else 0))
  {
    hide Wrap, Signed, ToWord, BitAnd, BitOr, BitXor, BitNot;
  }

  lemma AppliedWeakOrder(l: int, r: int)
    ensures Apply(SignedIntegers, LessThanOrEquals, l, r) == Ok(Signed(if l <= r then 1 else 0))
    ensures Apply(SignedIntegers, GreaterThanOrEquals, l, r) == Ok(Signed(if l >= r then 1 else 0))
  {
    hide Wrap, Signed, ToWord, BitAnd, BitOr, BitXor, BitNot;
  }

  lemma AppliedEquality(l: int, r: int)
    ensures Apply(SignedIntegers, Equals, l, r) == Ok(Signed(if l == r then 1 else 0))
    ensures Apply(SignedIntegers, NotEquals, l, r) == Ok(Signed(if l != r then 1 else 0))
  {
    hide Wrap, Signed, ToWord, BitAnd, BitOr, BitXor, BitNot;
  }

  lemma AppliedConjunction(l: int, r: int)
    ensures Apply(SignedIntegers, Operator.And, l, r) == Ok(Signed(if ToWord(l) != 0 && ToWord(r) != 0 then 1 else 0))
    ensures Apply(SignedIntegers, Operator.Or, l, r) == Ok(Signed(if ToWord(l) != 0 || ToWord(r) != 0 then 1 else 0))
  {
    hide Wrap, Signed, ToWord, BitAnd, BitOr, BitXor, BitNot;
  }

  lemma AppliedNegation(l: int, r: int)
    ensures Apply(SignedIntegers, Operator.Xor, l, r) == Ok(Signed(if Signed(BitXor(ToWord(l), ToWord(r))) > 0 then 1 else 0))
    ensures Apply(SignedIntegers, Not, l, r) == Ok(Signed(if ToWord(r) == 0 then 1 else 0))
  {
    hide Wrap, Signed, ToWord, BitAnd, BitOr, BitXor, BitNot;
  }

  lemma AppliedBits(l: int, r: int)
    ensures Apply(SignedIntegers, BitwiseAnd, l, r) == Ok(Signed(BitAnd(ToWord(l), ToWord(r))))
    ensures Apply(SignedIntegers, BitwiseOr, l, r) == Ok(Signed(BitOr(ToWord(l), ToWord(r))))
  {
    hide Wrap, Signed, ToWord, BitAnd, BitOr, BitXor, BitNot;
  }

  lemma AppliedMoreBits(l: int, r: int)
    ensures Apply(SignedIntegers, BitwiseXor, l, r) == Ok(Signed(BitXor(ToWord(l), ToWord(r))))
    ensures Apply(SignedIntegers, BitwiseNot, l, r) == Ok(Signed(BitNot(ToWord(r))))
  {
    hide Wrap, Signed, ToWord, BitAnd, BitOr, BitXor, BitNot;
  }

  lemma AppliedSigns(l: int, r: int)
    ensures Apply(SignedIntegers, Plus, l, r) == Ok(r)
    ensures Apply(SignedIntegers, Minus, l, r) == Ok(Wrap(-r))
  {
    hide Wrap, Signed, ToWord, BitAnd, BitOr, BitXor, BitNot;
  }

  lemma AppliedShift(l: int, r: int)
    requires ToWord(r) < 64
    ensures Apply(SignedIntegers, Operator.ShiftLeft, l, r) == Ok(Signed(Words.ShiftLeft(ToWord(l), ToWord(r))))
    ensures Apply(SignedIntegers, Operator.ShiftRight, l, r) == Ok(Signed(Words.ShiftRight(ToWord(l), ToWord(r))))
  {
    hide Signed, ToWord, Words.ShiftLeft, Words.ShiftRight;
  }

  lemma AppliedCombination(l: int, r: int)
    requires BitWidth(ToWord(r)) < 64
    ensures Apply(SignedIntegers, Combine, l, r)
         == Ok(Signed(BitOr(Words.ShiftLeft(ToWord(l), BitWidth(ToWord(r))), ToWord(r))))
  {
    hide Signed, ToWord, Words.ShiftLeft, BitOr, BitWidth;
  }

  /** The result is the 64-bit number congruent to x. */
  predicate Comes(result: Option<int>, x: int) {
    result.Some? && In64(result.value) && (result.value - x) % TwoTo64 == 0
  }

  lemma WrapComes(x: int)
    ensures Comes(Some(Wrap(x)), x) && (In64(x) ==> Wrap(x) == x)
  {
    WordResidue(x);
    SignedResidue(ToWord(x));
    SumOfResidues(Wrap(x), ToWord(x), x);
  }

  lemma SumOfResidues(a: int, b: int, c: int)
    requires (a - b) % TwoTo64 == 0 && (b - c) % TwoTo64 == 0
    ensures (a - c) % TwoTo64 == 0
  {
  }

  /** Sums, differences, products and powers, modulo 2^64. */
  lemma Sums(env: Environment<int>, l: int, r: int)
    requires env.arithmetic == SignedIntegers && In64(l) && In64(r)
    ensures Comes(Infix(env, l, Addition, r), l + r)
    ensures Comes(Infix(env, l, Subtraction, r), l - r)
    ensures Comes(Infix(env, l, Multiplication, r), l * r)
    ensures Comes(Infix(env, l, Exponentiation, r), if r < 0 then 0 else IntPow(l, r))
  {
    hide Infix, Wrap, IntPow, Comes, Apply, SignedIntegers, IsUnary;
    ArithmeticIsBinary();
    AppliedSum(l, r);
    AppliedProduct(l, r);
    InfixApplies(env, l, Addition, r);
    InfixApplies(env, l, Subtraction, r);
    InfixApplies(env, l, Multiplication, r);
    InfixApplies(env, l, Exponentiation, r);
    WrapComes(l + r);
    WrapComes(l - r);
    WrapComes(l * r);
    if r >= 0 {
      WrapComes(IntPow(l, r));
    } else {
      WrapComes(0);
    }
  }

  /** Division truncates, the remainder has the sign of the dividend; a zero
      divisor gives nothing; the minimum by -1 wraps around. */
  lemma Quotients(env: Environment<int>, l: int, r: int)
    requires env.arithmetic == SignedIntegers && In64(l) && In64(r)
    ensures r == 0 ==> Infix(env, l, Division, r) == None && Infix(env, l, Modulus, r) == None
    ensures r != 0 ==> Infix(env, l, Division, r).Some? && Infix(env, l, Modulus, r).Some?
    ensures r != 0 && !(l == -TwoTo63 && r == -1) ==>
      var q, m := Infix(env, l, Division, r).value, Infix(env, l, Modulus, r).value;
      l == q * r + m && 0 - Magnitude(r) < m < Magnitude(r) && (m == 0 || (m < 0 <==> l < 0))
    ensures l == -TwoTo63 && r == -1 ==> Infix(env, l, Division, r).value == l && Infix(env, l, Modulus, r).value == 0
  {
    hide Infix, Wrap, TruncatedQuotient, TruncatedRemainder, Apply, SignedIntegers, IsUnary;
    ArithmeticIsBinary();
    AppliedQuotient(l, r);
    InfixApplies(env, l, Division, r);
    InfixApplies(env, l, Modulus, r);
    if r != 0 {
      WrapComes(TruncatedQuotient(l, r));
      WrapComes(TruncatedRemainder(l, r));
      TruncatedInRange(TwoTo64, l, r);
      TruncationLaw(l, r);
      if l == -TwoTo63 && r == -1 {
        MinimumByMinusOne();
      }
    }
  }

  lemma MinimumByMinusOne()
    ensures Wrap(TruncatedQuotient(-TwoTo63, -1)) == -TwoTo63 && Wrap(TruncatedRemainder(-TwoTo63, -1)) == 0
  {
  }

  function Truth(c: bool): Option<int> {
    Some(if c then 1 else 0)
  }

  lemma Comparisons(env: Environment<int>, l: int, r: int)
    requires env.arithmetic == SignedIntegers && In64(l) && In64(r)
    ensures Infix(env, l, LessThan, r) == Truth(l < r) && Infix(env, l, GreaterThan, r) == Truth(l > r)
    ensures Infix(env, l, LessThanOrEquals, r) == Truth(l <= r) && Infix(env, l, GreaterThanOrEquals, r) == Truth(l >= r)
    ensures Infix(env, l, Equals, r) == Truth(l == r) && Infix(env, l, NotEquals, r) == Truth(l != r)
  {
    hide Infix, Apply, SignedIntegers, IsUnary;
    ComparisonIsBinary();
    AppliedOrder(l, r);
    AppliedWeakOrder(l, r);
    AppliedEquality(l, r);
    InfixApplies(env, l, LessThan, r);
    InfixApplies(env, l, GreaterThan, r);
    InfixApplies(env, l, LessThanOrEquals, r);
    InfixApplies(env, l, GreaterThanOrEquals, r);
    InfixApplies(env, l, Equals, r);
    InfixApplies(env, l, NotEquals, r);
  }

  /** The logical operators test for zero; `^^` instead tells whether the
      operands differ and have the same sign. */
  lemma Logic(env: Environment<int>, l: int, r: int)
    requires env.arithmetic == SignedIntegers && In64(l) && In64(r)
    ensures Infix(env, l, And, r) == Truth(l != 0 && r != 0) && Infix(env, l, Or, r) == Truth(l != 0 || r != 0)
    ensures Prefix(env, Not, r) == Truth(r == 0)
    ensures Infix(env, l, Xor, r) == Truth(l != r && (l < 0 <==> r < 0))
  {
    hide Infix, Prefix, BitXor, Apply, SignedIntegers, IsUnary;
    LogicIsBinary();
    AppliedConjunction(l, r);
    AppliedNegation(l, r);
    AppliedNegation(0, r);
    InfixApplies(env, l, Operator.And, r);
    InfixApplies(env, l, Operator.Or, r);
    InfixApplies(env, l, Operator.Xor, r);
    PrefixApplies(env, Operator.Not, r);
    WordResidue(l);
    WordResidue(r);
    XorPositive(ToWord(l), ToWord(r));
  }

  /** The bit of a number in two's complement. */
  function BitOf(x: int, i: nat): nat {
    Bit(ToWord(x), i)
  }

  lemma NotNumber(r: int)
    requires In64(r)
    ensures Signed(BitNot(ToWord(r))) == -1 - r
  {
  }

  lemma WordBits(x: Word, y: Word, i: nat)
    ensures Bit(BitAnd(x, y), i) == if Bit(x, i) == 1 && Bit(y, i) == 1 then 1 else 0
    ensures Bit(BitOr(x, y), i) == if Bit(x, i) == 1 || Bit(y, i) == 1 then 1 else 0
    ensures Bit(BitXor(x, y), i) == if Bit(x, i) == Bit(y, i) then 0 else 1
  {
    hide Bit, Bits.And, Bits.Or, Words.Xor;
    BitByBit(x, y, i);
  }

  lemma Bitwise(env: Environment<int>, l: int, r: int, i: nat)
    requires env.arithmetic == SignedIntegers && In64(l) && In64(r) && i < 64
    ensures Infix(env, l, BitwiseAnd, r).Some? && Infix(env, l, BitwiseOr, r).Some? && Infix(env, l, BitwiseXor, r).Some?
    ensures BitOf(Infix(env, l, BitwiseAnd, r).value, i) == if BitOf(l, i) == 1 && BitOf(r, i) == 1 then 1 else 0
    ensures BitOf(Infix(env, l, BitwiseOr, r).value, i) == if BitOf(l, i) == 1 || BitOf(r, i) == 1 then 1 else 0
    ensures BitOf(Infix(env, l, BitwiseXor, r).value, i) == if BitOf(l, i) == BitOf(r, i) then 0 else 1
    ensures Prefix(env, BitwiseNot, r) == Some(-1 - r)
  {
    hide Infix, Prefix, Bit, Bits.And, Bits.Or, Words.Xor, Apply, SignedIntegers, IsUnary, Signed, BitNot, BitAnd, BitOr, BitXor;
    LogicIsBinary();
    AppliedBits(l, r);
    AppliedMoreBits(l, r);
    AppliedMoreBits(0, r);
    InfixApplies(env, l, BitwiseAnd, r);
    InfixApplies(env, l, BitwiseOr, r);
    InfixApplies(env, l, BitwiseXor, r);
    PrefixApplies(env, BitwiseNot, r);
    WordBits(ToWord(l), ToWord(r), i);
    NotNumber(r);
    SignedResidue(BitAnd(ToWord(l), ToWord(r)));
    SignedResidue(BitOr(ToWord(l), ToWord(r)));
    SignedResidue(BitXor(ToWord(l), ToWord(r)));
  }

  /** Shifts by less than 64 multiply, and divide rounding down. */
  lemma ShiftsOf(env: Environment<int>, l: int, r: nat)
    requires env.arithmetic == SignedIntegers && In64(l) && r < 64
    ensures Pow(2, r) > 0
    ensures Comes(Infix(env, l, Operator.ShiftLeft, r), l * Pow(2, r))
    ensures Infix(env, l, Operator.ShiftRight, r) == Some(l / Pow(2, r))
  {
    hide Infix, Pow, Apply, SignedIntegers, IsUnary;
    ArithmeticIsBinary();
    AppliedShift(l, r);
    InfixApplies(env, l, Operator.ShiftLeft, r);
    InfixApplies(env, l, Operator.ShiftRight, r);
    PowPositive(2, r);
    WordResidue(l);
    WordResidue(r);
    ResidueProduct(ToWord(l), l, Pow(2, r));
    WordResidue(ToWord(l) * Pow(2, r));
    SignedResidue(Words.ShiftLeft(ToWord(l), r));
    SumOfResidues(ToWord(ToWord(l) * Pow(2, r)), ToWord(l) * Pow(2, r), l * Pow(2, r));
    SumOfResidues(Wrap(ToWord(l) * Pow(2, r)), ToWord(ToWord(l) * Pow(2, r)), l * Pow(2, r));
    FloorInRange(l, Pow(2, r));
    WordResidue(l / Pow(2, r));
  }

  lemma ResidueProduct(a: int, b: int, p: int)
    requires (a - b) % TwoTo64 == 0
    ensures (a * p - b * p) % TwoTo64 == 0
  {
    var k := (a - b) / TwoTo64;
    assert a * p - b * p == (k * p) * TwoTo64;
    DivModUnique(a * p - b * p, TwoTo64, k * p, 0);
  }

  lemma FloorInRange(l: int, p: nat)
    requires p > 0 && In64(l)
    ensures In64(l / p)
  {
    if l >= 0 {
      MulMonotone(1, p, l / p);
    } else {
      FloorNegative(l, p);
    }
  }

  lemma FloorNegative(l: int, p: int)
    requires p > 0 && l < 0
    ensures l <= l / p < 0
  {
    var q := l / p;
    assert l == q * p + l % p;
    if q < 0 {
      NotBelow(q + 1, p);
      assert (q + 1) * p == q * p + p;
    }
  }

  lemma NotBelow(x: int, p: int)
    requires x <= 0 && p > 0
    ensures x * p <= x
  {
    MulMonotone(1, p, -x);
  }

  /** Combining puts the bits of the right operand behind those of the left one. */
  lemma Combination(env: Environment<int>, l: int, r: int)
    requires env.arithmetic == SignedIntegers && In64(l) && In64(r) && BitWidth(ToWord(r)) < 64
    ensures ToWord(r) < Pow(2, BitWidth(ToWord(r)))
    ensures Comes(Infix(env, l, Combine, r), l * Pow(2, BitWidth(ToWord(r))) + ToWord(r))
  {
    hide Infix, Pow, BitLength, BitWidth, Bits.Or, Apply, SignedIntegers, IsUnary;
    ArithmeticIsBinary();
    AppliedCombination(l, r);
    InfixApplies(env, l, Combine, r);
    var n, low := BitWidth(ToWord(r)), ToWord(r);
    WidthHolds(low);
    LowPlaces(ToWord(l), n, low);
    WordResidue(l);
    ResidueProduct(ToWord(l), l, Pow(2, n));
    SignedResidue(BitOr(Words.ShiftLeft(ToWord(l), n), low));
    SumOfResidues(BitOr(Words.ShiftLeft(ToWord(l), n), low), ToWord(l) * Pow(2, n) + low, l * Pow(2, n) + low);
    SumOfResidues(Signed(BitOr(Words.ShiftLeft(ToWord(l), n), low)), BitOr(Words.ShiftLeft(ToWord(l), n), low), l * Pow(2, n) + low);
  }

  lemma WidthHolds(w: Word)
    ensures w < Pow(2, BitWidth(w))
  {
    if w > 0 {
      BitLengthBounds(w);
    } else {
      SmallPowers(2);
    }
  }

  /** A shifted word has clear places for what is put in. */
  lemma LowPlaces(x: Word, n: nat, low: Word)
    requires n < 64 && low < Pow(2, n)
    ensures (BitOr(Words.ShiftLeft(x, n), low) - (x * Pow(2, n) + low)) % TwoTo64 == 0
  {
    hide Pow, Bits.And;
    WordPower();
    PowAdd(2, n, 64 - n);
    var p, q := Pow(2, n), Pow(2, 64 - n);
    var k, m := x * p / TwoTo64, x * p % TwoTo64;
    assert x * p == k * TwoTo64 + m;
    PowPositive(2, n);
    PowPositive(2, 64 - n);
    CommonFactor(x, p, q, k, m);
    AndLow(x - k * q, n, low);
    DivModUnique(m + low - (x * p + low), TwoTo64, -k, 0);
  }

  lemma CommonFactor(x: nat, p: nat, q: nat, k: nat, m: nat)
    requires p > 0 && x * p == k * (p * q) + m
    ensures x - k * q >= 0 && m == (x - k * q) * p
  {
    assert m == (x - k * q) * p;
    if x - k * q < 0 {
      MulMonotone(x - k * q, -1, p);
    }
  }

  /** The signs; two minuses cancel. */
  lemma Signs(env: Environment<int>, r: int)
    requires env.arithmetic == SignedIntegers && In64(r)
    ensures Prefix(env, Plus, r) == Some(r)
    ensures Comes(Prefix(env, Minus, r), -r)
    ensures Prefix(env, Minus, Prefix(env, Minus, r).value) == Some(r)
  {
    hide Prefix, Wrap, Apply, SignedIntegers, IsUnary;
    LogicIsBinary();
    AppliedSigns(0, r);
    PrefixApplies(env, Plus, r);
    PrefixApplies(env, Minus, r);
    WrapComes(-r);
    var m := Wrap(-r);
    AppliedSigns(0, m);
    PrefixApplies(env, Minus, m);
    WrapComes(-m);
    SumOfResidues(Wrap(-m), -m, r);
    OneIn64(Wrap(-m), r);
  }

  lemma OneIn64(x: int, y: int)
    requires In64(x) && In64(y) && (x - y) % TwoTo64 == 0
    ensures x == y
  {
  }

  /** The operators no operand satisfies. */
  lemma NoOperators(env: Environment<int>, l: int, r: int)
    ensures Infix(env, l, Invalid, r) == None && Infix(env, l, Assign, r) == None
  {
    hide Infix;
    InfixApplies(env, l, Invalid, r);
    InfixApplies(env, l, Assign, r);
  }
}
