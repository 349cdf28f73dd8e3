/** The grammar of expressions, without the operators' codes: which operator binds
    tighter, and how two operators in a row group. */
module OperatorGrammar {
  import opened Options
  import opened Powers
  import opened ExpressionTokens
  import opened ShuntingYard

  /** The binding strength, from the unary operators down to assignment. */
  function Level(op: Operator): (level: nat)
    ensures level <= 15
  {
    match op
    case BitwiseNot | Not | Plus | Minus => 15
    case Combine => 14
    case Exponentiation => 13
    case Multiplication | Division | Modulus => 12
    case Addition | Subtraction => 11
    case ShiftLeft | ShiftRight => 10
    case GreaterThan | LessThan | GreaterThanOrEquals | LessThanOrEquals => 9
    case Equals | NotEquals => 8
    case BitwiseAnd => 7
    case BitwiseXor => 6
    case BitwiseOr => 5
    case And => 4
    case Xor => 3
    case Or => 2
    case Assign => 1
    case Invalid => 0
  }

  lemma LevelOfCode(op: Operator)
    ensures PrecedenceBits(op) == 16 * Level(op)
    ensures IsUnary(op) <==> Level(op) == 15
    ensures IsLeftAssociative(op) <==> op != Exponentiation
  {
    BitsOfCode(op);
    RightAssociativeOnly(op);
    hide *;
  }

  lemma BitsOfCode(op: Operator)
    ensures PrecedenceBits(op) == 16 * Level(op)
  {
    var flags, place := CodeParts(op);
    hide Code, Level;
    MiddleDigit(flags, Level(op), place);
  }

  /** A code is flags, level and the place among the level's operators. */
  lemma CodeParts(op: Operator) returns (flags: nat, place: nat)
    ensures Code(op) == 256 * flags + 16 * Level(op) + place && place < 16
  {
    flags := if Level(op) == 15 then 2 else if op == Exponentiation then 1 else 0;
    place := Code(op) - 256 * flags - 16 * Level(op);
  }

  lemma MiddleDigit(flags: nat, level: nat, place: nat)
    requires level <= 15 && place < 16
    ensures (256 * flags + 16 * level + place) % 256 - (256 * flags + 16 * level + place) % 16 == 16 * level
  {
    DivModUnique(256 * flags + 16 * level + place, 256, flags, 16 * level + place);
    DivModUnique(256 * flags + 16 * level + place, 16, 16 * flags + level, place);
  }

  /** Comparing codes is comparing levels; exponentiation alone groups to the right. */
  lemma FitsByLevel<T>(op: Operator, e: Expr<T>)
    ensures LeftFits(op, e) <==> Enclosed(e) || Level(e.op) > Level(op) || (Level(e.op) == Level(op) && op != Exponentiation)
    ensures RightFits(op, e) <==> Enclosed(e) || Level(e.op) > Level(op) || (Level(e.op) == Level(op) && e.op == Exponentiation)
  {
    hide Level, ComparePrecedence, IsLeftAssociative;
    if !Enclosed(e) {
      LevelOrder(e.op, op);
    }
  }

  lemma LevelOrder(a: Operator, b: Operator)
    ensures ComparePrecedence(a, b) > 0 <==> Level(a) > Level(b)
    ensures ComparePrecedence(a, b) == 0 <==> Level(a) == Level(b)
    ensures (IsLeftAssociative(a) <==> a != Exponentiation) && (IsLeftAssociative(b) <==> b != Exponentiation)
  {
    hide Code, Level, PrecedenceBits, IsLeftAssociative, IsUnary;
    LevelOfCode(a);
    LevelOfCode(b);
  }

  /** `x op1 y op2 z` groups to the left when op1 is on the higher level, or on
      the same one unless that is exponentiation's, and to the right otherwise. */
  lemma PairGrouping<T>(x: T, op1: Operator, y: T, op2: Operator, z: T)
    requires Level(op1) < 15 && Level(op2) < 15
    ensures Postfix([Number(x), Operation(op1), Number(y), Operation(op2), Number(z)])
         == Some(if Level(op1) > Level(op2) || (Level(op1) == Level(op2) && op1 != Exponentiation)
                 then [Number(x), Number(y), Operation(op1), Number(z), Operation(op2)]
                 else [Number(x), Number(y), Number(z), Operation(op2), Operation(op1)])
  {
    hide Postfix, Level, LeftFits, RightFits;
    var a: Expr<T>, b: Expr<T>, c: Expr<T> := Literal(x), Literal(y), Literal(z);
    SharedLevel(op1, op2);
    FitsByLevel(op2, Binary(op1, a, b));
    FitsByLevel(op1, Binary(op2, b, c));
    FitsByLevel(op1, a);
    FitsByLevel(op1, b);
    FitsByLevel(op2, b);
    FitsByLevel(op2, c);
    if LeftFits(op2, Binary(op1, a, b)) {
      var d := Binary(op1, a, b);
      var e := Binary(op2, d, c);
      assert Print(d) == [Number(x), Operation(op1), Number(y)] && PostOrder(d) == [Number(x), Number(y), Operation(op1)];
      assert Parenthesised(d);
      assert Print(e) == [Number(x), Operation(op1), Number(y), Operation(op2), Number(z)];
      assert PostOrder(e) == [Number(x), Number(y), Operation(op1), Number(z), Operation(op2)];
      PostfixOfPrinted(e);
    } else {
      var d := Binary(op2, b, c);
      var e := Binary(op1, a, d);
      assert Print(d) == [Number(y), Operation(op2), Number(z)] && PostOrder(d) == [Number(y), Number(z), Operation(op2)];
      assert Parenthesised(d);
      assert Print(e) == [Number(x), Operation(op1), Number(y), Operation(op2), Number(z)];
      assert PostOrder(e) == [Number(x), Number(y), Number(z), Operation(op2), Operation(op1)];
      PostfixOfPrinted(e);
    }
  }

  lemma SharedLevel(op1: Operator, op2: Operator)
    ensures Level(op1) == Level(op2) ==> (op1 == Exponentiation <==> op2 == Exponentiation)
  {
  }

  /** A unary operator takes the operand behind it and nothing more. */
  lemma UnaryGrouping<T>(u: Operator, x: T, op: Operator, y: T)
    requires Level(u) == 15 && Level(op) < 15
    ensures Postfix([Operation(u), Number(x), Operation(op), Number(y)]) == Some([Number(x), Operation(u), Number(y), Operation(op)])
    ensures Postfix([Number(x), Operation(op), Operation(u), Number(y)]) == Some([Number(x), Number(y), Operation(u), Operation(op)])
  {
    hide Postfix, Level, LeftFits, RightFits;
    var a: Expr<T>, b: Expr<T> := Literal(x), Literal(y);
    FitsByLevel(u, a);
    FitsByLevel(u, b);
    FitsByLevel(op, a);
    FitsByLevel(op, b);
    FitsByLevel(op, Unary(u, a));
    FitsByLevel(op, Unary(u, b));
    var d := Unary(u, a);
    var e := Binary(op, d, b);
    assert Print(d) == [Operation(u), Number(x)] && PostOrder(d) == [Number(x), Operation(u)] && Parenthesised(d);
    assert Print(e) == [Operation(u), Number(x), Operation(op), Number(y)];
    assert PostOrder(e) == [Number(x), Operation(u), Number(y), Operation(op)];
    PostfixOfPrinted(e);
    var g := Unary(u, b);
    var f := Binary(op, a, g);
    assert Print(g) == [Operation(u), Number(y)] && PostOrder(g) == [Number(y), Operation(u)] && Parenthesised(g);
    assert Print(f) == [Number(x), Operation(op), Operation(u), Number(y)];
    assert PostOrder(f) == [Number(x), Number(y), Operation(u), Operation(op)];
    PostfixOfPrinted(f);
  }
}
