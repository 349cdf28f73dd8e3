/** Operators, tokens and expression trees of the evaluator, and how a tree is
    written as infix tokens. */
module ExpressionTokens {

  datatype Operator =
    | Invalid | Assign | Or | Xor | And | BitwiseOr | BitwiseXor | BitwiseAnd
    | Equals | NotEquals | GreaterThan | LessThan | GreaterThanOrEquals | LessThanOrEquals
    | ShiftLeft | ShiftRight | Addition | Subtraction | Multiplication | Division | Modulus
    | Exponentiation | Combine | BitwiseNot | Not | Plus | Minus

  /** The enumerators' values. */
  function Code(op: Operator): nat {
    match op
    case Invalid => 0x000
    case Assign => 0x010
    case Or => 0x020
    case Xor => 0x030
    case And => 0x040
    case BitwiseOr => 0x050
    case BitwiseXor => 0x060
    case BitwiseAnd => 0x070
    case Equals => 0x080
    case NotEquals => 0x081
    case GreaterThan => 0x090
    case LessThan => 0x091
    case GreaterThanOrEquals => 0x092
    case LessThanOrEquals => 0x093
    case ShiftLeft => 0x0A0
    case ShiftRight => 0x0A1
    case Addition => 0x0B0
    case Subtraction => 0x0B1
    case Multiplication => 0x0C0
    case Division => 0x0C1
    case Modulus => 0x0C2
    case Exponentiation => 0x1D0
    case Combine => 0x0E0
    case BitwiseNot => 0x2F0
    case Not => 0x2F1
    case Plus => 0x2F2
    case Minus => 0x2F3
  }

  /** The bits 0x0F0 of the code. The cast to i8 before the mask keeps them. */
  function PrecedenceBits(op: Operator): int {
    Code(op) % 0x100 - Code(op) % 0x10
  }

  function ComparePrecedence(a: Operator, b: Operator): int {
    PrecedenceBits(a) - PrecedenceBits(b)
  }

  predicate IsLeftAssociative(op: Operator) {
    Code(op) / 0x100 % 2 == 0
  }

  predicate IsUnary(op: Operator) {
    Code(op) / 0x200 % 2 != 0
  }

  datatype Token<T> =
    | Number(number: T)
    | Variable(name: string)
    | Function(name: string, arguments: seq<T>)
    | Operation(op: Operator)
    | Bracket(left: bool)

  /** Expression trees. A pair of parentheses is a node of its own, so that
      redundant ones can be written too. */
  datatype Expr<T> =
    | Literal(number: T)
    | Name(name: string)
    | Call(name: string, arguments: seq<T>)
    | Unary(op: Operator, operand: Expr<T>)
    | Binary(op: Operator, lhs: Expr<T>, rhs: Expr<T>)
    | Paren(inner: Expr<T>)

  function Print<T>(e: Expr<T>): seq<Token<T>> {
    match e
    case Literal(n) => [Number(n)]
    case Name(x) => [Variable(x)]
    case Call(f, args) => [Function(f, args)]
    case Unary(op, x) => [Operation(op)] + Print(x)
    case Binary(op, l, r) => Print(l) + [Operation(op)] + Print(r)
    case Paren(x) => [Bracket(true)] + Print(x) + [Bracket(false)]
  }

  /** Each operator takes the number of operands it is made for. */
  predicate WellFormed<T>(e: Expr<T>) {
    match e
    case Unary(op, x) => IsUnary(op) && WellFormed(x)
    case Binary(op, l, r) => !IsUnary(op) && WellFormed(l) && WellFormed(r)
    case Paren(x) => WellFormed(x)
    case _ => true
  }

  /** An operand that starts and ends without an operator of its own level. */
  predicate Enclosed<T>(e: Expr<T>) {
    !e.Unary? && !e.Binary?
  }

  /** A left operand binds tighter, or as tightly under a left-associative operator. */
  predicate LeftFits<T>(op: Operator, e: Expr<T>) {
    || Enclosed(e)
    || ComparePrecedence(e.op, op) > 0
    || (ComparePrecedence(e.op, op) == 0 && IsLeftAssociative(op))
  }

  /** A right or only operand binds tighter, or as tightly under a right-associative operator. */
  predicate RightFits<T>(op: Operator, e: Expr<T>) {
    || Enclosed(e)
    || ComparePrecedence(e.op, op) > 0
    || (ComparePrecedence(e.op, op) == 0 && !IsLeftAssociative(e.op))
  }

  /** The parentheses that precedence and associativity require are there. */
  predicate Parenthesised<T>(e: Expr<T>) {
    match e
    case Unary(op, x) => RightFits(op, x) && Parenthesised(x)
    case Binary(op, l, r) => LeftFits(op, l) && RightFits(op, r) && Parenthesised(l) && Parenthesised(r)
    case Paren(x) => Parenthesised(x)
    case _ => true
  }

  function PostOrder<T>(e: Expr<T>): seq<Token<T>> {
    match e
    case Literal(n) => [Number(n)]
    case Name(x) => [Variable(x)]
    case Call(f, args) => [Function(f, args)]
    case Unary(op, x) => PostOrder(x) + [Operation(op)]
    case Binary(op, l, r) => PostOrder(l) + PostOrder(r) + [Operation(op)]
    case Paren(x) => PostOrder(x)
  }

  /** The tree with parentheses put in wherever they are required. */
  function Parenthesise<T>(e: Expr<T>): Expr<T> {
    match e
    case Unary(op, x) =>
      var y := Parenthesise(x);
      Unary(op, if RightFits(op, y) then y else Paren(y))
    case Binary(op, l, r) =>
      var l', r' := Parenthesise(l), Parenthesise(r);
      Binary(op, if LeftFits(op, l') then l' else Paren(l'), if RightFits(op, r') then r' else Paren(r'))
    case Paren(x) => Paren(Parenthesise(x))
    case _ => e
  }

  lemma {:induction false} ParenthesiseMeaning<T>(e: Expr<T>)
    ensures Parenthesised(Parenthesise(e)) && PostOrder(Parenthesise(e)) == PostOrder(e)
    ensures WellFormed(e) ==> WellFormed(Parenthesise(e))
  {
    hide ComparePrecedence, IsLeftAssociative, IsUnary;
    match e
    case Unary(op, x) => ParenthesiseMeaning(x);
    case Binary(op, l, r) =>
      ParenthesiseMeaning(l);
      ParenthesiseMeaning(r);
    case Paren(x) => ParenthesiseMeaning(x);
    case _ =>
  }

  lemma RightAssociativeOnly(op: Operator)
    ensures !IsLeftAssociative(op) <==> op == Exponentiation
    ensures PrecedenceBits(op) == 0xD0 <==> op == Exponentiation
    ensures IsUnary(op) <==> PrecedenceBits(op) == 0xF0
    ensures PrecedenceBits(op) <= 0xF0
  {
  }

  /** Only an operand without operators of its own can follow a unary operator:
      two adjacent unary operators need parentheses between them. */
  lemma UnaryOperandIsEnclosed<T>(op: Operator, e: Expr<T>)
    requires IsUnary(op)
    ensures RightFits(op, e) <==> Enclosed(e)
  {
    RightAssociativeOnly(op);
    if !Enclosed(e) {
      RightAssociativeOnly(e.op);
    }
  }
}
