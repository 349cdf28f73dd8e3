/** `toPostfix`: the shunting-yard conversion, and what it does to a printed tree. */
module ShuntingYard {
  import opened Options
  import opened ExpressionTokens

  /** An operator on top of the stack goes to the output before `current` is pushed. */
  predicate Pops(top: Operator, current: Operator) {
    ComparePrecedence(top, current) > 0 || (ComparePrecedence(top, current) == 0 && IsLeftAssociative(current))
  }

  function Top<T>(s: seq<T>): T
    requires |s| > 0
  {
    s[|s| - 1]
  }

  function Pop<T>(s: seq<T>): (r: seq<T>)
    requires |s| > 0
    ensures |r| == |s| - 1
  {
    s[..|s| - 1]
  }

  datatype State<T> = State(output: seq<Token<T>>, stack: seq<Token<T>>)

  /** Operators popped by an incoming operator. */
  function Drain<T>(st: State<T>, current: Operator): State<T>
    decreases |st.stack|
  {
    if |st.stack| > 0 && Top(st.stack).Operation? && Pops(Top(st.stack).op, current) then
      Drain(State(st.output + [Top(st.stack)], Pop(st.stack)), current)
    else
      st
  }

  /** Everything popped down to the matching left bracket. */
  function Unwind<T>(st: State<T>): Option<State<T>>
    decreases |st.stack|
  {
    if |st.stack| == 0 then None
    else if Top(st.stack) == Bracket(true) then Some(State(st.output, Pop(st.stack)))
    else Unwind(State(st.output + [Top(st.stack)], Pop(st.stack)))
  }

  function Finish<T>(st: State<T>): Option<seq<Token<T>>>
    decreases |st.stack|
  {
    if |st.stack| == 0 then Some(st.output)
    else if Top(st.stack).Bracket? then None
    else Finish(State(st.output + [Top(st.stack)], Pop(st.stack)))
  }

  function Step<T>(st: State<T>, token: Token<T>): Option<State<T>> {
    match token
    case Operation(op) =>
      var drained := Drain(st, op);
      Some(State(drained.output, drained.stack + [token]))
    case Bracket(left) =>
      if left then Some(State(st.output, st.stack + [token])) else Unwind(st)
    case _ => Some(State(st.output + [token], st.stack))
  }

  function Convert<T>(tokens: seq<Token<T>>, st: State<T>): Option<seq<Token<T>>> {
    if |tokens| == 0 then Finish(st)
    else
      var next := Step(st, tokens[0]);
      if next.None? then None else Convert(tokens[1..], next.value)
  }

  function Postfix<T>(tokens: seq<Token<T>>): Option<seq<Token<T>>> {
    Convert(tokens, State([], []))
  }

  // What a printed tree leaves behind.

  function Reverse<T>(s: seq<T>): seq<T> {
    if |s| == 0 then [] else [Top(s)] + Reverse(Pop(s))
  }

  /** The tokens of a tree already output when its last token has been read. */
  function Settled<T>(e: Expr<T>): seq<Token<T>> {
    match e
    case Literal(n) => [Number(n)]
    case Name(x) => [Variable(x)]
    case Call(f, args) => [Function(f, args)]
    case Unary(op, x) => Settled(x)
    case Binary(op, l, r) => PostOrder(l) + Settled(r)
    case Paren(x) => PostOrder(x)
  }

  /** The operators still on the stack then, innermost last. */
  function Pending<T>(e: Expr<T>): seq<Token<T>> {
    match e
    case Unary(op, x) => [Operation(op)] + Pending(x)
    case Binary(op, l, r) => [Operation(op)] + Pending(r)
    case _ => []
  }

  lemma {:induction false} ReverseCons<T>(x: T, s: seq<T>)
    ensures Reverse([x] + s) == Reverse(s) + [x]
  {
    if |s| == 0 {
      assert Pop([x]) == [];
    } else {
      assert Pop([x] + s) == [x] + Pop(s);
      ReverseCons(x, Pop(s));
    }
  }

  lemma {:induction false} SettledThenPending<T>(e: Expr<T>)
    ensures PostOrder(e) == Settled(e) + Reverse(Pending(e))
  {
    hide Reverse;
    match e
    case Unary(op, x) =>
      SettledThenPending(x);
      OperatorLast(op, [], Settled(x), Pending(x));
      assert [] + Settled(x) == Settled(x);
    case Binary(op, l, r) =>
      SettledThenPending(r);
      OperatorLast(op, PostOrder(l), Settled(r), Pending(r));
    case _ =>
      ReverseEmpty<Token<T>>();
      assert PostOrder(e) + [] == PostOrder(e);
  }

  lemma ReverseEmpty<X>()
    ensures Reverse<X>([]) == []
  {
  }

  lemma OperatorLast<T>(op: Operator, left: seq<Token<T>>, settled: seq<Token<T>>, pending: seq<Token<T>>)
    ensures left + (settled + Reverse(pending)) + [Operation(op)] == left + settled + Reverse([Operation(op)] + pending)
    ensures settled + Reverse(pending) + [Operation(op)] == settled + Reverse([Operation(op)] + pending)
  {
    hide Reverse;
    ReverseCons(Operation(op), pending);
  }

  /** Every pending operator of a tree binds as its root does, or tighter. */
  lemma {:induction false} PendingBinds<T>(e: Expr<T>, i: nat)
    requires Parenthesised(e) && i < |Pending(e)|
    ensures !Enclosed(e) && Pending(e)[i].Operation?
    ensures ComparePrecedence(Pending(e)[i].op, e.op) >= 0
  {
    if i > 0 {
      match e
      case Unary(op, x) => PendingBinds(x, i - 1);
      case Binary(op, l, r) => PendingBinds(r, i - 1);
      case _ =>
    }
  }

  /** The stack below a tree holds on to its top when the root operator arrives. */
  predicate Holds<T>(stack: seq<Token<T>>, op: Operator) {
    |stack| > 0 && Top(stack).Operation? ==> !Pops(Top(stack).op, op)
  }

  predicate Admits<T>(stack: seq<Token<T>>, e: Expr<T>) {
    Enclosed(e) || Holds(stack, e.op)
  }

  predicate AllPop<T>(s: seq<Token<T>>, op: Operator) {
    forall i :: 0 <= i < |s| ==> s[i].Operation? && Pops(s[i].op, op)
  }

  lemma {:induction false} DrainPending<T>(output: seq<Token<T>>, base: seq<Token<T>>, s: seq<Token<T>>, op: Operator)
    requires AllPop(s, op) && Holds(base, op)
    ensures Drain(State(output, base + s), op) == State(output + Reverse(s), base)
    decreases |s|
  {
    if |s| == 0 {
      assert base + s == base && output + Reverse(s) == output;
    } else {
      assert Pop(base + s) == base + Pop(s) && Top(base + s) == Top(s);
      DrainPending(output + [Top(s)], base, Pop(s), op);
      assert output + [Top(s)] + Reverse(Pop(s)) == output + Reverse(s);
    }
  }

  predicate AllOperations<T>(s: seq<Token<T>>) {
    forall i :: 0 <= i < |s| ==> s[i].Operation?
  }

  lemma {:induction false} UnwindPending<T>(output: seq<Token<T>>, base: seq<Token<T>>, s: seq<Token<T>>)
    requires AllOperations(s)
    ensures Unwind(State(output, base + [Bracket(true)] + s)) == Some(State(output + Reverse(s), base))
    decreases |s|
  {
    var stack := base + [Bracket(true)] + s;
    if |s| == 0 {
      assert Pop(stack) == base && output + Reverse(s) == output;
    } else {
      assert Pop(stack) == base + [Bracket(true)] + Pop(s) && Top(stack) == Top(s);
      UnwindPending(output + [Top(s)], base, Pop(s));
      assert output + [Top(s)] + Reverse(Pop(s)) == output + Reverse(s);
    }
  }

  lemma {:induction false} FinishPending<T>(output: seq<Token<T>>, s: seq<Token<T>>)
    requires AllOperations(s)
    ensures Finish(State(output, s)) == Some(output + Reverse(s))
    decreases |s|
  {
    if |s| == 0 {
      assert output + Reverse(s) == output;
    } else {
      FinishPending(output + [Top(s)], Pop(s));
      assert output + [Top(s)] + Reverse(Pop(s)) == output + Reverse(s);
    }
  }

  /** The left operand of `op` is finished off by `op`, the stack below it is not. */
  lemma LeftOperandPops<T>(e: Expr<T>, op: Operator, stack: seq<Token<T>>)
    requires Parenthesised(e) && LeftFits(op, e) && Holds(stack, op)
    ensures AllPop(Pending(e), op) && Admits(stack, e)
  {
    forall i | 0 <= i < |Pending(e)| ensures Pending(e)[i].Operation? && Pops(Pending(e)[i].op, op) {
      PendingBinds(e, i);
    }
    if |stack| > 0 && Top(stack).Operation? && !Enclosed(e) {
      SameLevel(Top(stack).op, e.op);
      SameLevel(e.op, op);
    }
  }

  /** Operators of one precedence share their associativity. */
  lemma SameLevel(a: Operator, b: Operator)
    ensures ComparePrecedence(a, b) == 0 ==> IsLeftAssociative(a) == IsLeftAssociative(b)
  {
    RightAssociativeOnly(a);
    RightAssociativeOnly(b);
  }

  lemma ConvertCons<T>(token: Token<T>, rest: seq<Token<T>>, st: State<T>)
    ensures Convert([token] + rest, st) == var next := Step(st, token); if next.None? then None else Convert(rest, next.value)
  {
    assert ([token] + rest)[1..] == rest;
  }

  /** An operator arriving above the pending operators of its left operand. */
  lemma OperatorStep<T>(op: Operator, rest: seq<Token<T>>, output: seq<Token<T>>, stack: seq<Token<T>>, pending: seq<Token<T>>)
    requires AllPop(pending, op) && Holds(stack, op)
    ensures Convert([Operation(op)] + rest, State(output, stack + pending))
         == Convert(rest, State(output + Reverse(pending), stack + [Operation(op)]))
  {
    hide Convert, Drain;
    ConvertCons(Operation(op), rest, State(output, stack + pending));
    DrainPending(output, stack, pending, op);
  }

  /** A right bracket above the pending operators of the tree it closes. */
  lemma CloseStep<T>(rest: seq<Token<T>>, output: seq<Token<T>>, stack: seq<Token<T>>, pending: seq<Token<T>>)
    requires AllOperations(pending)
    ensures Convert([Bracket(false)] + rest, State(output, stack + [Bracket(true)] + pending))
         == Convert(rest, State(output + Reverse(pending), stack))
  {
    hide Convert, Unwind;
    ConvertCons(Bracket(false), rest, State(output, stack + [Bracket(true)] + pending));
    UnwindPending(output, stack, pending);
  }

  /** Reading a printed tree: its settled tokens are output, its pending
      operators are stacked, and the stack below is untouched. */
  lemma {:induction false} ConvertPrinted<T>(e: Expr<T>, rest: seq<Token<T>>, output: seq<Token<T>>, stack: seq<Token<T>>)
    requires Parenthesised(e) && Admits(stack, e)
    ensures Convert(Print(e) + rest, State(output, stack)) == Convert(rest, State(output + Settled(e), stack + Pending(e)))
    decreases e, 1
  {
    hide Convert, Pops, ComparePrecedence, IsLeftAssociative;
    match e
    case Unary(op, x) =>
      ConvertUnary(op, x, rest, output, stack);
    case Binary(op, l, r) =>
      ConvertBinary(op, l, r, rest, output, stack);
    case Paren(x) =>
      ConvertParen(x, rest, output, stack);
      assert stack + Pending(e) == stack;
    case _ =>
      ConvertCons(Print(e)[0], rest, State(output, stack));
      assert stack + Pending(e) == stack;
  }

  lemma {:induction false} ConvertUnary<T>(op: Operator, x: Expr<T>, rest: seq<Token<T>>, output: seq<Token<T>>, stack: seq<Token<T>>)
    requires Parenthesised(Unary(op, x)) && Holds(stack, op)
    ensures var e := Unary(op, x);
      Convert(Print(e) + rest, State(output, stack)) == Convert(rest, State(output + Settled(e), stack + Pending(e)))
    decreases Unary(op, x), 0
  {
    UnaryShape(op, x);
    assert stack + [] == stack && output + Reverse<Token<T>>([]) == output;
    hide Convert, Pops, ComparePrecedence, IsLeftAssociative, RightFits, Print, PostOrder, Settled, Pending, Reverse;
    assert [Operation(op)] + Print(x) + rest == [Operation(op)] + (Print(x) + rest);
    OperatorStep(op, Print(x) + rest, output, stack, []);
    OperandAdmitted(stack, op, x);
    ConvertPrinted(x, rest, output, stack + [Operation(op)]);
    assert stack + [Operation(op)] + Pending(x) == stack + ([Operation(op)] + Pending(x));
  }

  lemma UnaryShape<T>(op: Operator, x: Expr<T>)
    ensures Print(Unary(op, x)) == [Operation(op)] + Print(x)
    ensures Settled(Unary(op, x)) == Settled(x) && Pending(Unary(op, x)) == [Operation(op)] + Pending(x)
  {
  }

  lemma {:induction false} ConvertParen<T>(x: Expr<T>, rest: seq<Token<T>>, output: seq<Token<T>>, stack: seq<Token<T>>)
    requires Parenthesised(x)
    ensures Convert(Print(Paren(x)) + rest, State(output, stack)) == Convert(rest, State(output + PostOrder(x), stack))
    decreases Paren(x), 0
  {
    hide Convert, Pops, ComparePrecedence, IsLeftAssociative, Settled, Pending;
    var tail := [Bracket(false)] + rest;
    assert Print(Paren(x)) + rest == [Bracket(true)] + (Print(x) + tail);
    ConvertCons(Bracket(true), Print(x) + tail, State(output, stack));
    AdmittedInBracket(stack, x);
    ConvertPrinted(x, tail, output, stack + [Bracket(true)]);
    PendingOperations(x);
    CloseStep(rest, output + Settled(x), stack, Pending(x));
    SettledThenPending(x);
    assert output + Settled(x) + Reverse(Pending(x)) == output + PostOrder(x);
  }

  lemma AdmittedInBracket<T>(stack: seq<Token<T>>, x: Expr<T>)
    ensures Admits(stack + [Bracket(true)], x)
  {
  }

  lemma {:induction false} ConvertBinary<T>(op: Operator, l: Expr<T>, r: Expr<T>, rest: seq<Token<T>>, output: seq<Token<T>>, stack: seq<Token<T>>)
    requires Parenthesised(Binary(op, l, r)) && Holds(stack, op)
    ensures var e := Binary(op, l, r);
      Convert(Print(e) + rest, State(output, stack)) == Convert(rest, State(output + Settled(e), stack + Pending(e)))
    decreases Binary(op, l, r), 0
  {
    hide Convert, Pops, ComparePrecedence, IsLeftAssociative, Settled, Pending, LeftFits, RightFits;
    var tail := [Operation(op)] + (Print(r) + rest);
    assert Print(Binary(op, l, r)) + rest == Print(l) + tail;
    LeftOperandPops(l, op, stack);
    ConvertPrinted(l, tail, output, stack);
    OperatorStep(op, Print(r) + rest, output + Settled(l), stack, Pending(l));
    SettledThenPending(l);
    assert output + Settled(l) + Reverse(Pending(l)) == output + PostOrder(l);
    OperandAdmitted(stack, op, r);
    ConvertPrinted(r, rest, output + PostOrder(l), stack + [Operation(op)]);
    BinaryParts(op, l, r);
    assert stack + [Operation(op)] + Pending(r) == stack + Pending(Binary(op, l, r));
    assert output + PostOrder(l) + Settled(r) == output + Settled(Binary(op, l, r));
  }

  lemma BinaryParts<T>(op: Operator, l: Expr<T>, r: Expr<T>)
    ensures Pending(Binary(op, l, r)) == [Operation(op)] + Pending(r)
    ensures Settled(Binary(op, l, r)) == PostOrder(l) + Settled(r)
  {
  }

  lemma OperandAdmitted<T>(stack: seq<Token<T>>, op: Operator, e: Expr<T>)
    requires RightFits(op, e)
    ensures Admits(stack + [Operation(op)], e)
  {
    if !Enclosed(e) {
      SameLevel(op, e.op);
    }
  }

  lemma {:induction false} PendingOperations<T>(e: Expr<T>)
    ensures AllOperations(Pending(e))
  {
    match e
    case Unary(op, x) => PendingOperations(x);
    case Binary(op, l, r) => PendingOperations(r);
    case _ =>
  }

  /** A tree printed with the required parentheses converts to its post-order listing. */
  lemma PostfixOfPrinted<T>(e: Expr<T>)
    requires Parenthesised(e)
    ensures Postfix(Print(e)) == Some(PostOrder(e))
  {
    hide Convert, Print, PostOrder, Settled, Pending, Reverse, Finish;
    ConvertPrinted(e, [], [], []);
    assert Print(e) + [] == Print(e);
    ConvertEmpty(State([] + Settled(e), [] + Pending(e)));
    assert [] + Settled(e) == Settled(e) && [] + Pending(e) == Pending(e);
    PendingOperations(e);
    FinishPending(Settled(e), Pending(e));
    SettledThenPending(e);
  }

  lemma ConvertEmpty<T>(st: State<T>)
    ensures Convert([], st) == Finish(st)
  {
  }
}
