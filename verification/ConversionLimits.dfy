/** For which trees the conversion is right, and what becomes of adjacent unary operators. */
module ConversionLimits {
  import opened Options
  import opened ExpressionTokens
  import opened ShuntingYard

  // Output is never taken back.

  lemma {:induction false} OutputGrows<T>(tokens: seq<Token<T>>, st: State<T>)
    ensures Convert(tokens, st).Some? ==> |st.output| <= |Convert(tokens, st).value| && Convert(tokens, st).value[..|st.output|] == st.output
  {
    if |tokens| == 0 {
      FinishGrows(st);
    } else {
      var next := Step(st, tokens[0]);
      if tokens[0].Operation? {
        DrainGrows(st, tokens[0].op);
      } else if tokens[0] == Bracket(false) {
        UnwindGrows(st);
      }
      if next.Some? {
        OutputGrows(tokens[1..], next.value);
      }
    }
  }

  ghost predicate Extends<T>(s: seq<T>, t: seq<T>) {
    |s| <= |t| && t[..|s|] == s
  }

  lemma {:induction false} FinishGrows<T>(st: State<T>)
    ensures Finish(st).Some? ==> Extends(st.output, Finish(st).value)
    decreases |st.stack|
  {
    if |st.stack| > 0 {
      FinishGrows(State(st.output + [Top(st.stack)], Pop(st.stack)));
    }
  }

  lemma {:induction false} DrainGrows<T>(st: State<T>, current: Operator)
    ensures Extends(st.output, Drain(st, current).output)
    decreases |st.stack|
  {
    if |st.stack| > 0 {
      DrainGrows(State(st.output + [Top(st.stack)], Pop(st.stack)), current);
    }
  }

  lemma {:induction false} UnwindGrows<T>(st: State<T>)
    ensures Unwind(st).Some? ==> Extends(st.output, Unwind(st).value.output)
    decreases |st.stack|
  {
    if |st.stack| > 0 {
      UnwindGrows(State(st.output + [Top(st.stack)], Pop(st.stack)));
    }
  }

  predicate IsOperand<T>(token: Token<T>) {
    token.Number? || token.Variable? || token.Function?
  }

  /** What can be output first while a tree is read. */
  predicate IsLeading<T>(token: Token<T>) {
    IsOperand(token) || (token.Operation? && IsUnary(token.op))
  }

  lemma {:induction false} ReverseAt<T>(s: seq<T>, i: nat)
    requires i < |s|
    ensures |Reverse(s)| == |s| && Reverse(s)[i] == s[|s| - 1 - i]
  {
    if |s| > 1 {
      ReverseAt(Pop(s), if i == 0 then 0 else i - 1);
    }
  }

  lemma UnaryBinds(top: Operator, current: Operator)
    ensures IsUnary(top) && !IsUnary(current) ==> Pops(top, current)
    ensures !IsUnary(top) && IsUnary(current) ==> !Pops(top, current)
    ensures IsUnary(top) && IsUnary(current) ==> Pops(top, current)
  {
    hide *;
    RightAssociativeOnly(top);
    RightAssociativeOnly(current);
    LevelPops(top, current);
    HigherLevelPops(top, current);
  }

  lemma HigherLevelPops(top: Operator, current: Operator)
    ensures PrecedenceBits(top) > PrecedenceBits(current) ==> Pops(top, current)
  {
    hide Code, PrecedenceBits, IsLeftAssociative;
  }

  lemma LevelPops(top: Operator, current: Operator)
    ensures PrecedenceBits(top) < PrecedenceBits(current) ==> !Pops(top, current)
    ensures PrecedenceBits(top) == PrecedenceBits(current) && IsLeftAssociative(current) ==> Pops(top, current)
  {
    hide Code, PrecedenceBits, IsLeftAssociative;
  }

  lemma {:induction false} PostOrderStarts<T>(e: Expr<T>)
    ensures PostOrder(e) != [] && IsOperand(PostOrder(e)[0])
  {
    match e
    case Unary(op, x) => PostOrderStarts(x);
    case Binary(op, l, r) => PostOrderStarts(l);
    case Paren(x) => PostOrderStarts(x);
    case _ =>
  }

  /** An incoming operator pops the top `j` tokens, all of which it may pop, and no more. */
  lemma {:induction false} DrainShape<T>(output: seq<Token<T>>, stack: seq<Token<T>>, op: Operator) returns (j: nat)
    ensures j <= |stack| && AllPop(stack[|stack| - j..], op) && Holds(stack[..|stack| - j], op)
    ensures Drain(State(output, stack), op) == State(output + Reverse(stack[|stack| - j..]), stack[..|stack| - j])
    decreases |stack|
  {
    DrainOnce(output, stack, op);
    hide Pops, Reverse, Drain;
    if |stack| > 0 && Top(stack).Operation? && Pops(Top(stack).op, op) {
      var k := DrainShape(output + [Top(stack)], Pop(stack), op);
      j := k + 1;
      PoppedOneMore(output, stack, k, op);
    } else {
      j := 0;
      NothingPopped(output, stack);
    }
  }

  lemma DrainOnce<T>(output: seq<Token<T>>, stack: seq<Token<T>>, op: Operator)
    ensures Drain(State(output, stack), op)
         == if |stack| > 0 && Top(stack).Operation? && Pops(Top(stack).op, op)
            then Drain(State(output + [Top(stack)], Pop(stack)), op) else State(output, stack)
  {
  }

  lemma NothingPopped<X>(output: seq<X>, stack: seq<X>)
    ensures stack[..|stack|] == stack && stack[|stack|..] == [] && output + Reverse(stack[|stack|..]) == output
  {
  }

  lemma PoppedOneMore<T>(output: seq<Token<T>>, stack: seq<Token<T>>, k: nat, op: Operator)
    requires k < |stack| && AllPop(Pop(stack)[|stack| - 1 - k..], op) && Top(stack).Operation? && Pops(Top(stack).op, op)
    ensures Pop(stack)[..|stack| - 1 - k] == stack[..|stack| - (k + 1)]
    ensures output + [Top(stack)] + Reverse(Pop(stack)[|stack| - 1 - k..]) == output + Reverse(stack[|stack| - (k + 1)..])
    ensures AllPop(stack[|stack| - (k + 1)..], op)
  {
    hide Pops;
    var popped, low := stack[|stack| - (k + 1)..], Pop(stack)[|stack| - 1 - k..];
    assert Pop(popped) == low && Top(popped) == Top(stack);
    assert output + [Top(stack)] + Reverse(low) == output + ([Top(stack)] + Reverse(low));
    assert popped == low + [Top(stack)];
  }

  /** The first token output while a tree is read is an operand or a unary operator. */
  lemma {:induction false} FirstOutput<T>(e: Expr<T>, rest: seq<Token<T>>, output: seq<Token<T>>, stack: seq<Token<T>>)
    requires WellFormed(e) && Convert(Print(e) + rest, State(output, stack)).Some?
    ensures var r := Convert(Print(e) + rest, State(output, stack)).value;
      Extends(output, r) && |output| < |r| && IsLeading(r[|output|])
    decreases e
  {
    hide Convert, Pops, IsUnary, Drain;
    match e
    case Unary(op, x) =>
      assert Print(e) + rest == [Operation(op)] + (Print(x) + rest);
      FirstUnary(op, x, rest, output, stack);
      if Drain(State(output, stack), op) == State(output, stack) {
        FirstOutput(x, rest, output, stack + [Operation(op)]);
      }
    case Binary(op, l, r) =>
      assert Print(e) + rest == Print(l) + ([Operation(op)] + Print(r) + rest);
      FirstOutput(l, [Operation(op)] + Print(r) + rest, output, stack);
    case Paren(x) =>
      assert Print(e) + rest == [Bracket(true)] + (Print(x) + ([Bracket(false)] + rest));
      ConvertCons(Bracket(true), Print(x) + ([Bracket(false)] + rest), State(output, stack));
      FirstOutput(x, [Bracket(false)] + rest, output, stack + [Bracket(true)]);
    case _ =>
      ConvertCons(Print(e)[0], rest, State(output, stack));
      GrownBy(rest, output, PostOrder(e), stack);
  }

  /** What has been output stands at the start of the result. */
  lemma GrownBy<T>(tokens: seq<Token<T>>, output: seq<Token<T>>, more: seq<Token<T>>, stack: seq<Token<T>>)
    requires more != [] && Convert(tokens, State(output + more, stack)).Some?
    ensures var r := Convert(tokens, State(output + more, stack)).value;
      Extends(output, r) && |output| < |r| && r[|output|] == more[0] && Extends(output + more, r)
  {
    hide Convert;
    OutputGrows(tokens, State(output + more, stack));
    var r := Convert(tokens, State(output + more, stack)).value;
    assert r[..|output + more|][..|output|] == output && r[..|output + more|][|output|] == more[0];
  }

  /** A unary operator pops nothing, or the first token it pops is unary. */
  lemma FirstUnary<T>(op: Operator, x: Expr<T>, rest: seq<Token<T>>, output: seq<Token<T>>, stack: seq<Token<T>>)
    requires IsUnary(op) && Convert([Operation(op)] + (Print(x) + rest), State(output, stack)).Some?
    ensures Drain(State(output, stack), op) == State(output, stack) ==>
      Convert([Operation(op)] + (Print(x) + rest), State(output, stack)) == Convert(Print(x) + rest, State(output, stack + [Operation(op)]))
    ensures Drain(State(output, stack), op) != State(output, stack) ==>
      var r := Convert([Operation(op)] + (Print(x) + rest), State(output, stack)).value;
      Extends(output, r) && |output| < |r| && r[|output|].Operation? && IsUnary(r[|output|].op)
  {
    hide Convert, Pops, IsUnary, Drain;
    ConvertCons(Operation(op), Print(x) + rest, State(output, stack));
    var j := DrainShape(output, stack, op);
    var popped, left := stack[|stack| - j..], stack[..|stack| - j];
    if j == 0 {
      assert left == stack && output + Reverse(popped) == output;
    } else {
      ReverseAt(popped, 0);
      UnaryBinds(popped[j - 1].op, op);
      GrownBy(Print(x) + rest, output, Reverse(popped), left + [Operation(op)]);
    }
  }

  /** If an operator and its right operand are converted as they should be, the
      operator has popped the pending operators of its left operand and no others. */
  lemma OperatorFits<T>(op: Operator, r: Expr<T>, rest: seq<Token<T>>, output: seq<Token<T>>, stack: seq<Token<T>>,
                        pending: seq<Token<T>>, w: seq<Token<T>>)
    requires WellFormed(r) && !IsUnary(op) && AllOperations(pending) && w != [] && IsOperand(w[0])
    requires Convert([Operation(op)] + (Print(r) + rest), State(output, stack + pending)) == Some(output + Reverse(pending) + w)
    ensures AllPop(pending, op) && Holds(stack, op)
  {
    hide Convert, Pops, IsUnary, Drain, Reverse;
    var s := stack + pending;
    ConvertCons(Operation(op), Print(r) + rest, State(output, s));
    var j := DrainShape(output, s, op);
    var popped, left := s[|s| - j..], s[..|s| - j];
    var res := output + Reverse(pending) + w;
    FirstOutput(r, rest, output + Reverse(popped), left + [Operation(op)]);
    ReverseLength(popped);
    ReverseLength(pending);
    if j < |pending| {
      ReverseAt(pending, j);
      assert res[|output| + j] == pending[|pending| - 1 - j] == Top(left);
      UnaryBinds(Top(left).op, op);
    } else if j > |pending| {
      ReverseAt(popped, |pending|);
      PrefixAt(output + Reverse(popped), res, |output| + |pending|);
      assert false;
    } else {
      assert popped == pending && left == stack;
    }
  }

  lemma PrefixAt<X>(s: seq<X>, t: seq<X>, i: nat)
    requires Extends(s, t) && i < |s|
    ensures t[i] == s[i]
  {
    assert t[..|s|][i] == t[i];
  }

  lemma {:induction false} ReverseLength<T>(s: seq<T>)
    ensures |Reverse(s)| == |s|
  {
    if |s| > 0 {
      ReverseLength(Pop(s));
    }
  }

  /** If a printed tree is converted to its post-order listing, whatever else
      follows it, then it has the parentheses it needs and fits where it stands. */
  lemma {:induction false} ConversionNeeds<T>(e: Expr<T>, rest: seq<Token<T>>, output: seq<Token<T>>, stack: seq<Token<T>>, w: seq<Token<T>>)
    requires WellFormed(e) && Convert(Print(e) + rest, State(output, stack)) == Some(output + PostOrder(e) + w)
    ensures Parenthesised(e) && Admits(stack, e)
    decreases e, 1
  {
    hide Convert, Pops, IsUnary, Drain, ComparePrecedence, IsLeftAssociative;
    match e
    case Unary(op, x) =>
      UnaryNeeds(op, x, rest, output, stack, w);
    case Binary(op, l, r) =>
      BinaryNeeds(op, l, r, rest, output, stack, w);
    case Paren(x) =>
      assert Print(e) + rest == [Bracket(true)] + (Print(x) + ([Bracket(false)] + rest));
      ConvertCons(Bracket(true), Print(x) + ([Bracket(false)] + rest), State(output, stack));
      ConversionNeeds(x, [Bracket(false)] + rest, output, stack + [Bracket(true)], w);
    case _ =>
  }

  lemma {:induction false} UnaryNeeds<T>(op: Operator, x: Expr<T>, rest: seq<Token<T>>, output: seq<Token<T>>, stack: seq<Token<T>>, w: seq<Token<T>>)
    requires WellFormed(Unary(op, x)) && Convert(Print(Unary(op, x)) + rest, State(output, stack)) == Some(output + PostOrder(Unary(op, x)) + w)
    ensures Parenthesised(Unary(op, x)) && Holds(stack, op)
    decreases Unary(op, x), 0
  {
    hide Convert, Pops, IsUnary, Drain, ComparePrecedence, IsLeftAssociative;
    var a: Token<T> := Operation(op);
    assert Print(Unary(op, x)) + rest == [a] + (Print(x) + rest);
    assert output + (PostOrder(x) + [a]) + w == output + PostOrder(x) + ([a] + w);
    FirstUnary(op, x, rest, output, stack);
    PostOrderStarts(x);
    assert (output + PostOrder(x) + ([a] + w))[|output|] == PostOrder(x)[0];
    var j := DrainShape(output, stack, op);
    assert j == 0 ==> stack[..|stack|] == stack;
    ConversionNeeds(x, rest, output, stack + [a], [a] + w);
    OperandFits(stack, op, x);
  }

  lemma {:induction false} BinaryNeeds<T>(op: Operator, l: Expr<T>, r: Expr<T>, rest: seq<Token<T>>, output: seq<Token<T>>, stack: seq<Token<T>>, w: seq<Token<T>>)
    requires WellFormed(Binary(op, l, r))
    requires Convert(Print(Binary(op, l, r)) + rest, State(output, stack)) == Some(output + PostOrder(Binary(op, l, r)) + w)
    ensures Parenthesised(Binary(op, l, r)) && Holds(stack, op)
    decreases Binary(op, l, r), 0
  {
    BinaryTokens(op, l, r, rest, output, w);
    hide Convert, Pops, IsUnary, Drain, ComparePrecedence, IsLeftAssociative, LeftFits, RightFits, Print, PostOrder, Settled, Pending;
    var a: Token<T> := Operation(op);
    var tail, w' := [a] + (Print(r) + rest), PostOrder(r) + ([a] + w);
    ConversionNeeds(l, tail, output, stack, w');
    ConvertPrinted(l, tail, output, stack);
    SettledThenPending(l);
    PendingOperations(l);
    PostOrderStarts(r);
    assert output + PostOrder(l) + w' == output + Settled(l) + Reverse(Pending(l)) + w';
    OperatorFits(op, r, rest, output + Settled(l), stack, Pending(l), w');
    OperatorStep(op, Print(r) + rest, output + Settled(l), stack, Pending(l));
    assert output + PostOrder(l) + w' == output + Settled(l) + Reverse(Pending(l)) + PostOrder(r) + ([a] + w);
    ConversionNeeds(r, rest, output + Settled(l) + Reverse(Pending(l)), stack + [a], [a] + w);
    OperandFits(stack, op, r);
    LeftOperandFits(l, op);
  }

  lemma BinaryTokens<T>(op: Operator, l: Expr<T>, r: Expr<T>, rest: seq<Token<T>>, output: seq<Token<T>>, w: seq<Token<T>>)
    ensures Print(Binary(op, l, r)) + rest == Print(l) + ([Operation(op)] + (Print(r) + rest))
    ensures output + PostOrder(Binary(op, l, r)) + w == output + PostOrder(l) + (PostOrder(r) + ([Operation(op)] + w))
  {
    BinaryListing(op, l, r);
    hide *;
    FlattenTokens(Print(l), Print(r), rest, Operation(op));
    FlattenListing(output, PostOrder(l), PostOrder(r), w, Operation(op));
  }

  lemma BinaryListing<T>(op: Operator, l: Expr<T>, r: Expr<T>)
    ensures Print(Binary(op, l, r)) == Print(l) + [Operation(op)] + Print(r)
    ensures PostOrder(Binary(op, l, r)) == PostOrder(l) + PostOrder(r) + [Operation(op)]
  {
  }

  lemma FlattenTokens<X>(s: seq<X>, t: seq<X>, u: seq<X>, a: X)
    ensures s + [a] + t + u == s + ([a] + (t + u))
  {
  }

  lemma FlattenListing<X>(o: seq<X>, s: seq<X>, t: seq<X>, w: seq<X>, a: X)
    ensures o + (s + t + [a]) + w == o + s + (t + ([a] + w))
  {
  }

  lemma OperandFits<T>(stack: seq<Token<T>>, op: Operator, e: Expr<T>)
    requires Admits(stack + [Operation(op)], e)
    ensures RightFits(op, e)
  {
    if !Enclosed(e) {
      SameLevel(op, e.op);
    }
  }

  lemma LeftOperandFits<T>(e: Expr<T>, op: Operator)
    requires AllPop(Pending(e), op)
    ensures LeftFits(op, e)
  {
    if !Enclosed(e) {
      assert Pending(e)[0] == Operation(e.op);
    }
  }

  /** A printed tree converts to its post-order listing exactly when precedence
      and associativity leave no parentheses missing. */
  lemma ConvertsExactly<T>(e: Expr<T>)
    requires WellFormed(e)
    ensures Postfix(Print(e)) == Some(PostOrder(e)) <==> Parenthesised(e)
  {
    if Parenthesised(e) {
      PostfixOfPrinted(e);
    } else if Postfix(Print(e)) == Some(PostOrder(e)) {
      hide Convert;
      assert Print(e) + [] == Print(e) && [] + PostOrder(e) + [] == PostOrder(e);
      ConversionNeeds(e, [], [], [], []);
    }
  }

  // Adjacent unary operators.

  /** In every state with no third unary operator on top, the first of two
      adjacent unary operators is output when the second is read: behind whatever
      was output before, ahead of the operand that follows. */
  lemma AdjacentUnaryMoves<T>(first: Operator, second: Operator, rest: seq<Token<T>>, output: seq<Token<T>>, stack: seq<Token<T>>)
    requires IsUnary(first) && IsUnary(second) && Holds(stack, first)
    ensures Convert([Operation(first)] + ([Operation(second)] + rest), State(output, stack))
         == Convert(rest, State(output + [Operation(first)], stack + [Operation(second)]))
  {
    hide Convert, Pops, IsUnary;
    var b: Token<T>, c: Token<T> := Operation(first), Operation(second);
    UnaryBinds(first, second);
    SecondHolds(stack, first, second);
    assert stack + [] == stack && output + Reverse<Token<T>>([]) == output;
    OperatorStep(first, [c] + rest, output, stack, []);
    assert Reverse([b]) == [b] by { assert Pop([b]) == []; }
    OperatorStep(second, rest, output, stack, [b]);
  }

  lemma SecondHolds<T>(stack: seq<Token<T>>, first: Operator, second: Operator)
    requires IsUnary(first) && IsUnary(second) && Holds(stack, first)
    ensures Holds(stack, second)
  {
    hide Pops, IsUnary;
    if |stack| > 0 && Top(stack).Operation? {
      UnaryBinds(Top(stack).op, first);
      UnaryBinds(Top(stack).op, second);
    }
  }

  /** Wherever an operand and its binary operator may stand, the first of two
      adjacent unary operators behind them is applied to the left operand:
      `1 + - - 2` reads as `(-1) + (-2)`. */
  lemma AdjacentUnaryRegroups<T>(op: Operator, first: Operator, second: Operator, l: Expr<T>, r: Expr<T>,
                                 rest: seq<Token<T>>, output: seq<Token<T>>, stack: seq<Token<T>>)
    requires !IsUnary(op) && IsUnary(first) && IsUnary(second) && Holds(stack, op)
    requires Parenthesised(l) && LeftFits(op, l) && Parenthesised(r) && Enclosed(r)
    ensures Convert(Print(Binary(op, l, Unary(first, Unary(second, r)))) + rest, State(output, stack))
         == Convert(Print(Binary(op, Paren(Unary(first, Paren(l))), Unary(second, r))) + rest, State(output, stack))
  {
    hide Convert, Pops, IsUnary, LeftFits, RightFits, Settled, ComparePrecedence, IsLeftAssociative, Print, PostOrder;
    var a: Token<T>, b: Token<T>, c: Token<T> := Operation(op), Operation(first), Operation(second);
    PrintedUnaries(op, first, second, l, r, rest);
    LeftOperandPops(l, op, stack);
    ConvertPrinted(l, [a] + ([b] + ([c] + (Print(r) + rest))), output, stack);
    OperatorStep(op, [b] + ([c] + (Print(r) + rest)), output + Settled(l), stack, Pending(l));
    SettledThenPending(l);
    assert output + Settled(l) + Reverse(Pending(l)) == output + PostOrder(l);
    UnaryBinds(op, first);
    AdjacentUnaryMoves(first, second, Print(r) + rest, output + PostOrder(l), stack + [a]);
    ConvertPrinted(r, rest, output + PostOrder(l) + [b], stack + [a] + [c]);
    RegroupedFits(op, first, second, l, r);
    ConvertPrinted(Binary(op, Paren(Unary(first, Paren(l))), Unary(second, r)), rest, output, stack);
    assert stack + [a] + [c] + [] == stack + ([a] + ([c] + []));
    assert output + PostOrder(l) + [b] + PostOrder(r) == output + (PostOrder(l) + [b] + PostOrder(r));
  }

  lemma PrintedUnaries<T>(op: Operator, first: Operator, second: Operator, l: Expr<T>, r: Expr<T>, rest: seq<Token<T>>)
    ensures Print(Binary(op, l, Unary(first, Unary(second, r)))) + rest
         == Print(l) + ([Operation(op)] + ([Operation(first)] + ([Operation(second)] + (Print(r) + rest))))
  {
    var b: Token<T>, c: Token<T> := Operation(first), Operation(second);
    assert Print(Unary(first, Unary(second, r))) == [b] + ([c] + Print(r)) by { UnaryShape(first, Unary(second, r)); UnaryShape(second, r); }
    hide Print;
    RegroupTokens(Print(l), Print(r), rest, Operation(op), b, c);
  }

  lemma RegroupTokens<X>(s: seq<X>, t: seq<X>, u: seq<X>, a: X, b: X, c: X)
    ensures s + [a] + ([b] + ([c] + t)) + u == s + ([a] + ([b] + ([c] + (t + u))))
  {
  }

  /** The regrouped tree is fully parenthesised, and what reading it leaves. */
  lemma RegroupedFits<T>(op: Operator, first: Operator, second: Operator, l: Expr<T>, r: Expr<T>)
    requires !IsUnary(op) && IsUnary(first) && IsUnary(second) && Parenthesised(l) && Parenthesised(r) && Enclosed(r)
    ensures var e := Binary(op, Paren(Unary(first, Paren(l))), Unary(second, r));
      && Parenthesised(e) && Settled(r) == PostOrder(r) && Pending(r) == []
      && Settled(e) == PostOrder(l) + [Operation(first)] + PostOrder(r)
      && Pending(e) == [Operation(op)] + ([Operation(second)] + [])
  {
    SecondFits(op, second, r);
    hide IsLeftAssociative, IsUnary, ComparePrecedence;
    var left := Paren(Unary(first, Paren(l)));
    assert PostOrder(Unary(first, Paren(l))) == PostOrder(l) + [Operation(first)];
    assert Parenthesised(Unary(first, Paren(l)));
    assert PostOrder(left) == PostOrder(l) + [Operation(first)] && Parenthesised(left);
  }

  lemma SecondFits<T>(op: Operator, second: Operator, r: Expr<T>)
    requires !IsUnary(op) && IsUnary(second) && Parenthesised(r) && Enclosed(r)
    ensures RightFits(op, Unary(second, r)) && Parenthesised(Unary(second, r))
    ensures Settled(r) == PostOrder(r) && Settled(Unary(second, r)) == PostOrder(r)
  {
    hide Code, PrecedenceBits, IsLeftAssociative, IsUnary;
    RightAssociativeOnly(op);
    RightAssociativeOnly(second);
  }
}
