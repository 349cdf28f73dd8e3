/** The stack machine and the evaluator around it. */
module MathEvaluation {
  import opened Options
  import opened ExpressionTokens
  import opened ShuntingYard
  import opened ConversionLimits
  import opened Powers
  import opened Words
  import Primality

  /** The operations of the number type `T` the evaluator is instantiated with.
      The 64-bit casts go through `signedBits` and `unsignedBits`; a shift by
      64 or more, or by a negative amount, is whatever `wildShift` says. */
  datatype Arithmetic<!T> = Arithmetic(
    zero: T,
    add: (T, T) -> T,
    sub: (T, T) -> T,
    mul: (T, T) -> T,
    div: (T, T) -> T,
    rem: (T, T) -> T,
    pow: (T, T) -> T,
    negate: T -> T,
    less: (T, T) -> bool,
    equal: (T, T) -> bool,
    signedBits: T -> Word,
    unsignedBits: T -> Word,
    fromSigned: Word -> T,
    fromUnsigned: Word -> T,
    wildShift: (Word, Word) -> Word)
  {
    function FromBool(c: bool): T {
      fromSigned(if c then 1 else 0)
    }

    function ShiftedLeft(x: Word, amount: Word): Word {
      if amount < 64 then Words.ShiftLeft(x, amount) else wildShift(x, amount)
    }

    function ShiftedRight(x: Word, amount: Word): Word {
      if amount < 64 then Words.ShiftRight(x, amount) else wildShift(x, amount)
    }
  }

  datatype Result<+T> = Ok(value: T) | Err(message: string)

  function Apply<T>(a: Arithmetic<T>, op: Operator, l: T, r: T): Result<T> {
    var x, y := a.signedBits(l), a.signedBits(r);
    match op
    case And => Ok(a.FromBool(x != 0 && y != 0))
    case Or => Ok(a.FromBool(x != 0 || y != 0))
    case Xor => Ok(a.FromBool(Signed(BitXor(x, y)) > 0))
    case GreaterThan => Ok(a.FromBool(a.less(r, l)))
    case LessThan => Ok(a.FromBool(a.less(l, r)))
    case GreaterThanOrEquals => Ok(a.FromBool(a.less(r, l) || a.equal(l, r)))
    case LessThanOrEquals => Ok(a.FromBool(a.less(l, r) || a.equal(l, r)))
    case Equals => Ok(a.FromBool(a.equal(l, r)))
    case NotEquals => Ok(a.FromBool(!a.equal(l, r)))
    case Not => Ok(a.FromBool(y == 0))
    case BitwiseOr => Ok(a.fromSigned(BitOr(x, y)))
    case BitwiseXor => Ok(a.fromSigned(BitXor(x, y)))
    case BitwiseAnd => Ok(a.fromSigned(BitAnd(x, y)))
    case BitwiseNot => Ok(a.fromSigned(BitNot(y)))
    case ShiftLeft => Ok(a.fromSigned(a.ShiftedLeft(x, y)))
    case ShiftRight => Ok(a.fromSigned(a.ShiftedRight(x, y)))
    case Addition => Ok(a.add(l, r))
    case Subtraction => Ok(a.sub(l, r))
    case Multiplication => Ok(a.mul(l, r))
    case Division => if a.equal(r, a.zero) then Err("Division by Zero!") else Ok(a.div(l, r))
    case Modulus => if a.equal(r, a.zero) then Err("Division by Zero!") else Ok(a.rem(l, r))
    case Exponentiation => Ok(a.pow(l, r))
    case Combine =>
      var low := a.unsignedBits(r);
      Ok(a.fromUnsigned(BitOr(a.ShiftedLeft(a.unsignedBits(l), BitWidth(low)), low)))
    case Plus => Ok(r)
    case Minus => Ok(a.negate(r))
    case Invalid => Err("Invalid operator!")
    case Assign => Err("Invalid operator!")
  }

  /** A named value, and a function with the argument counts it takes. */
  datatype NamedValue<T> = NamedValue(value: T, isConstant: bool)
  datatype UserFunction<!T> = UserFunction(minArgs: nat, maxArgs: nat, body: seq<T> -> Option<T>)

  datatype Environment<!T> = Environment(
    arithmetic: Arithmetic<T>, variables: map<string, NamedValue<T>>, functions: map<string, UserFunction<T>>)

  predicate TakesArguments<T>(f: UserFunction<T>, arguments: seq<T>) {
    f.minArgs <= |arguments| <= f.maxArgs
  }

  function CallFunction<T>(f: UserFunction<T>, arguments: seq<T>): Option<T> {
    if TakesArguments(f, arguments) then f.body(arguments) else None
  }

  /** The machine's result and the error it last reported. */
  datatype Outcome<+T> = Outcome(value: Option<T>, error: Option<string>)

  /** The stack machine on postfix tokens. A function without a result pushes nothing. */
  function Run<T>(env: Environment<T>, tokens: seq<Token<T>>, stack: seq<T>, error: Option<string>): Outcome<T>
    decreases |tokens|
  {
    if |tokens| == 0 then
      if |stack| == 0 then Outcome(None, error)
      else if |stack| > 1 then Outcome(None, Some("Undigested input left!"))
      else Outcome(Some(stack[0]), error)
    else
      var rest := tokens[1..];
      match tokens[0]
      case Number(n) => Run(env, rest, stack + [n], error)
      case Operation(op) =>
        var operands := if IsUnary(op) then 1 else 2;
        if |stack| < operands then Outcome(None, Some("Not enough operands for operator!"))
        else
          var left := if IsUnary(op) then env.arithmetic.zero else stack[|stack| - 2];
          (match Apply(env.arithmetic, op, left, Top(stack))
           case Ok(v) => Run(env, rest, stack[..|stack| - operands] + [v], error)
           case Err(message) => Outcome(None, Some(message)))
      case Variable(x) =>
        if x in env.variables then Run(env, rest, stack + [env.variables[x].value], error)
        else Outcome(None, Some("Unknown variable!"))
      case Function(f, args) =>
        if f !in env.functions then Outcome(None, Some("Unknown function called!"))
        else
          var result := CallFunction(env.functions[f], args);
          var error' := if TakesArguments(env.functions[f], args) then error else Some("Invalid number of function arguments!");
          Run(env, rest, if result.None? then stack else stack + [result.value], error')
      case Bracket(_) => Outcome(None, Some("Parenthesis in postfix expression!"))
  }

  /** The value of a tree; none when the operation of some node fails. */
  function Meaning<T>(env: Environment<T>, e: Expr<T>): Option<T> {
    match e
    case Literal(n) => Some(n)
    case Name(x) => if x in env.variables then Some(env.variables[x].value) else None
    case Call(f, args) => if f in env.functions then CallFunction(env.functions[f], args) else None
    case Unary(op, x) =>
      var v := Meaning(env, x);
      if v.None? then None else Succeeded(Apply(env.arithmetic, op, env.arithmetic.zero, v.value))
    case Binary(op, l, r) =>
      var u, v := Meaning(env, l), Meaning(env, r);
      if u.None? || v.None? then None else Succeeded(Apply(env.arithmetic, op, u.value, v.value))
    case Paren(x) => Meaning(env, x)
  }

  function Succeeded<T>(r: Result<T>): Option<T> {
    if r.Ok? then Some(r.value) else None
  }

  // A tree with a value.

  lemma RunCons<T>(env: Environment<T>, token: Token<T>, rest: seq<Token<T>>)
    ensures ([token] + rest)[0] == token && ([token] + rest)[1..] == rest && |[token] + rest| > 0
  {
  }

  lemma {:induction false} RunValue<T>(env: Environment<T>, e: Expr<T>, rest: seq<Token<T>>, stack: seq<T>, error: Option<string>)
    requires WellFormed(e) && Meaning(env, e).Some?
    ensures Run(env, PostOrder(e) + rest, stack, error) == Run(env, rest, stack + [Meaning(env, e).value], error)
    decreases e, 1
  {
    hide Apply, IsUnary;
    match e
    case Unary(op, x) =>
      var v := Meaning(env, x).value;
      assert PostOrder(e) + rest == PostOrder(x) + ([Operation(op)] + rest);
      RunValue(env, x, [Operation(op)] + rest, stack, error);
      RunOperation(env, op, rest, stack, [v], error);
    case Binary(op, l, r) =>
      RunBinaryValue(env, op, l, r, rest, stack, error);
    case Paren(x) => RunValue(env, x, rest, stack, error);
    case _ => RunCons(env, PostOrder(e)[0], rest);
  }

  lemma {:induction false} RunBinaryValue<T>(env: Environment<T>, op: Operator, l: Expr<T>, r: Expr<T>, rest: seq<Token<T>>, stack: seq<T>, error: Option<string>)
    requires WellFormed(Binary(op, l, r)) && Meaning(env, Binary(op, l, r)).Some?
    ensures Run(env, PostOrder(Binary(op, l, r)) + rest, stack, error)
         == Run(env, rest, stack + [Meaning(env, Binary(op, l, r)).value], error)
    decreases Binary(op, l, r), 0
  {
    hide Apply, IsUnary, Run;
    var u, v := Meaning(env, l).value, Meaning(env, r).value;
    var tail := [Operation(op)] + rest;
    assert PostOrder(l) + PostOrder(r) + [Operation(op)] + rest == PostOrder(l) + (PostOrder(r) + tail);
    RunValue(env, l, PostOrder(r) + tail, stack, error);
    RunValue(env, r, tail, stack + [u], error);
    assert stack + [u] + [v] == stack + [u, v];
    RunOperation(env, op, rest, stack, [u, v], error);
  }

  /** One operator on the operands just pushed. */
  lemma RunOperation<T>(env: Environment<T>, op: Operator, rest: seq<Token<T>>, stack: seq<T>, operands: seq<T>, error: Option<string>)
    requires |operands| == if IsUnary(op) then 1 else 2
    ensures var result := Apply(env.arithmetic, op, if IsUnary(op) then env.arithmetic.zero else operands[0], Top(operands));
      Run(env, [Operation(op)] + rest, stack + operands, error)
      == if result.Ok? then Run(env, rest, stack + [result.value], error) else Outcome(None, Some(result.message))
  {
    hide Apply, IsUnary;
    RunCons(env, Operation(op), rest);
    assert (stack + operands)[..|stack|] == stack;
    assert Top(stack + operands) == Top(operands);
  }

  // A tree without a value.

  /** How many values more a token leaves on the stack than it takes. */
  function Effect<T>(env: Environment<T>, token: Token<T>): int {
    match token
    case Operation(op) => if IsUnary(op) then 0 else -1
    case Function(f, args) => if f in env.functions && CallFunction(env.functions[f], args).None? then 0 else 1
    case Bracket(_) => 0
    case _ => 1
  }

  function Balance<T>(env: Environment<T>, tokens: seq<Token<T>>): int {
    if |tokens| == 0 then 0 else Effect(env, tokens[0]) + Balance(env, tokens[1..])
  }

  lemma {:induction false} BalanceConcat<T>(env: Environment<T>, s: seq<Token<T>>, t: seq<Token<T>>)
    ensures Balance(env, s + t) == Balance(env, s) + Balance(env, t)
  {
    if |s| == 0 {
      assert s + t == t;
    } else {
      assert (s + t)[1..] == s[1..] + t;
      BalanceConcat(env, s[1..], t);
    }
  }

  /** A run that ends in a value has taken and left what the balance says. */
  lemma {:induction false} ValueMeansBalance<T>(env: Environment<T>, tokens: seq<Token<T>>, stack: seq<T>, error: Option<string>)
    requires Run(env, tokens, stack, error).value.Some?
    ensures |stack| + Balance(env, tokens) == 1
    decreases |tokens|
  {
    hide Apply, IsUnary;
    if |tokens| > 0 {
      var rest := tokens[1..];
      match tokens[0]
      case Number(n) => ValueMeansBalance(env, rest, stack + [n], error);
      case Operation(op) =>
        var operands := if IsUnary(op) then 1 else 2;
        var left := if IsUnary(op) then env.arithmetic.zero else stack[|stack| - 2];
        ValueMeansBalance(env, rest, stack[..|stack| - operands] + [Apply(env.arithmetic, op, left, Top(stack)).value], error);
      case Variable(x) => ValueMeansBalance(env, rest, stack + [env.variables[x].value], error);
      case Function(f, args) =>
        var result := CallFunction(env.functions[f], args);
        var error' := if TakesArguments(env.functions[f], args) then error else Some("Invalid number of function arguments!");
        ValueMeansBalance(env, rest, if result.None? then stack else stack + [result.value], error');
    }
  }

  /** Some function called in the tree is known but gives no result. */
  predicate HasSilentCall<T>(env: Environment<T>, e: Expr<T>) {
    match e
    case Call(f, args) => f in env.functions && CallFunction(env.functions[f], args).None?
    case Unary(op, x) => HasSilentCall(env, x)
    case Binary(op, l, r) => HasSilentCall(env, l) || HasSilentCall(env, r)
    case Paren(x) => HasSilentCall(env, x)
    case _ => false
  }

  lemma {:induction false} TreeBalance<T>(env: Environment<T>, e: Expr<T>)
    requires WellFormed(e)
    ensures Balance(env, PostOrder(e)) <= 1
    ensures Balance(env, PostOrder(e)) == 1 <==> !HasSilentCall(env, e)
  {
    match e
    case Unary(op, x) =>
      TreeBalance(env, x);
      BalanceConcat(env, PostOrder(x), [Operation(op)]);
    case Binary(op, l, r) =>
      TreeBalance(env, l);
      TreeBalance(env, r);
      BalanceConcat(env, PostOrder(l), PostOrder(r));
      BalanceConcat(env, PostOrder(l) + PostOrder(r), [Operation(op)]);
    case Paren(x) => TreeBalance(env, x);
    case _ => assert PostOrder(e)[1..] == [];
  }

  /** Without silent calls the run stops at the first node that fails. */
  lemma {:induction false} RunStops<T>(env: Environment<T>, e: Expr<T>, rest: seq<Token<T>>, stack: seq<T>, error: Option<string>)
    requires WellFormed(e) && Meaning(env, e).None? && !HasSilentCall(env, e)
    ensures Run(env, PostOrder(e) + rest, stack, error).value.None?
  {
    hide Apply, IsUnary;
    match e
    case Unary(op, x) =>
      var tail := [Operation(op)] + rest;
      assert PostOrder(e) + rest == PostOrder(x) + tail;
      if Meaning(env, x).None? {
        RunStops(env, x, tail, stack, error);
      } else {
        RunValue(env, x, tail, stack, error);
        RunOperation(env, op, rest, stack, [Meaning(env, x).value], error);
      }
    case Binary(op, l, r) =>
      var tail := [Operation(op)] + rest;
      assert PostOrder(e) + rest == PostOrder(l) + (PostOrder(r) + tail);
      if Meaning(env, l).None? {
        RunStops(env, l, PostOrder(r) + tail, stack, error);
      } else {
        var u := Meaning(env, l).value;
        RunValue(env, l, PostOrder(r) + tail, stack, error);
        if Meaning(env, r).None? {
          RunStops(env, r, tail, stack + [u], error);
        } else {
          var v := Meaning(env, r).value;
          RunValue(env, r, tail, stack + [u], error);
          assert stack + [u] + [v] == stack + [u, v];
          RunOperation(env, op, rest, stack, [u, v], error);
        }
      }
    case Paren(x) => RunStops(env, x, rest, stack, error);
    case Name(x) => RunCons(env, Variable(x), rest);
    case Call(f, args) => RunCons(env, Function(f, args), rest);
    case Literal(n) =>
  }

  /** The machine gives the value of the tree, and no value exactly when the
      operation of some node fails. */
  lemma RunMeaning<T>(env: Environment<T>, e: Expr<T>, error: Option<string>)
    requires WellFormed(e)
    ensures Run(env, PostOrder(e), [], error).value == Meaning(env, e)
    ensures Meaning(env, e).Some? ==> Run(env, PostOrder(e), [], error).error == error
  {
    hide Run;
    assert PostOrder(e) + [] == PostOrder(e);
    if Meaning(env, e).Some? {
      RunValue(env, e, [], [], error);
      RunEnd(env, [] + [Meaning(env, e).value], error);
    } else if HasSilentCall(env, e) {
      if Run(env, PostOrder(e), [], error).value.Some? {
        ValueMeansBalance(env, PostOrder(e), [], error);
        TreeBalance(env, e);
      }
    } else {
      RunStops(env, e, [], [], error);
    }
  }

  // Which postfix tokens have a value, trees or not.

  /** A call of a known function that gives no result: it leaves the stack alone. */
  predicate IsSilent<T>(env: Environment<T>, token: Token<T>) {
    token.Function? && token.name in env.functions && CallFunction(env.functions[token.name], token.arguments).None?
  }

  function Spoken<T>(env: Environment<T>, tokens: seq<Token<T>>): seq<Token<T>> {
    if |tokens| == 0 then []
    else if IsSilent(env, tokens[0]) then Spoken(env, tokens[1..])
    else [tokens[0]] + Spoken(env, tokens[1..])
  }

  /** The post-order listings of some trees, one behind the other. */
  function Listing<T>(trees: seq<Expr<T>>): seq<Token<T>> {
    if |trees| == 0 then [] else Listing(trees[..|trees| - 1]) + PostOrder(Top(trees))
  }

  lemma ListingSnoc<T>(trees: seq<Expr<T>>, e: Expr<T>)
    ensures Listing(trees + [e]) == Listing(trees) + PostOrder(e)
  {
    assert (trees + [e])[..|trees|] == trees;
  }

  /** The trees stand for the values on the stack. */
  ghost predicate Represents<T>(env: Environment<T>, trees: seq<Expr<T>>, stack: seq<T>) {
    |trees| == |stack| && forall i :: 0 <= i < |trees| ==> WellFormed(trees[i]) && Meaning(env, trees[i]) == Some(stack[i])
  }

  lemma RepresentsSnoc<T>(env: Environment<T>, trees: seq<Expr<T>>, stack: seq<T>, e: Expr<T>, v: T)
    requires Represents(env, trees, stack) && WellFormed(e) && Meaning(env, e) == Some(v)
    ensures Represents(env, trees + [e], stack + [v])
  {
  }

  function Operands(op: Operator): (n: nat)
    ensures n > 0
  {
    if IsUnary(op) then 1 else 2
  }

  /** An operator on the topmost values of the stack. */
  function Operate<T>(env: Environment<T>, op: Operator, stack: seq<T>): Result<T>
    requires |stack| >= Operands(op)
  {
    Apply(env.arithmetic, op, if IsUnary(op) then env.arithmetic.zero else stack[|stack| - 2], Top(stack))
  }

  /** An operator makes one tree of the topmost ones. */
  lemma Combined<T>(env: Environment<T>, op: Operator, trees: seq<Expr<T>>, stack: seq<T>) returns (e: Expr<T>)
    requires Represents(env, trees, stack) && |stack| >= Operands(op) && Operate(env, op, stack).Ok?
    ensures var n := |stack| - Operands(op);
      && Represents(env, trees[..n] + [e], stack[..n] + [Operate(env, op, stack).value])
      && Listing(trees[..n] + [e]) == Listing(trees) + [Operation(op)]
  {
    hide Apply, IsUnary;
    var last := |trees| - 1;
    if IsUnary(op) {
      e := Unary(op, trees[last]);
      ListingSnoc(trees[..last], e);
      FlatUnary(Listing(trees[..last]), PostOrder(trees[last]), Operation(op));
    } else {
      e := Binary(op, trees[last - 1], trees[last]);
      ListingSnoc(trees[..last - 1], e);
      assert trees[..last][..last - 1] == trees[..last - 1];
      FlatBinary(Listing(trees[..last - 1]), PostOrder(trees[last - 1]), PostOrder(trees[last]), Operation(op));
    }
  }

  lemma FlatUnary<X>(s: seq<X>, t: seq<X>, x: X)
    ensures s + (t + [x]) == s + t + [x]
  {
  }

  lemma FlatBinary<X>(s: seq<X>, t: seq<X>, u: seq<X>, x: X)
    ensures s + (t + u + [x]) == s + t + u + [x]
  {
  }

  /** A run with a value lists a tree with that value, silent calls left out. */
  lemma {:induction false} TreeOfRun<T>(env: Environment<T>, tokens: seq<Token<T>>, trees: seq<Expr<T>>, stack: seq<T>, error: Option<string>)
      returns (e: Expr<T>)
    requires Represents(env, trees, stack) && Run(env, tokens, stack, error).value.Some?
    ensures WellFormed(e) && Meaning(env, e) == Run(env, tokens, stack, error).value
    ensures PostOrder(e) == Listing(trees) + Spoken(env, tokens)
    decreases |tokens|, 0
  {
    hide Apply, IsUnary, Represents, Listing, PostOrder, Meaning, WellFormed, CallFunction;
    if |tokens| == 0 {
      e := OnlyTree(env, trees, stack);
      assert Listing(trees) + [] == Listing(trees);
    } else {
      SameHeight(env, trees, stack);
      var token, rest := tokens[0], tokens[1..];
      if token.Operation? {
        e := TreeOfOperation(env, token.op, rest, trees, stack, error);
      } else {
        e := TreeOfOperand(env, tokens, trees, stack, error);
      }
      Regrouped(Listing(trees), token, Spoken(env, rest));
    }
  }

  lemma {:induction false} TreeOfOperand<T>(env: Environment<T>, tokens: seq<Token<T>>, trees: seq<Expr<T>>, stack: seq<T>, error: Option<string>)
      returns (e: Expr<T>)
    requires Represents(env, trees, stack) && Run(env, tokens, stack, error).value.Some? && |tokens| > 0 && !tokens[0].Operation?
    ensures WellFormed(e) && Meaning(env, e) == Run(env, tokens, stack, error).value
    ensures PostOrder(e) == if IsSilent(env, tokens[0]) then Listing(trees) + Spoken(env, tokens[1..])
                            else Listing(trees) + [tokens[0]] + Spoken(env, tokens[1..])
    decreases |tokens| - 1, 1
  {
    hide Represents, Listing, PostOrder, Meaning, WellFormed, Run, Spoken, IsSilent;
    var token := tokens[0];
    var v, error' := OperandStep(env, tokens, stack, error);
    if IsSilent(env, token) {
      e := TreeOfRun(env, tokens[1..], trees, stack, error');
    } else {
      OperandTree(env, trees, stack, token, v.value);
      e := TreeOfRun(env, tokens[1..], trees + [OperandOf(token)], stack + [v.value], error');
    }
  }

  /** An operand pushes its value, a silent call nothing. */
  lemma OperandStep<T>(env: Environment<T>, tokens: seq<Token<T>>, stack: seq<T>, error: Option<string>) returns (v: Option<T>, error': Option<string>)
    requires |tokens| > 0 && !tokens[0].Operation? && Run(env, tokens, stack, error).value.Some?
    ensures IsOperand(tokens[0]) && v == Meaning(env, OperandOf(tokens[0])) && (v.None? <==> IsSilent(env, tokens[0]))
    ensures Run(env, tokens, stack, error) == Run(env, tokens[1..], if v.None? then stack else stack + [v.value], error')
  {
    hide CallFunction;
    error' := error;
    if tokens[0].Function? && !TakesArguments(env.functions[tokens[0].name], tokens[0].arguments) {
      error' := Some("Invalid number of function arguments!");
    }
    v := Meaning(env, OperandOf(tokens[0]));
  }

  lemma {:induction false} TreeOfOperation<T>(env: Environment<T>, op: Operator, rest: seq<Token<T>>, trees: seq<Expr<T>>, stack: seq<T>,
                                              error: Option<string>) returns (e: Expr<T>)
    requires |stack| >= Operands(op) && Represents(env, trees, stack) && Operate(env, op, stack).Ok?
    requires Run(env, rest, stack[..|stack| - Operands(op)] + [Operate(env, op, stack).value], error).value.Some?
    ensures Meaning(env, e) == Run(env, rest, stack[..|stack| - Operands(op)] + [Operate(env, op, stack).value], error).value
    ensures WellFormed(e) && PostOrder(e) == Listing(trees) + [Operation(op)] + Spoken(env, rest)
    decreases |rest|, 1
  {
    SameHeight(env, trees, stack);
    hide Operate, Operands, Represents, Listing, PostOrder, Meaning, WellFormed, Run, Spoken;
    var n := |stack| - Operands(op);
    var x := Combined(env, op, trees, stack);
    e := TreeOfRun(env, rest, trees[..n] + [x], stack[..n] + [Operate(env, op, stack).value], error);
  }

  lemma Regrouped<X>(s: seq<X>, x: X, t: seq<X>)
    ensures s + [x] + t == s + ([x] + t)
  {
  }

  lemma OnlyTree<T>(env: Environment<T>, trees: seq<Expr<T>>, stack: seq<T>) returns (e: Expr<T>)
    requires Represents(env, trees, stack) && |stack| == 1
    ensures WellFormed(e) && Meaning(env, e) == Some(stack[0]) && PostOrder(e) == Listing(trees)
  {
    e := trees[0];
    assert Listing(trees[..0]) == [] && [] + PostOrder(e) == PostOrder(e);
  }

  function OperandOf<T>(token: Token<T>): Expr<T>
    requires IsOperand(token)
  {
    match token
    case Number(n) => Literal(n)
    case Variable(x) => Name(x)
    case Function(f, args) => Call(f, args)
  }

  lemma SameHeight<T>(env: Environment<T>, trees: seq<Expr<T>>, stack: seq<T>)
    requires Represents(env, trees, stack)
    ensures |trees| == |stack|
  {
  }

  lemma OperandTree<T>(env: Environment<T>, trees: seq<Expr<T>>, stack: seq<T>, token: Token<T>, v: T)
    requires Represents(env, trees, stack) && IsOperand(token) && Meaning(env, OperandOf(token)) == Some(v)
    ensures Represents(env, trees + [OperandOf(token)], stack + [v])
    ensures Listing(trees + [OperandOf(token)]) == Listing(trees) + [token]
  {
    hide Represents, Listing, Meaning;
    RepresentsSnoc(env, trees, stack, OperandOf(token), v);
    ListingSnoc(trees, OperandOf(token));
  }

  /** Silent calls and earlier errors make no difference to the value. */
  lemma {:induction false} SilentSkipped<T>(env: Environment<T>, tokens: seq<Token<T>>, stack: seq<T>, error: Option<string>, error': Option<string>)
    ensures Run(env, tokens, stack, error).value == Run(env, Spoken(env, tokens), stack, error').value
    decreases |tokens|
  {
    hide Apply, IsUnary, CallFunction;
    if |tokens| > 0 {
      var token, rest := tokens[0], tokens[1..];
      RunCons(env, token, Spoken(env, rest));
      match token
      case Number(n) => SilentSkipped(env, rest, stack + [n], error, error');
      case Variable(x) =>
        if x in env.variables {
          SilentSkipped(env, rest, stack + [env.variables[x].value], error, error');
        }
      case Operation(op) =>
        var operands := if IsUnary(op) then 1 else 2;
        if |stack| >= operands {
          var left := if IsUnary(op) then env.arithmetic.zero else stack[|stack| - 2];
          var result := Apply(env.arithmetic, op, left, Top(stack));
          if result.Ok? {
            SilentSkipped(env, rest, stack[..|stack| - operands] + [result.value], error, error');
          }
        }
      case Function(f, args) =>
        if f in env.functions {
          var result := CallFunction(env.functions[f], args);
          var message := Some("Invalid number of function arguments!");
          var takes := TakesArguments(env.functions[f], args);
          SilentSkipped(env, rest, if result.None? then stack else stack + [result.value],
                        if takes then error else message, if result.None? || takes then error' else message);
        }
      case Bracket(_) =>
    }
  }

  /** Postfix tokens have a value exactly when, silent calls left out, they list
      a tree with that value. */
  lemma RunsExactly<T>(env: Environment<T>, tokens: seq<Token<T>>, error: Option<string>, v: T)
    ensures Run(env, tokens, [], error).value == Some(v)
       <==> exists e :: WellFormed(e) && Meaning(env, e) == Some(v) && PostOrder(e) == Spoken(env, tokens)
  {
    hide Run, Meaning, WellFormed, PostOrder, Spoken;
    if Run(env, tokens, [], error).value == Some(v) {
      var e := TreeOfRun(env, tokens, [], [], error);
      assert Listing<T>([]) + Spoken(env, tokens) == Spoken(env, tokens);
    }
    if e :| WellFormed(e) && Meaning(env, e) == Some(v) && PostOrder(e) == Spoken(env, tokens) {
      RunMeaning(env, e, error);
      SilentSkipped(env, tokens, [], error, error);
    }
  }

  /** Any tokens whatever, a printed tree or not, evaluate exactly when their
      conversion lists a tree with a value: `1 2 +` does, as 1 + 2 would. */
  lemma EvaluatesExactly<T>(env: Environment<T>, tokens: seq<Token<T>>, error: Option<string>, v: T)
    ensures (Postfix(tokens).Some? && Run(env, Postfix(tokens).value, [], error).value == Some(v))
       <==> exists e :: WellFormed(e) && Meaning(env, e) == Some(v)
                        && Postfix(tokens).Some? && PostOrder(e) == Spoken(env, Postfix(tokens).value)
  {
    hide Run, Meaning, WellFormed, PostOrder, Spoken, Postfix;
    if Postfix(tokens).Some? {
      RunsExactly(env, Postfix(tokens).value, error, v);
    }
  }

  lemma RunEnd<T>(env: Environment<T>, stack: seq<T>, error: Option<string>)
    requires |stack| == 1
    ensures Run(env, [], stack, error) == Outcome(Some(stack[0]), error)
  {
  }

  /** Compilation preserves meaning: convert a printed tree and run the result. */
  lemma CompiledMeaning<T>(env: Environment<T>, e: Expr<T>, error: Option<string>)
    requires WellFormed(e) && Parenthesised(e)
    ensures Postfix(Print(e)).Some? && Run(env, Postfix(Print(e)).value, [], error).value == Meaning(env, e)
  {
    PostfixOfPrinted(e);
    RunMeaning(env, e, error);
  }

  /** Unary operators count as left-associative, so the first of two adjacent
      ones is output before any operand, and the run fails whatever follows. */
  lemma AdjacentUnaryFails<T>(env: Environment<T>, first: Operator, second: Operator, rest: seq<Token<T>>, error: Option<string>)
    requires IsUnary(first) && IsUnary(second)
    ensures var p := Postfix([Operation(first), Operation(second)] + rest);
      p.Some? ==> Run(env, p.value, [], error) == Outcome(None, Some("Not enough operands for operator!"))
  {
    hide Apply, Convert, IsUnary;
    var a: Token<T>, b: Token<T> := Operation(first), Operation(second);
    assert [a, b] + rest == [a] + ([b] + rest) && [] + [a] == [a];
    AdjacentUnaryMoves<T>(first, second, rest, [], []);
    if Postfix([a, b] + rest).Some? {
      GrownBy(rest, [], [a], [] + [b]);
    }
  }

  /** The part of the input `evaluate` computes, and the variable it assigns. */
  function Target<T>(tokens: seq<Token<T>>): string {
    if IsAssignment(tokens) then tokens[0].name else "ans"
  }

  predicate IsAssignment<T>(tokens: seq<Token<T>>) {
    |tokens| > 2 && tokens[0].Variable? && tokens[1].Operation? && tokens[1].op == Assign
  }

  function Source<T>(tokens: seq<Token<T>>): seq<Token<T>> {
    if IsAssignment(tokens) then tokens[2..] else tokens
  }

  /** `x = e` assigns the value of `e` to `x`. */
  lemma AssignmentParts<T>(x: string, e: Expr<T>)
    ensures Target(Print(Binary(Assign, Name(x), e))) == x && Source(Print(Binary(Assign, Name(x), e))) == Print(e)
  {
    var tokens := [Variable(x), Operation(Assign)] + Print(e);
    assert Print(Binary(Assign, Name(x), e)) == tokens && tokens[2..] == Print(e);
    assert |Print(e)| > 0 by { PrintedSome(e); }
  }

  /** Anything else assigns its value to `ans`. */
  lemma NoAssignment<T>(tokens: seq<Token<T>>)
    requires |tokens| <= 2 || !tokens[0].Variable? || tokens[1] != Operation(Assign)
    ensures Target(tokens) == "ans" && Source(tokens) == tokens
  {
  }

  lemma {:induction false} PrintedSome<T>(e: Expr<T>)
    ensures |Print(e)| > 0
  {
  }

  /** A variable stands for its value, a call for the function's result on a
      number of arguments it takes. */
  lemma OperandsExactly<T>(env: Environment<T>, x: string, f: string, arguments: seq<T>, error: Option<string>)
    ensures Run(env, [Variable(x)], [], error).value == if x in env.variables then Some(env.variables[x].value) else None
    ensures Run(env, [Function(f, arguments)], [], error).value
         == if f in env.functions && env.functions[f].minArgs <= |arguments| <= env.functions[f].maxArgs
            then env.functions[f].body(arguments) else None
  {
    var v: Token<T>, c: Token<T> := Variable(x), Function(f, arguments);
    assert [v][1..] == [] && [c][1..] == [];
  }

  /** The tokens are a tree written with the parentheses it needs. */
  ghost predicate IsPrinted<T>(tokens: seq<Token<T>>, e: Expr<T>) {
    WellFormed(e) && Parenthesised(e) && tokens == Print(e)
  }

  lemma PrintedMeaning<T>(env: Environment<T>, tokens: seq<Token<T>>, error: Option<string>)
    ensures tokens == [] || Postfix(tokens).None? ==> forall e :: !IsPrinted(tokens, e)
    ensures Postfix(tokens).Some? ==>
      forall e :: IsPrinted(tokens, e) ==> Run(env, Postfix(tokens).value, [], error).value == Meaning(env, e)
  {
    hide Run, Postfix, Meaning;
    forall e: Expr<T> | IsPrinted(tokens, e)
      ensures tokens != [] && Postfix(tokens).Some? && Run(env, Postfix(tokens).value, [], error).value == Meaning(env, e)
    {
      CompiledMeaning(env, e, error);
    }
  }

  class MathEvaluator<T> {
    const arithmetic: Arithmetic<T>
    var variables: map<string, NamedValue<T>>
    var functions: map<string, UserFunction<T>>
    var lastError: Option<string>

    constructor (arithmetic: Arithmetic<T>)
      ensures this.arithmetic == arithmetic && variables == map[] && functions == map[] && lastError == None
    {
      this.arithmetic := arithmetic;
      variables, functions, lastError := map[], map[], None;
    }

    function Env(): Environment<T>
      reads this
    {
      Environment(arithmetic, variables, functions)
    }

    method SetVariable(name: string, value: T, isConstant: bool)
      modifies this`variables
      ensures variables == old(variables)[name := NamedValue(value, isConstant)]
    {
      variables := variables[name := NamedValue(value, isConstant)];
    }

    method SetFunction(name: string, body: seq<T> -> Option<T>, minArgs: nat, maxArgs: nat)
      modifies this`functions
      ensures functions == old(functions)[name := UserFunction(minArgs, maxArgs, body)]
    {
      functions := functions[name := UserFunction(minArgs, maxArgs, body)];
    }

    method ToPostfix(inputQueue: seq<Token<T>>) returns (r: Option<seq<Token<T>>>)
      modifies this`lastError
      ensures r == Postfix(inputQueue)
      ensures lastError == if r.None? then Some("Mismatching parenthesis!") else old(lastError)
    {
      hide Pops;
      var queue, output, stack: seq<Token<T>> := inputQueue, [], [];
      while |queue| > 0
        invariant Convert(queue, State(output, stack)) == Postfix(inputQueue)
        invariant lastError == old(lastError)
        decreases |queue|
      {
        var current := queue[0];
        queue := queue[1..];
        if current.Operation? {
          output, stack := PopOperators(output, stack, current.op);
          stack := stack + [current];
        } else if current == Bracket(true) {
          stack := stack + [current];
        } else if current == Bracket(false) {
          var found;
          output, stack, found := PopToBracket(output, stack);
          if !found {
            lastError := Some("Mismatching parenthesis!");
            return None;
          }
        } else {
          output := output + [current];
        }
      }
      while |stack| > 0
        invariant Finish(State(output, stack)) == Postfix(inputQueue)
        invariant lastError == old(lastError)
        decreases |stack|
      {
        var top := Top(stack);
        if top.Bracket? {
          lastError := Some("Mismatching parenthesis!");
          return None;
        }
        output, stack := output + [top], Pop(stack);
      }
      r := Some(output);
    }

    /** The loop of an incoming operator. */
    method PopOperators(output0: seq<Token<T>>, stack0: seq<Token<T>>, current: Operator)
      returns (output: seq<Token<T>>, stack: seq<Token<T>>)
      ensures State(output, stack) == Drain(State(output0, stack0), current)
    {
      output, stack := output0, stack0;
      while |stack| > 0 && Top(stack).Operation? && Pops(Top(stack).op, current)
        invariant Drain(State(output, stack), current) == Drain(State(output0, stack0), current)
        decreases |stack|
      {
        output, stack := output + [Top(stack)], Pop(stack);
      }
    }

    /** The loop of a right bracket; the left bracket is dropped when found. */
    method PopToBracket(output0: seq<Token<T>>, stack0: seq<Token<T>>)
      returns (output: seq<Token<T>>, stack: seq<Token<T>>, found: bool)
      ensures Unwind(State(output0, stack0)) == if found then Some(State(output, stack)) else None
    {
      output, stack := output0, stack0;
      while |stack| > 0 && Top(stack) != Bracket(true)
        invariant Unwind(State(output, stack)) == Unwind(State(output0, stack0))
        decreases |stack|
      {
        output, stack := output + [Top(stack)], Pop(stack);
      }
      found := |stack| > 0;
      if found {
        stack := Pop(stack);
      }
    }

    method EvaluatePostfix(postfixTokens: seq<Token<T>>) returns (r: Option<T>)
      modifies this`lastError
      ensures Outcome(r, lastError) == Run(old(Env()), postfixTokens, [], old(lastError))
    {
      hide Apply, IsUnary;
      var queue, stack: seq<T> := postfixTokens, [];
      ghost var env := Env();
      while |queue| > 0
        invariant Run(env, queue, stack, lastError) == Run(env, postfixTokens, [], old(lastError))
        decreases |queue|
      {
        var front := queue[0];
        queue := queue[1..];
        match front
        case Number(n) =>
          stack := stack + [n];
        case Operation(op) =>
          var left, right := arithmetic.zero, arithmetic.zero;
          if IsUnary(op) {
            if |stack| == 0 {
              lastError := Some("Not enough operands for operator!");
              return None;
            }
            right := Top(stack);
            stack := Pop(stack);
          } else {
            if |stack| < 2 {
              lastError := Some("Not enough operands for operator!");
              return None;
            }
            right, left := Top(stack), stack[|stack| - 2];
            stack := stack[..|stack| - 2];
          }
          var result := Apply(arithmetic, op, left, right);
          if result.Err? {
            lastError := Some(result.message);
            return None;
          }
          stack := stack + [result.value];
        case Variable(x) =>
          if x !in variables {
            lastError := Some("Unknown variable!");
            return None;
          }
          stack := stack + [variables[x].value];
        case Function(f, args) =>
          if f !in functions {
            lastError := Some("Unknown function called!");
            return None;
          }
          var result := CallFunction(functions[f], args);
          if !TakesArguments(functions[f], args) {
            lastError := Some("Invalid number of function arguments!");
          }
          if result.Some? {
            stack := stack + [result.value];
          }
        case Bracket(_) =>
          lastError := Some("Parenthesis in postfix expression!");
          return None;
      }
      if |stack| == 0 {
        return None;
      } else if |stack| > 1 {
        lastError := Some("Undigested input left!");
        return None;
      }
      r := Some(stack[0]);
    }

    /** `evaluate` on the parsed input: computes it and stores the value in the
        assigned variable, or in `ans`, unless that is a constant. */
    method Evaluate(inputQueue: seq<Token<T>>) returns (r: Option<T>)
      modifies this
      ensures functions == old(functions)
      ensures variables == if r.None? || IsConstant(old(variables), Target(inputQueue)) then old(variables)
                           else old(variables)[Target(inputQueue) := NamedValue(r.value, false)]
      ensures inputQueue == [] ==> r == None && lastError == old(lastError)
      ensures inputQueue != [] ==>
        var p := Postfix(Source(inputQueue));
        if p.None? then r == None && lastError == Some("Mismatching parenthesis!")
        else Outcome(r, lastError) == Run(old(Env()), p.value, [], old(lastError))
      ensures forall e :: IsPrinted(Source(inputQueue), e) ==> r == Meaning(old(Env()), e)
    {
      hide Run, Convert, Postfix, Meaning;
      if |inputQueue| == 0 {
        PrintedMeaning(Env(), inputQueue, lastError);
        return None;
      }
      var queue, resultVariable := inputQueue, "ans";
      if queue[0].Variable? && |queue| > 2 {
        resultVariable := queue[0].name;
        if !queue[1].Operation? || queue[1].op != Assign {
          resultVariable := "ans";
        } else {
          queue := queue[2..];
        }
      }
      assert queue == Source(inputQueue);
      ghost var env, error := Env(), lastError;
      var postfixTokens := ToPostfix(queue);
      if postfixTokens.None? {
        PrintedMeaning(env, queue, error);
        return None;
      }
      r := EvaluatePostfix(postfixTokens.value);
      if r.Some? && !IsConstant(variables, resultVariable) {
        SetVariable(resultVariable, r.value, false);
      }
      PrintedMeaning(env, queue, error);
    }
  }

  /** A name that is not yet known is not constant. */
  predicate IsConstant<T>(variables: map<string, NamedValue<T>>, name: string) {
    name in variables && variables[name].isConstant
  }

  /** `powi` for a number type that wraps at `m`: the power, 0 for a negative exponent. */
  method PowI(m: nat, x: nat, exponent: int) returns (result: nat)
    requires 1 < m && x < m
    ensures result == if exponent < 0 then 0 else Pow(x, exponent) % m
  {
    hide Pow;
    if exponent < 0 {
      return 0;
    }
    result := 1;
    var base: nat, exp: nat := x, exponent;
    while exp != 0
      invariant result < m && result * Pow(base, exp) % m == Pow(x, exponent) % m
    {
      ghost var result0, base0 := result, base;
      if exp % 2 == 1 {
        result := result * base % m;
        Primality.ResidueTwice(result0 * base0, m);
      }
      base := base * base % m;
      Primality.SquareStep(result0, base0, exp, m, result, base);
      exp := exp / 2;
    }
    SmallPowers(base);
    Primality.ResidueOfSmall(result, m);
  }
}