/**
 * What the recursive-descent parser computes, as functions of its state: the
 * stripped input, the lexer's cursor, the one-token look-ahead and the session.
 * Each production returns its result together with the state it leaves; on a
 * failure that state still carries every assignment made before the failure,
 * since the program never undoes them.
 */
module Grammar {
  import opened Wrappers
  import opened TokenKinds
  import opened Tokens
  import opened Errors
  import opened Lexing
  import opened Values
  import opened Session
  import opened Variables
  import opened Commands
  import opened UnaryOperators
  import opened BinaryOperators
  import opened Nodes

  // ---------------------------------------------------------------------
  // Tokens as the lexer hands them out

  /** The text of an operator token is one its pattern allows. */
  predicate WellFormed(t: Token)
  {
    && (t.tokenType == Plus ==> t.value == "+")
    && (t.tokenType == Minus ==> t.value == "-")
    && (t.tokenType == Exponent ==> t.value == "^")
    && (t.tokenType == PostfixOperator ==> t.value == "!")
    && (t.tokenType == PrefixOperator ==> t.value in PrefixWords)
    && (t.tokenType == InfixOperator ==> t.value in InfixWords)
  }

  lemma LexedTokenIsWellFormed(input: string, cursor: nat)
    requires cursor <= |input|
    ensures LexAt(input, cursor).Ok? && LexAt(input, cursor).value.Some? ==> WellFormed(LexAt(input, cursor).value.value)
  {
    if LexAt(input, cursor).Ok? && LexAt(input, cursor).value.Some? {
      var t := LexAt(input, cursor).value.value;
      var rest := input[cursor..];
      LexAtIsFirstMatch(input, cursor);
      assert t.value == rest[..|t.value|];
      MatchedTextIsWellFormed(rest, t.tokenType, |t.value|);
    }
  }

  /** The text a kind's pattern matches makes a well-formed token of that kind. */
  lemma MatchedTextIsWellFormed(rest: string, k: TokenType, n: nat)
    requires Match(k, rest) == Some(n)
    ensures n <= |rest| && WellFormed(Token(k, rest[..n]))
  {
    match k
    case PrefixOperator => MatchWordsIsWord(rest, PrefixWords);
    case InfixOperator => InfixMatchesExactly(rest);
    case _ => assert n == 1 ==> rest[..n] == [rest[0]];
  }

  /** Every token the lexer hands out as an operator names an operator of the node it goes into. */
  lemma OperatorTokensAreSupported(t: Token)
    requires WellFormed(t)
    ensures t.tokenType == PrefixOperator || t.tokenType == Minus || t.tokenType == PostfixOperator ==> UnaryOperatorOf(t.value).Some?
    ensures t.tokenType == InfixOperator || t.tokenType == Exponent || t.tokenType == Plus || t.tokenType == Minus ==> BinaryOperatorOf(t.value).Some?
  {
  }

  /** The errors only node constructors raise: a missing child or an unknown operator. */
  predicate IsConstructionError(e: Error)
  {
    e.NullOperand? || e.UnsupportedUnaryOperator? || e.UnsupportedBinaryOperator?
  }

  // ---------------------------------------------------------------------
  // Parser state

  datatype PState = PState(input: string, cursor: nat, look: Option<Token>, env: Env)

  /** A production's result and the state it leaves, also on failure. */
  datatype Step<T> = Step(result: Result<T, Error>, st: PState)

  /** The states the parser can be in: the cursor within the input, a well-formed look-ahead, `ans` bound. */
  predicate Consistent(st: PState)
  {
    st.cursor <= |st.input| && (st.look.Some? ==> WellFormed(st.look.value)) && Good(st.env)
  }

  /** Input not yet consumed: the text after the cursor and the look-ahead token. */
  function Measure(st: PState): nat
    requires st.cursor <= |st.input|
  {
    |st.input| - st.cursor + if st.look.Some? then 1 else 0
  }

  /**
   * What every production keeps: the same input, a consistent state, no input
   * given back, no variable and no mode lost, and never a node-construction error.
   */
  predicate Progress<T>(st: PState, r: Step<T>)
    requires Consistent(st)
  {
    && Consistent(r.st)
    && r.st.input == st.input
    && Measure(r.st) <= Measure(st)
    && Grows(st.env, r.st.env)
    && (r.result.Err? ==> !IsConstructionError(r.result.error))
  }

  // ---------------------------------------------------------------------
  // eat and checkNextTokenType

  /** `checkNextTokenType`: the look-ahead is there and of kind `k`. */
  function Check(k: TokenType, st: PState): bool
  {
    st.look.Some? && st.look.value.tokenType == k
  }

  /**
   * `eat`: the look-ahead must be there and of kind `k`; it is returned and the
   * lexer's next token becomes the look-ahead. If lexing that next token fails,
   * the state is left as it was.
   */
  function EatStep(k: TokenType, st: PState): (r: Step<Token>)
    requires Consistent(st)
    ensures Progress(st, r)
    ensures r.result.Ok? <==> Check(k, st) && LexAt(st.input, st.cursor).Ok?
    ensures r.result.Ok? ==> r.result.value == st.look.value && Measure(r.st) < Measure(st)
    ensures r.result.Ok? ==> r.st == st.(cursor := Advance(st.cursor, r.st.look), look := LexAt(st.input, st.cursor).value)
    ensures r.result.Err? ==> r.st == st
    ensures st.look.None? ==> r.result == Err(UnexpectedEnd(k))
    ensures st.look.Some? && st.look.value.tokenType != k ==> r.result == Err(UnexpectedToken(st.cursor, st.look.value.tokenType, k))
  {
    if st.look.None? then Step(Err(UnexpectedEnd(k)), st)
    else if st.look.value.tokenType != k then Step(Err(UnexpectedToken(st.cursor, st.look.value.tokenType, k)), st)
    else
      match LexAt(st.input, st.cursor)
      case Err(e) => Step(Err(e), st)
      case Ok(next) =>
        LexedTokenIsWellFormed(st.input, st.cursor);
        Step(Ok(st.look.value), st.(cursor := Advance(st.cursor, next), look := next))
  }

  // ---------------------------------------------------------------------
  // The productions, in the order they call one another

  /**
   * `parseNumber`: a number literal or a constant becomes a number node, a
   * variable a variable node holding its current value; anything else is
   * "Expected a number".
   */
  function NumberStep(st: PState): (r: Step<Node>)
    requires Consistent(st)
    ensures Progress(st, r) && r.st.env == st.env
    ensures r.result.Ok? ==> r.result.value.NumberNode? || r.result.value.VariableNode?
    ensures !Check(Number, st) && !Check(Constant, st) && !Check(Variable, st) ==> r == Step(Err(ExpectedNumber), st)
    // a leaf takes exactly its one token; a failure to lex the token after it keeps the state
    ensures (Check(Number, st) || Check(Constant, st) || Check(Variable, st)) && LexAt(st.input, st.cursor).Ok? ==>
      r.st == st.(cursor := Advance(st.cursor, LexAt(st.input, st.cursor).value), look := LexAt(st.input, st.cursor).value)
    ensures (Check(Number, st) || Check(Constant, st) || Check(Variable, st)) && LexAt(st.input, st.cursor).Err? ==>
      r == Step(Err(LexAt(st.input, st.cursor).error), st)
    // a number or a constant always succeeds, with the value its text names
    ensures (Check(Number, st) || Check(Constant, st)) && LexAt(st.input, st.cursor).Ok? ==>
      r.result == Ok(NewNumberNode(st.look.value.value, st.env))
    // a variable succeeds exactly when it is bound, holding its current value
    ensures Check(Variable, st) && LexAt(st.input, st.cursor).Ok? ==>
      (r.result.Ok? <==> st.look.value.value in st.env.variables)
    ensures Check(Variable, st) && LexAt(st.input, st.cursor).Ok? && st.look.value.value in st.env.variables ==>
      r.result == Ok(VariableNode(st.env.variables[st.look.value.value]))
    ensures Check(Variable, st) && LexAt(st.input, st.cursor).Ok? && st.look.value.value !in st.env.variables ==>
      r.result == Err(UndefinedVariable(st.look.value.value))
  {
    if Check(Number, st) then
      var t := EatStep(Number, st);
      if t.result.Err? then Step(Err(t.result.error), t.st)
      else Step(Ok(NewNumberNode(t.result.value.value, t.st.env)), t.st)
    else if Check(Constant, st) then
      var t := EatStep(Constant, st);
      if t.result.Err? then Step(Err(t.result.error), t.st)
      else Step(Ok(NewNumberNode(t.result.value.value, t.st.env)), t.st)
    else if Check(Variable, st) then
      var t := EatStep(Variable, st);
      if t.result.Err? then Step(Err(t.result.error), t.st)
      else
        match Lookup(t.st.env, t.result.value.value)
        case Err(e) => Step(Err(e), t.st)
        case Ok(v) => Step(Ok(VariableNode(v)), t.st)
    else Step(Err(ExpectedNumber), st)
  }

  /** `parseExponent`: a bracketed expression, or a number; an unclosed bracket is "Missing token: )". */
  function ExponentStep(st: PState, nar: Narrowing): (r: Step<Node>)
    requires Consistent(st)
    ensures Progress(st, r)
    ensures !Check(OpenBracket, st) ==> r == NumberStep(st)
    decreases Measure(st), 3
  {
    if Check(OpenBracket, st) then
      var o := EatStep(OpenBracket, st);
      if o.result.Err? then Step(Err(o.result.error), o.st)
      else
        var e := ExpressionStep(o.st, nar);
        if e.result.Err? then e
        else if !Check(CloseBracket, e.st) then Step(Err(MissingCloseBracket), e.st)
        else
          var c := EatStep(CloseBracket, e.st);
          if c.result.Err? then Step(Err(c.result.error), c.st) else Step(e.result, c.st)
    else NumberStep(st)
  }

  /** `parseBase` is `parseExponent`. */
  function BaseStep(st: PState, nar: Narrowing): (r: Step<Node>)
    requires Consistent(st)
    ensures Progress(st, r)
    ensures r == ExponentStep(st, nar)
    decreases Measure(st), 4
  {
    ExponentStep(st, nar)
  }

  /**
   * `parseFactor`: a prefix operator or a minus applied to a whole factor, or
   * else a base followed by its chain of `^`.
   */
  function FactorStep(st: PState, nar: Narrowing): (r: Step<Node>)
    requires Consistent(st)
    ensures Progress(st, r)
    decreases Measure(st), 6
  {
    if Check(PrefixOperator, st) || Check(Minus, st) then
      var p := EatStep(st.look.value.tokenType, st);
      if p.result.Err? then Step(Err(p.result.error), p.st)
      else
        var f := FactorStep(p.st, nar);
        if f.result.Err? then f
        else
          OperatorTokensAreSupported(p.result.value);
          Step(NewUnaryOperatorNode(p.result.value.value, Some(f.result.value)), f.st)
    else
      var b := BaseStep(st, nar);
      if b.result.Err? then b else FactorLoop(b.result.value, b.st, nar)
  }

  /** The `while` loop of `parseFactor`: each `^` and exponent makes a new node with everything so far on its left. */
  function FactorLoop(acc: Node, st: PState, nar: Narrowing): (r: Step<Node>)
    requires Consistent(st)
    ensures Progress(st, r)
    ensures !Check(Exponent, st) ==> r == Step(Ok(acc), st)
    decreases Measure(st), 5
  {
    if Check(Exponent, st) then
      var x := EatStep(Exponent, st);
      if x.result.Err? then Step(Err(x.result.error), x.st)
      else
        var e := ExponentStep(x.st, nar);
        if e.result.Err? then e
        else
          OperatorTokensAreSupported(x.result.value);
          match NewBinaryOperatorNode(x.result.value.value, Some(acc), Some(e.result.value))
          case Err(err) => Step(Err(err), e.st)
          case Ok(n) => FactorLoop(n, e.st, nar)
    else Step(Ok(acc), st)
  }

  /** `parseTerm`: a factor followed by its chain of infix operators and postfix `!`. */
  function TermStep(st: PState, nar: Narrowing): (r: Step<Node>)
    requires Consistent(st)
    ensures Progress(st, r)
    decreases Measure(st), 8
  {
    var f := FactorStep(st, nar);
    if f.result.Err? then f else TermLoop(f.result.value, f.st, nar)
  }

  /**
   * The `while` loop of `parseTerm`: an infix operator makes a new node with
   * everything so far on its left and the next factor on its right; a postfix
   * `!` wraps everything so far.
   */
  function TermLoop(acc: Node, st: PState, nar: Narrowing): (r: Step<Node>)
    requires Consistent(st)
    ensures Progress(st, r)
    ensures !Check(InfixOperator, st) && !Check(PostfixOperator, st) ==> r == Step(Ok(acc), st)
    decreases Measure(st), 7
  {
    if Check(InfixOperator, st) then
      var x := EatStep(InfixOperator, st);
      if x.result.Err? then Step(Err(x.result.error), x.st)
      else
        var f := FactorStep(x.st, nar);
        if f.result.Err? then f
        else
          OperatorTokensAreSupported(x.result.value);
          match NewBinaryOperatorNode(x.result.value.value, Some(acc), Some(f.result.value))
          case Err(err) => Step(Err(err), f.st)
          case Ok(n) => TermLoop(n, f.st, nar)
    else if Check(PostfixOperator, st) then
      var x := EatStep(PostfixOperator, st);
      if x.result.Err? then Step(Err(x.result.error), x.st)
      else
        OperatorTokensAreSupported(x.result.value);
        match NewUnaryOperatorNode(x.result.value.value, Some(acc))
        case Err(err) => Step(Err(err), x.st)
        case Ok(n) => TermLoop(n, x.st, nar)
    else Step(Ok(acc), st)
  }

  /** `parseExpression`: an assignment, or a term followed by its chain of `+` and `-`. */
  function ExpressionStep(st: PState, nar: Narrowing): (r: Step<Node>)
    requires Consistent(st)
    ensures Progress(st, r)
    ensures Check(Assignment, st) ==> r == AssignmentStep(st, nar)
    decreases Measure(st), 10
  {
    if Check(Assignment, st) then AssignmentStep(st, nar)
    else
      var t := TermStep(st, nar);
      if t.result.Err? then t else ExpressionLoop(t.result.value, t.st, nar)
  }

  /** The `while` loop of `parseExpression`: each `+` or `-` makes a new node with everything so far on its left. */
  function ExpressionLoop(acc: Node, st: PState, nar: Narrowing): (r: Step<Node>)
    requires Consistent(st)
    ensures Progress(st, r)
    ensures !Check(Plus, st) && !Check(Minus, st) ==> r == Step(Ok(acc), st)
    decreases Measure(st), 9
  {
    if Check(Plus, st) || Check(Minus, st) then
      var x := EatStep(st.look.value.tokenType, st);
      if x.result.Err? then Step(Err(x.result.error), x.st)
      else
        var t := TermStep(x.st, nar);
        if t.result.Err? then t
        else
          OperatorTokensAreSupported(x.result.value);
          match NewBinaryOperatorNode(x.result.value.value, Some(acc), Some(t.result.value))
          case Err(err) => Step(Err(err), t.st)
          case Ok(n) => ExpressionLoop(n, t.st, nar)
    else Step(Ok(acc), st)
  }

  /**
   * `parseVariableAssignment`: `var`, a name, `=` and an expression. The
   * expression is evaluated at once and the name bound to its value; without
   * the `=` it is the assignment-form error.
   */
  function AssignmentStep(st: PState, nar: Narrowing): (r: Step<Node>)
    requires Consistent(st)
    ensures Progress(st, r)
    ensures r.result.Ok? ==> r.result.value.VariableNode?
    decreases Measure(st), 9
  {
    var a := EatStep(Assignment, st);
    if a.result.Err? then Step(Err(a.result.error), a.st)
    else
      var v := EatStep(Variable, a.st);
      if v.result.Err? then Step(Err(v.result.error), v.st)
      else if !Check(Equals, v.st) then Step(Err(MalformedAssignment), v.st)
      else
        var q := EatStep(Equals, v.st);
        if q.result.Err? then Step(Err(q.result.error), q.st)
        else BindStep(v.result.value.value, q.st, nar)
  }

  /**
   * The rest of `parseVariableAssignment` once `=` is eaten: the expression is
   * evaluated at once and `name` bound to its value, which the node holds.
   */
  function BindStep(name: string, st: PState, nar: Narrowing): (r: Step<Node>)
    requires Consistent(st)
    ensures Progress(st, r)
    ensures r.result.Ok? ==> r.result.value.VariableNode? && name in r.st.env.variables
    ensures r.result.Ok? ==> r.st.env.variables[name] == r.result.value.value
    decreases Measure(st), 11
  {
    var e := ExpressionStep(st, nar);
    if e.result.Err? then e
    else
      match Evaluate(e.result.value, e.st.env.angleMode, nar)
      case Err(err) => Step(Err(err), e.st)
      case Ok(x) =>
        BindKeepsAns(e.st.env, name, x);
        Step(Ok(VariableNode(x)), e.st.(env := Bind(e.st.env, name, x)))
  }

  // ---------------------------------------------------------------------
  // parse

  /** The node `parse` returns and the session it leaves. */
  datatype Outcome = Outcome(result: Result<Node, Error>, env: Env)

  /** The parser's state once `parse` has lexed the first token of the stripped line. */
  function StartState(source: string, env: Env): (r: Result<PState, Error>)
    requires Good(env)
    ensures r.Ok? ==> Consistent(r.value) && r.value.input == Strip(source) && r.value.env == env
  {
    var input := Strip(source);
    match LexAt(input, 0)
    case Err(e) => Err(e)
    case Ok(look) =>
      LexedTokenIsWellFormed(input, 0);
      Ok(PState(input, Advance(0, look), look, env))
  }

  /**
   * `parse`: a line starting with a command sets its mode and yields a command
   * node. Any other line is an expression, evaluated, with `ans` bound to its
   * value; the result is that binding's node. What the expression assigned
   * stays assigned whether or not the line fails later.
   */
  function ParseLine(source: string, env: Env, nar: Narrowing): (o: Outcome)
    requires Good(env)
    ensures Good(o.env) && env.variables.Keys <= o.env.variables.Keys
    ensures o.result.Ok? ==> o.result.value.CommandNode? || o.result.value.VariableNode?
    ensures o.result.Ok? && o.result.value.VariableNode? ==> o.env.variables["ans"] == o.result.value.value
    ensures o.result.Ok? && o.result.value.CommandNode? ==> o.env.variables == env.variables
    ensures o.result.Err? ==> !IsConstructionError(o.result.error)
    ensures o.env.variables != env.variables ==> StartState(source, env).Ok? && !Check(Command, StartState(source, env).value)
  {
    match StartState(source, env)
    case Err(e) => Outcome(Err(e), env)
    case Ok(st) => LineStep(st, nar)
  }

  /**
   * The rest of `parse` once the first token is the look-ahead: a command sets
   * its mode and yields a command node; anything else is an expression line.
   */
  function LineStep(st: PState, nar: Narrowing): (o: Outcome)
    requires Consistent(st)
    ensures Good(o.env) && st.env.variables.Keys <= o.env.variables.Keys
    ensures o.result.Ok? ==> o.result.value.CommandNode? || o.result.value.VariableNode?
    ensures o.result.Ok? && o.result.value.VariableNode? ==> o.env.variables["ans"] == o.result.value.value
    ensures o.result.Ok? && o.result.value.CommandNode? ==> o.env.variables == st.env.variables
    ensures o.result.Err? ==> !IsConstructionError(o.result.error)
    ensures o.env.variables != st.env.variables ==> !Check(Command, st)
  {
    if Check(Command, st) then
      var c := EatStep(Command, st);
      if c.result.Err? then Outcome(Err(c.result.error), st.env)
      else Outcome(Ok(CommandNode), RunCommand(st.env, c.result.value.value))
    else ExpressionLine(st, nar)
  }

  /**
   * The rest of `parse` on a line that is no command: the expression is
   * evaluated and `ans` bound to its value. What the expression assigned stays
   * assigned whether or not the line fails.
   */
  function ExpressionLine(st: PState, nar: Narrowing): (o: Outcome)
    requires Consistent(st)
    ensures Good(o.env) && st.env.variables.Keys <= o.env.variables.Keys
    ensures o.result.Ok? ==> o.result.value.VariableNode? && o.env.variables["ans"] == o.result.value.value
    ensures o.result.Err? ==> !IsConstructionError(o.result.error)
  {
    var e := ExpressionStep(st, nar);
    if e.result.Err? then Outcome(Err(e.result.error), e.st.env)
    else
      match Evaluate(e.result.value, e.st.env.angleMode, nar)
      case Err(err) => Outcome(Err(err), e.st.env)
      case Ok(v) => BindKeepsAns(e.st.env, "ans", v); Outcome(Ok(VariableNode(v)), Bind(e.st.env, "ans", v))
  }
}
