/**
 * Properties of the grammar as the parser implements it: the shape of the
 * trees its loops build (left-nested chains, a postfix `!` over everything
 * before it, a prefix over a whole factor), what an exponent may be, what a
 * line does to the session, and which input it leaves alone.
 */
module ParseProperties {
  import opened Wrappers
  import opened TokenKinds
  import opened Tokens
  import opened Errors
  import opened Lexing
  import opened Values
  import opened Session
  import opened Variables
  import opened Commands
  import opened UnaryOperators
  import opened BinaryOperators
  import opened Nodes
  import opened Grammar

  // ---------------------------------------------------------------------
  // The trees the loops build

  /**
   * `acc` is reached from `n` by going down left children of operators in
   * `bops` and operands of operators in `uops`: `n` is `acc` with operators
   * stacked on top of it, each taking everything below it as its left side.
   */
  predicate OnLeftSpine(acc: Node, n: Node, bops: set<BinaryOp>, uops: set<UnaryOp>)
  {
    || n == acc
    || (n.BinaryOperatorNode? && n.bop in bops && OnLeftSpine(acc, n.left, bops, uops))
    || (n.UnaryOperatorNode? && n.uop in uops && OnLeftSpine(acc, n.operand, bops, uops))
  }

  lemma {:induction false} LeftSpineIsTransitive(acc: Node, mid: Node, n: Node, bops: set<BinaryOp>, uops: set<UnaryOp>)
    requires OnLeftSpine(acc, mid, bops, uops) && OnLeftSpine(mid, n, bops, uops)
    ensures OnLeftSpine(acc, n, bops, uops)
  {
    if n != mid {
      if n.BinaryOperatorNode? && n.bop in bops && OnLeftSpine(mid, n.left, bops, uops) {
        LeftSpineIsTransitive(acc, mid, n.left, bops, uops);
      } else {
        LeftSpineIsTransitive(acc, mid, n.operand, bops, uops);
      }
    }
  }

  /** The operators of the `+`/`-` chain. */
  const AdditiveOps: set<BinaryOp> := {Add, Subtract}

  /** The operators of the infix chain: one precedence level for all of them. */
  const InfixOps: set<BinaryOp> := {Multiply, Divide, LeftShift, RightShift, And, Or, Modulo, Scientific}

  /** What the lexer can hand out as an infix operator names one of the infix chain's operators. */
  lemma InfixTokenIsInfixOp(t: Token)
    requires WellFormed(t) && t.tokenType == InfixOperator
    ensures BinaryOperatorOf(t.value).Some? && BinaryOperatorOf(t.value).value in InfixOps
  {
  }

  /**
   * The `+`/`-` loop of `parseExpression` nests to the left: whatever it had
   * before it starts ends up at the bottom of the left spine, below `+` and `-`
   * nodes only, so "a-b-c" is "(a-b)-c".
   */
  lemma {:induction false} ExpressionLoopNestsLeft(acc: Node, st: PState, nar: Narrowing)
    requires Consistent(st)
    ensures ExpressionLoop(acc, st, nar).result.Ok? ==> OnLeftSpine(acc, ExpressionLoop(acc, st, nar).result.value, AdditiveOps, {})
    decreases Measure(st)
  {
    if Check(Plus, st) || Check(Minus, st) {
      var x := EatStep(st.look.value.tokenType, st);
      if x.result.Ok? {
        var t := TermStep(x.st, nar);
        if t.result.Ok? {
          match NewBinaryOperatorNode(x.result.value.value, Some(acc), Some(t.result.value))
          case Err(_) =>
          case Ok(n) =>
            ExpressionLoopNestsLeft(n, t.st, nar);
            if ExpressionLoop(n, t.st, nar).result.Ok? {
              assert OnLeftSpine(acc, n, AdditiveOps, {});
              LeftSpineIsTransitive(acc, n, ExpressionLoop(n, t.st, nar).result.value, AdditiveOps, {});
            }
        }
      }
    }
  }

  /**
   * The loop of `parseTerm` nests to the left: the factor it starts with ends up
   * at the bottom of the left spine, below infix nodes and `!` nodes only. So
   * "2*3!" is "(2*3)!" and each infix node's left side is everything before it.
   */
  lemma {:induction false} TermLoopNestsLeft(acc: Node, st: PState, nar: Narrowing)
    requires Consistent(st)
    ensures TermLoop(acc, st, nar).result.Ok? ==> OnLeftSpine(acc, TermLoop(acc, st, nar).result.value, InfixOps, {FactorialOf})
    decreases Measure(st)
  {
    if Check(InfixOperator, st) {
      var x := EatStep(InfixOperator, st);
      if x.result.Ok? {
        var f := FactorStep(x.st, nar);
        if f.result.Ok? {
          InfixTokenIsInfixOp(x.result.value);
          match NewBinaryOperatorNode(x.result.value.value, Some(acc), Some(f.result.value))
          case Err(_) =>
          case Ok(n) =>
            TermLoopNestsLeft(n, f.st, nar);
            if TermLoop(n, f.st, nar).result.Ok? {
              assert OnLeftSpine(acc, n, InfixOps, {FactorialOf});
              LeftSpineIsTransitive(acc, n, TermLoop(n, f.st, nar).result.value, InfixOps, {FactorialOf});
            }
        }
      }
    } else if Check(PostfixOperator, st) {
      var x := EatStep(PostfixOperator, st);
      if x.result.Ok? {
        match NewUnaryOperatorNode(x.result.value.value, Some(acc))
        case Err(_) =>
        case Ok(n) =>
          TermLoopNestsLeft(n, x.st, nar);
          if TermLoop(n, x.st, nar).result.Ok? {
            assert OnLeftSpine(acc, n, InfixOps, {FactorialOf});
            LeftSpineIsTransitive(acc, n, TermLoop(n, x.st, nar).result.value, InfixOps, {FactorialOf});
          }
      }
    }
  }

  /** The `^` loop of `parseFactor` nests to the left: "a^b^c" is "(a^b)^c". */
  lemma {:induction false} FactorLoopNestsLeft(acc: Node, st: PState, nar: Narrowing)
    requires Consistent(st)
    ensures FactorLoop(acc, st, nar).result.Ok? ==> OnLeftSpine(acc, FactorLoop(acc, st, nar).result.value, {Raise}, {})
    decreases Measure(st)
  {
    if Check(Exponent, st) {
      var x := EatStep(Exponent, st);
      if x.result.Ok? {
        var e := ExponentStep(x.st, nar);
        if e.result.Ok? {
          match NewBinaryOperatorNode(x.result.value.value, Some(acc), Some(e.result.value))
          case Err(_) =>
          case Ok(n) =>
            FactorLoopNestsLeft(n, e.st, nar);
            if FactorLoop(n, e.st, nar).result.Ok? {
              assert OnLeftSpine(acc, n, {Raise}, {});
              LeftSpineIsTransitive(acc, n, FactorLoop(n, e.st, nar).result.value, {Raise}, {});
            }
        }
      }
    }
  }

  /**
   * One turn of the `+`/`-` loop: the operator makes one node with everything
   * built so far on its left and the single term after the operator on its
   * right, and the loop goes on from that node. So "a-b-c" is "(a-b)-c".
   */
  lemma AdditiveStepNestsLeft(acc: Node, st: PState, nar: Narrowing)
    requires Consistent(st) && (Check(Plus, st) || Check(Minus, st))
    requires EatStep(st.look.value.tokenType, st).result.Ok?
    requires TermStep(EatStep(st.look.value.tokenType, st).st, nar).result.Ok?
    ensures
      var t := TermStep(EatStep(st.look.value.tokenType, st).st, nar);
      var op := if Check(Plus, st) then Add else Subtract;
      ExpressionLoop(acc, st, nar) == ExpressionLoop(BinaryOperatorNode(op, acc, t.result.value), t.st, nar)
  {
  }

  /**
   * One infix turn of the term loop: the operator makes one node with
   * everything built so far on its left and the single factor after the
   * operator on its right, and the loop goes on from that node. A `!` after
   * that factor is met by the loop, not by the factor, so it wraps the node.
   */
  lemma InfixStepNestsLeft(acc: Node, st: PState, nar: Narrowing)
    requires Consistent(st) && Check(InfixOperator, st)
    requires EatStep(InfixOperator, st).result.Ok?
    requires FactorStep(EatStep(InfixOperator, st).st, nar).result.Ok?
    ensures BinaryOperatorOf(st.look.value.value).Some? && BinaryOperatorOf(st.look.value.value).value in InfixOps
    ensures
      var f := FactorStep(EatStep(InfixOperator, st).st, nar);
      var op := BinaryOperatorOf(st.look.value.value).value;
      && !Check(Exponent, f.st)
      && TermLoop(acc, st, nar) == TermLoop(BinaryOperatorNode(op, acc, f.result.value), f.st, nar)
  {
    InfixTokenIsInfixOp(st.look.value);
    FactorStopsBeforeCaret(EatStep(InfixOperator, st).st, nar);
  }

  /** A factor that parses stops where no `^` follows: its chain of `^` takes every one. */
  lemma {:induction false} FactorStopsBeforeCaret(st: PState, nar: Narrowing)
    requires Consistent(st)
    ensures FactorStep(st, nar).result.Ok? ==> !Check(Exponent, FactorStep(st, nar).st)
    decreases Measure(st)
  {
    if Check(PrefixOperator, st) || Check(Minus, st) {
      var p := EatStep(st.look.value.tokenType, st);
      if p.result.Ok? {
        FactorStopsBeforeCaret(p.st, nar);
      }
    } else {
      var b := BaseStep(st, nar);
      if b.result.Ok? {
        FactorLoopStopsBeforeCaret(b.result.value, b.st, nar);
      }
    }
  }

  lemma {:induction false} FactorLoopStopsBeforeCaret(acc: Node, st: PState, nar: Narrowing)
    requires Consistent(st)
    ensures FactorLoop(acc, st, nar).result.Ok? ==> !Check(Exponent, FactorLoop(acc, st, nar).st)
    decreases Measure(st)
  {
    if Check(Exponent, st) {
      var x := EatStep(Exponent, st);
      if x.result.Ok? {
        var e := ExponentStep(x.st, nar);
        if e.result.Ok? {
          match NewBinaryOperatorNode(x.result.value.value, Some(acc), Some(e.result.value))
          case Err(_) =>
          case Ok(n) => FactorLoopStopsBeforeCaret(n, e.st, nar);
        }
      }
    }
  }

  /**
   * One turn of the `^` loop: the `^` makes one node with everything built so
   * far on its left and the one exponent after it on its right, and the loop
   * goes on from that node. So "a^b^c" is "(a^b)^c".
   */
  lemma CaretStepNestsLeft(acc: Node, st: PState, nar: Narrowing)
    requires Consistent(st) && Check(Exponent, st)
    requires EatStep(Exponent, st).result.Ok?
    requires ExponentStep(EatStep(Exponent, st).st, nar).result.Ok?
    ensures
      var e := ExponentStep(EatStep(Exponent, st).st, nar);
      FactorLoop(acc, st, nar) == FactorLoop(BinaryOperatorNode(Raise, acc, e.result.value), e.st, nar)
  {
    CaretTokenIsRaise(st.look.value);
  }

  /** What the lexer can hand out as `^` names the power operator. */
  lemma CaretTokenIsRaise(t: Token)
    requires WellFormed(t) && t.tokenType == Exponent
    ensures BinaryOperatorOf(t.value) == Some(Raise)
  {
  }

  /**
   * An exponent without a bracket is a single leaf and takes a single token:
   * the `^` after it is left for the loop, which is why the chain cannot nest
   * to the right.
   */
  lemma UnbracketedExponentIsOneToken(st: PState, nar: Narrowing)
    requires Consistent(st) && !Check(OpenBracket, st)
    requires ExponentStep(st, nar).result.Ok?
    ensures st.look.Some? && (st.look.value.tokenType in {Number, Constant, Variable})
    ensures ExponentStep(st, nar).result.value.NumberNode? || ExponentStep(st, nar).result.value.VariableNode?
    ensures ExponentStep(st, nar).st == EatStep(st.look.value.tokenType, st).st
  {
  }

  /** A postfix `!` wraps the whole term built so far, and the loop goes on from the wrapped term. */
  lemma PostfixWrapsTermSoFar(acc: Node, st: PState, nar: Narrowing)
    requires Consistent(st) && Check(PostfixOperator, st)
    requires EatStep(PostfixOperator, st).result.Ok?
    ensures TermLoop(acc, st, nar) == TermLoop(UnaryOperatorNode(FactorialOf, acc), EatStep(PostfixOperator, st).st, nar)
  {
  }

  /**
   * A prefix operator or a minus applies to the whole factor after it, that is
   * to a base together with its `^` chain: "-2^2" is "-(2^2)", and prefixes
   * stack, as in "--x".
   */
  lemma PrefixTakesWholeFactor(st: PState, nar: Narrowing)
    requires Consistent(st) && (Check(PrefixOperator, st) || Check(Minus, st))
    requires EatStep(st.look.value.tokenType, st).result.Ok?
    requires FactorStep(EatStep(st.look.value.tokenType, st).st, nar).result.Ok?
    ensures UnaryOperatorOf(st.look.value.value).Some?
    ensures
      var f := FactorStep(EatStep(st.look.value.tokenType, st).st, nar);
      FactorStep(st, nar) == Step(Ok(UnaryOperatorNode(UnaryOperatorOf(st.look.value.value).value, f.result.value)), f.st)
  {
    OperatorTokensAreSupported(st.look.value);
  }

  /**
   * What follows `^` can only be a bracketed expression, a number, a constant or
   * a variable; anything else, a minus in particular, is "Expected a number".
   * So "2^-1" is an error.
   */
  lemma ExponentIsPrimary(acc: Node, st: PState, nar: Narrowing)
    requires Consistent(st) && Check(Exponent, st)
    requires EatStep(Exponent, st).result.Ok?
    requires
      var s := EatStep(Exponent, st).st;
      !Check(OpenBracket, s) && !Check(Number, s) && !Check(Constant, s) && !Check(Variable, s)
    ensures FactorLoop(acc, st, nar).result == Err(ExpectedNumber)
  {
    var s := EatStep(Exponent, st).st;
    assert ExponentStep(s, nar) == NumberStep(s);
  }

  /** The special case the grammar's authors would meet first: `^` followed by `-`. */
  lemma NegativeExponentIsRejected(acc: Node, st: PState, nar: Narrowing)
    requires Consistent(st) && Check(Exponent, st)
    requires EatStep(Exponent, st).result.Ok? && Check(Minus, EatStep(Exponent, st).st)
    ensures FactorLoop(acc, st, nar).result == Err(ExpectedNumber)
  {
    ExponentIsPrimary(acc, st, nar);
  }

  // ---------------------------------------------------------------------
  // Errors that keep what was done before them

  /**
   * An opening bracket whose expression parses but is not followed by `)` is
   * "Missing token: )"; the state is the one the expression left, with its
   * assignments in it.
   */
  lemma UnclosedBracketKeepsState(st: PState, nar: Narrowing)
    requires Consistent(st) && Check(OpenBracket, st)
    requires EatStep(OpenBracket, st).result.Ok?
    requires
      var e := ExpressionStep(EatStep(OpenBracket, st).st, nar);
      e.result.Ok? && !Check(CloseBracket, e.st)
    ensures ExponentStep(st, nar) == Step(Err(MissingCloseBracket), ExpressionStep(EatStep(OpenBracket, st).st, nar).st)
  {
  }

  /** `var` and a name not followed by `=` is the assignment-form error, and nothing is bound. */
  lemma AssignmentNeedsEquals(st: PState, nar: Narrowing)
    requires Consistent(st)
    requires EatStep(Assignment, st).result.Ok?
    requires
      var v := EatStep(Variable, EatStep(Assignment, st).st);
      v.result.Ok? && !Check(Equals, v.st)
    ensures AssignmentStep(st, nar).result == Err(MalformedAssignment)
    ensures AssignmentStep(st, nar).st.env == st.env
  {
  }

  /** A line that fails in its expression leaves the session as the expression left it: nothing is undone. */
  lemma FailedLineKeepsAssignments(source: string, env: Env, nar: Narrowing)
    requires Good(env) && StartState(source, env).Ok? && !Check(Command, StartState(source, env).value)
    requires ExpressionStep(StartState(source, env).value, nar).result.Err?
    ensures ParseLine(source, env, nar).env == ExpressionStep(StartState(source, env).value, nar).st.env
    ensures ParseLine(source, env, nar).result == ExpressionStep(StartState(source, env).value, nar).result
  {
  }

  // ---------------------------------------------------------------------
  // What a line does to the session

  /** The name an assignment binds: the token after `var`. */
  function AssignedName(st: PState): Option<string>
    requires Consistent(st)
  {
    var a := EatStep(Assignment, st);
    if a.result.Ok? && a.st.look.Some? then Some(a.st.look.value.value) else None
  }

  /** A successful assignment binds its name to the value of its expression, the value it returns. */
  lemma AssignmentBindsName(st: PState, nar: Narrowing)
    requires Consistent(st)
    requires AssignmentStep(st, nar).result.Ok?
    ensures AssignedName(st).Some?
    ensures
      var r := AssignmentStep(st, nar);
      AssignedName(st).value in r.st.env.variables && r.st.env.variables[AssignedName(st).value] == r.result.value.value
  {
    var a := EatStep(Assignment, st);
    var v := EatStep(Variable, a.st);
    var q := EatStep(Equals, v.st);
    var e := ExpressionStep(q.st, nar);
    var x := Evaluate(e.result.value, e.st.env.angleMode, nar);
    assert AssignmentStep(st, nar) == Step(Ok(VariableNode(x.value)), e.st.(env := Bind(e.st.env, v.result.value.value, x.value)));
  }

  /** `var x = e` as a line binds `x` and then `ans` to the same value, the line's result. */
  lemma AssignmentLineBindsNameAndAns(source: string, env: Env, nar: Narrowing)
    requires Good(env) && StartState(source, env).Ok? && Check(Assignment, StartState(source, env).value)
    requires ParseLine(source, env, nar).result.Ok?
    ensures AssignedName(StartState(source, env).value).Some?
    ensures
      var o := ParseLine(source, env, nar);
      var name := AssignedName(StartState(source, env).value).value;
      o.result.value.VariableNode? && name in o.env.variables &&
      o.env.variables[name] == o.env.variables["ans"] == o.result.value.value
  {
    var st := StartState(source, env).value;
    AssignmentBindsName(st, nar);
    var e := ExpressionStep(st, nar);
    assert e == AssignmentStep(st, nar);
    assert Evaluate(e.result.value, e.st.env.angleMode, nar) == Ok(e.result.value.value);
  }

  /**
   * A line that starts with a command reads just one token past it: two lines
   * with the same command and a next token that lexes give the same result and
   * session, whatever else they hold, and the session changes only in its modes.
   */
  lemma CommandLineReadsOneToken(s1: string, s2: string, env: Env, nar1: Narrowing, nar2: Narrowing)
    requires Good(env) && StartState(s1, env).Ok? && StartState(s2, env).Ok?
    requires Check(Command, StartState(s1, env).value)
    requires StartState(s1, env).value.look == StartState(s2, env).value.look
    requires LexAt(StartState(s1, env).value.input, StartState(s1, env).value.cursor).Ok?
    requires LexAt(StartState(s2, env).value.input, StartState(s2, env).value.cursor).Ok?
    ensures ParseLine(s1, env, nar1) == ParseLine(s2, env, nar2)
    ensures ParseLine(s1, env, nar1) == Outcome(Ok(CommandNode), RunCommand(env, StartState(s1, env).value.look.value.value))
  {
  }

  /**
   * Tokens after the first complete expression are neither consumed nor
   * rejected: when the expression parses and evaluates the line succeeds, with
   * the look-ahead still holding the next token.
   */
  lemma TrailingTokensAreIgnored(source: string, env: Env, nar: Narrowing)
    requires Good(env) && StartState(source, env).Ok? && !Check(Command, StartState(source, env).value)
    requires
      var e := ExpressionStep(StartState(source, env).value, nar);
      e.result.Ok? && Evaluate(e.result.value, e.st.env.angleMode, nar).Ok?
    ensures
      var e := ExpressionStep(StartState(source, env).value, nar);
      var v := Evaluate(e.result.value, e.st.env.angleMode, nar).value;
      ParseLine(source, env, nar) == Outcome(Ok(VariableNode(v)), Bind(e.st.env, "ans", v))
  {
  }
}
