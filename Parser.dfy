/**
 * The parser object. It keeps the lexer of the current line and the one-token
 * look-ahead, and shares the session statics with the node constructors. Each
 * method is proved to compute exactly what its production in `Grammar` says,
 * result and new state alike.
 */
module Parsing {
  import opened Wrappers
  import opened TokenKinds
  import opened Tokens
  import opened Errors
  import opened Lexing
  import opened Values
  import opened Session
  import opened Globals
  import opened Nodes
  import opened Grammar

  class Parser {
    /** The static fields of the node classes. */
    const statics: Statics
    /** How a double is narrowed to `long` and `int`. */
    const nar: Narrowing
    var lexer: Lexer?
    var nextToken: Option<Token>

    constructor (statics: Statics, nar: Narrowing)
      ensures this.statics == statics && this.nar == nar
      ensures lexer == null && nextToken == None
    {
      this.statics := statics;
      this.nar := nar;
      lexer := null;
      nextToken := None;
    }

    ghost function State(): PState
      requires lexer != null
      reads this, lexer, statics
    {
      PState(lexer.input, lexer.cursor, nextToken, statics.Env())
    }

    ghost predicate Valid()
      reads this, lexer, statics
    {
      lexer != null && lexer.Valid() && Consistent(State())
    }

    /** `checkNextTokenType`: looks at the look-ahead and consumes nothing. */
    function CheckNextTokenType(k: TokenType): (b: bool)
      reads this, lexer, statics
      ensures lexer != null ==> b == Check(k, State())
    {
      nextToken.Some? && nextToken.value.tokenType == k
    }

    method Eat(k: TokenType) returns (r: Result<Token, Error>)
      requires Valid()
      modifies this, lexer
      ensures Valid() && lexer == old(lexer)
      ensures Step(r, State()) == EatStep(k, old(State()))
    {
      if nextToken.None? {
        return Err(UnexpectedEnd(k));
      }
      if nextToken.value.tokenType != k {
        return Err(UnexpectedToken(lexer.cursor, nextToken.value.tokenType, k));
      }
      var token := nextToken.value;
      var next := lexer.GetNextToken();
      if next.Err? {
        return Err(next.error);
      }
      LexedTokenIsWellFormed(lexer.input, old(lexer.cursor));
      nextToken := next.value;
      return Ok(token);
    }

    method ParseNumber() returns (r: Result<Node, Error>)
      requires Valid()
      modifies this, lexer, statics
      ensures Valid() && lexer == old(lexer)
      ensures Step(r, State()) == NumberStep(old(State()))
    {
      if CheckNextTokenType(TokenType.Number) {
        var t := Eat(TokenType.Number);
        if t.Err? {
          return Err(t.error);
        }
        return Ok(NewNumberNode(t.value.value, statics.Env()));
      }
      if CheckNextTokenType(Constant) {
        var t := Eat(Constant);
        if t.Err? {
          return Err(t.error);
        }
        return Ok(NewNumberNode(t.value.value, statics.Env()));
      }
      if CheckNextTokenType(Variable) {
        var t := Eat(Variable);
        if t.Err? {
          return Err(t.error);
        }
        var v := statics.Lookup(t.value.value);
        if v.Err? {
          return Err(v.error);
        }
        return Ok(VariableNode(v.value));
      }
      return Err(ExpectedNumber);
    }

    method ParseExponent() returns (r: Result<Node, Error>)
      requires Valid()
      modifies this, lexer, statics
      ensures Valid() && lexer == old(lexer)
      ensures Step(r, State()) == ExponentStep(old(State()), nar)
      decreases Measure(State()), 3
    {
      if CheckNextTokenType(OpenBracket) {
        var o := Eat(OpenBracket);
        if o.Err? {
          return Err(o.error);
        }
        var e := ParseExpression();
        if e.Err? {
          return e;
        }
        if !CheckNextTokenType(CloseBracket) {
          return Err(MissingCloseBracket);
        }
        var c := Eat(CloseBracket);
        if c.Err? {
          return Err(c.error);
        }
        return e;
      }
      r := ParseNumber();
    }

    method ParseBase() returns (r: Result<Node, Error>)
      requires Valid()
      modifies this, lexer, statics
      ensures Valid() && lexer == old(lexer)
      ensures Step(r, State()) == BaseStep(old(State()), nar)
      decreases Measure(State()), 4
    {
      r := ParseExponent();
    }

    method ParseFactor() returns (r: Result<Node, Error>)
      requires Valid()
      modifies this, lexer, statics
      ensures Valid() && lexer == old(lexer)
      ensures Step(r, State()) == FactorStep(old(State()), nar)
      decreases Measure(State()), 6
    {
      if CheckNextTokenType(PrefixOperator) || CheckNextTokenType(Minus) {
        var p := Eat(nextToken.value.tokenType);
        if p.Err? {
          return Err(p.error);
        }
        var f := ParseFactor();
        if f.Err? {
          return f;
        }
        return NewUnaryOperatorNode(p.value.value, Some(f.value));
      }
      var b := ParseBase();
      if b.Err? {
        return b;
      }
      var base := b.value;
      while true
        invariant Valid() && lexer == old(lexer)
        invariant Measure(State()) <= old(Measure(State()))
        invariant FactorStep(old(State()), nar) == FactorLoop(base, State(), nar)
        decreases Measure(State())
      {
        if CheckNextTokenType(Exponent) {
          var x := Eat(Exponent);
          if x.Err? {
            return Err(x.error);
          }
          var e := ParseExponent();
          if e.Err? {
            return e;
          }
          var n := NewBinaryOperatorNode(x.value.value, Some(base), Some(e.value));
          if n.Err? {
            return Err(n.error);
          }
          base := n.value;
        } else {
          return Ok(base);
        }
      }
    }

    method ParseTerm() returns (r: Result<Node, Error>)
      requires Valid()
      modifies this, lexer, statics
      ensures Valid() && lexer == old(lexer)
      ensures Step(r, State()) == TermStep(old(State()), nar)
      decreases Measure(State()), 8
    {
      var f := ParseFactor();
      if f.Err? {
        return f;
      }
      var factor := f.value;
      while true
        invariant Valid() && lexer == old(lexer)
        invariant Measure(State()) <= old(Measure(State()))
        invariant TermStep(old(State()), nar) == TermLoop(factor, State(), nar)
        decreases Measure(State())
      {
        if CheckNextTokenType(InfixOperator) {
          var x := Eat(InfixOperator);
          if x.Err? {
            return Err(x.error);
          }
          var right := ParseFactor();
          if right.Err? {
            return right;
          }
          var n := NewBinaryOperatorNode(x.value.value, Some(factor), Some(right.value));
          if n.Err? {
            return Err(n.error);
          }
          factor := n.value;
        } else if CheckNextTokenType(PostfixOperator) {
          var x := Eat(PostfixOperator);
          if x.Err? {
            return Err(x.error);
          }
          var n := NewUnaryOperatorNode(x.value.value, Some(factor));
          if n.Err? {
            return Err(n.error);
          }
          factor := n.value;
        } else {
          return Ok(factor);
        }
      }
    }

    method ParseExpression() returns (r: Result<Node, Error>)
      requires Valid()
      modifies this, lexer, statics
      ensures Valid() && lexer == old(lexer)
      ensures Step(r, State()) == ExpressionStep(old(State()), nar)
      decreases Measure(State()), 10
    {
      if CheckNextTokenType(Assignment) {
        r := ParseVariableAssignment();
        return;
      }
      var t := ParseTerm();
      if t.Err? {
        return t;
      }
      var term := t.value;
      while true
        invariant Valid() && lexer == old(lexer)
        invariant Measure(State()) <= old(Measure(State()))
        invariant ExpressionStep(old(State()), nar) == ExpressionLoop(term, State(), nar)
        decreases Measure(State())
      {
        if CheckNextTokenType(Plus) || CheckNextTokenType(Minus) {
          var x := Eat(nextToken.value.tokenType);
          if x.Err? {
            return Err(x.error);
          }
          var right := ParseTerm();
          if right.Err? {
            return right;
          }
          var n := NewBinaryOperatorNode(x.value.value, Some(term), Some(right.value));
          if n.Err? {
            return Err(n.error);
          }
          term := n.value;
        } else {
          return Ok(term);
        }
      }
    }

    method ParseVariableAssignment() returns (r: Result<Node, Error>)
      requires Valid()
      modifies this, lexer, statics
      ensures Valid() && lexer == old(lexer)
      ensures Step(r, State()) == AssignmentStep(old(State()), nar)
      decreases Measure(State()), 9
    {
      var a := Eat(Assignment);
      if a.Err? {
        return Err(a.error);
      }
      var variable := Eat(Variable);
      if variable.Err? {
        return Err(variable.error);
      }
      var name := variable.value.value;
      if !CheckNextTokenType(Equals) {
        return Err(MalformedAssignment);
      }
      var q := Eat(Equals);
      if q.Err? {
        return Err(q.error);
      }
      var e := ParseExpression();
      if e.Err? {
        return e;
      }
      var value := Evaluate(e.value, statics.angleMode, nar);
      if value.Err? {
        return Err(value.error);
      }
      Variables.BindKeepsAns(statics.Env(), name, value.value);
      statics.Assign(name, value.value);
      return Ok(VariableNode(value.value));
    }

    /**
     * `parse`: a fresh lexer over the line, then a command or an expression
     * whose value is bound to `ans`. If the first token cannot be lexed the old
     * look-ahead is left in place.
     */
    method Parse(input: string) returns (r: Result<Node, Error>)
      requires Good(statics.Env())
      modifies this, statics
      ensures Outcome(r, statics.Env()) == ParseLine(input, old(statics.Env()), nar)
      ensures lexer != null && fresh(lexer) && lexer.input == Strip(input)
      ensures StartState(input, old(statics.Env())).Err? ==> nextToken == old(nextToken)
    {
      ghost var start := StartState(input, statics.Env());
      lexer := new Lexer(input);
      var first := lexer.GetNextToken();
      if first.Err? {
        assert start == Err(first.error);
        return Err(first.error);
      }
      LexedTokenIsWellFormed(lexer.input, 0);
      nextToken := first.value;
      assert start == Ok(State());
      r := ParseStarted();
    }

    /** The rest of `parse` once the first token is the look-ahead: a command, or an expression line. */
    method ParseStarted() returns (r: Result<Node, Error>)
      requires Valid()
      modifies this, lexer, statics
      ensures lexer == old(lexer)
      ensures Outcome(r, statics.Env()) == LineStep(old(State()), nar)
    {
      if CheckNextTokenType(Command) {
        var c := Eat(Command);
        if c.Err? {
          return Err(c.error);
        }
        statics.Command(c.value.value);
        return Ok(CommandNode);
      }
      r := ParseExpressionLine();
    }

    /** The expression branch of `parse`: the value is bound to `ans`. */
    method ParseExpressionLine() returns (r: Result<Node, Error>)
      requires Valid()
      modifies this, lexer, statics
      ensures lexer == old(lexer)
      ensures Outcome(r, statics.Env()) == ExpressionLine(old(State()), nar)
    {
      var e := ParseExpression();
      if e.Err? {
        return e;
      }
      var value := Evaluate(e.value, statics.angleMode, nar);
      if value.Err? {
        return Err(value.error);
      }
      statics.Assign("ans", value.value);
      return Ok(VariableNode(value.value));
    }
  }
}
