/**
 * The exceptions the calculator raises, as values. The lexer, the parser and
 * variable lookup raise a syntax exception; the node constructors and the
 * factorial raise an illegal-argument exception.
 */
module Errors {
  import opened TokenKinds

  datatype Error =
    /** No pattern matches at `index`, whose character is `character`. */
    | UnexpectedCharacter(index: nat, character: char)
    /** `eat` found no look-ahead token. */
    | UnexpectedEnd(expected: TokenType)
    /** `eat` found a token of another kind; `index` is the lexer's cursor. */
    | UnexpectedToken(index: nat, found: TokenType, expected: TokenType)
    /** "Missing token: )" */
    | MissingCloseBracket
    /** `var name` not followed by `=`. */
    | MalformedAssignment
    /** "Expected a number like 5 or 1.2 or a constant like pi or e." */
    | ExpectedNumber
    /** "The variable <name> is undefined." */
    | UndefinedVariable(name: string)
    /** A node constructor was given a null child. */
    | NullOperand
    /** "Unary operator <token> not supported." */
    | UnsupportedUnaryOperator(token: string)
    /** "Binary operator <token> not supported." */
    | UnsupportedBinaryOperator(token: string)
    /** Factorial of a negative number. */
    | NegativeFactorial
}
