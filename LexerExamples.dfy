/**
 * How the lexer treats particular inputs: operator and bracket characters,
 * digits, names and the `var` keyword, and worked inputs showing that keyword
 * kinds come before VARIABLE, that a number stops before a trailing point and
 * that a name stops before a digit.
 *
 * The lexer tries the kinds in declaration order. `Skip` says that a kind
 * that does not match is passed over, `Take` that the first kind reached that
 * matches gives the token; the `Pass...` lemmas group three such steps, and
 * the lemmas about the lexer chain the groups.
 */
module LexerExamples {
  import opened Wrappers
  import opened TokenKinds
  import opened Tokens
  import opened Errors
  import opened Lexing

  lemma Skip(rest: string, i: nat, k: TokenType)
    requires i < |Values| && Values[i] == k && Match(k, rest).None?
    ensures FirstMatchFrom(rest, i) == FirstMatchFrom(rest, i + 1)
  {
  }

  lemma Take(rest: string, i: nat, k: TokenType, n: nat)
    requires i < |Values| && Values[i] == k && Match(k, rest) == Some(n)
    ensures FirstMatchFrom(rest, i) == Some(Token(k, rest[..n]))
  {
  }

  lemma PassCommandNumberPlus(rest: string)
    requires Match(Command, rest).None? && Match(Number, rest).None? && Match(Plus, rest).None?
    ensures FirstMatchFrom(rest, 0) == FirstMatchFrom(rest, 3)
  {
    Skip(rest, 0, Command);
    Skip(rest, 1, Number);
    Skip(rest, 2, Plus);
  }

  lemma PassMinusExponentPrefix(rest: string)
    requires Match(Minus, rest).None? && Match(Exponent, rest).None? && Match(PrefixOperator, rest).None?
    ensures FirstMatchFrom(rest, 3) == FirstMatchFrom(rest, 6)
  {
    Skip(rest, 3, Minus);
    Skip(rest, 4, Exponent);
    Skip(rest, 5, PrefixOperator);
  }

  lemma PassInfixPostfixOpen(rest: string)
    requires Match(InfixOperator, rest).None? && Match(PostfixOperator, rest).None? && Match(OpenBracket, rest).None?
    ensures FirstMatchFrom(rest, 6) == FirstMatchFrom(rest, 9)
  {
    Skip(rest, 6, InfixOperator);
    Skip(rest, 7, PostfixOperator);
    Skip(rest, 8, OpenBracket);
  }

  lemma PassCloseConstantAssignment(rest: string)
    requires Match(CloseBracket, rest).None? && Match(Constant, rest).None? && Match(Assignment, rest).None?
    ensures FirstMatchFrom(rest, 9) == FirstMatchFrom(rest, 12)
  {
    Skip(rest, 9, CloseBracket);
    Skip(rest, 10, Constant);
    Skip(rest, 11, Assignment);
  }

  /** An alternation matches nothing when no alternative starts with the first character. */
  lemma NoWordStartsWith(rest: string, words: seq<string>)
    requires |rest| > 0
    requires forall j :: 0 <= j < |words| ==> |words[j]| > 0 && words[j][0] != rest[0]
    ensures MatchWords(rest, words).None?
  {
    FirstWordIsFirst(rest, words);
  }

  lemma NoCommand(rest: string)
    requires |rest| > 0 && rest[0] != 'r' && rest[0] != 'd' && rest[0] != 'g' && rest[0] != 's' && rest[0] != 'e' && rest[0] != 'c'
    ensures Match(Command, rest).None?
  {
    NoWordStartsWith(rest, CommandWords);
  }

  lemma NoPrefix(rest: string)
    requires |rest| > 0 && rest[0] != '~' && rest[0] != 's' && rest[0] != 'c' && rest[0] != 't'
    ensures Match(PrefixOperator, rest).None?
  {
    NoWordStartsWith(rest, PrefixWords);
  }

  lemma NoConstant(rest: string)
    requires |rest| > 0 && rest[0] != 'e' && rest[0] != 'p' && rest[0] != 'a'
    ensures Match(Constant, rest).None?
  {
    NoWordStartsWith(rest, ConstantWords);
  }

  lemma NoAssignment(rest: string)
    requires |rest| > 0 && rest[0] != 'v'
    ensures Match(Assignment, rest).None?
  {
    NoWordStartsWith(rest, AssignmentWords);
  }

  /** The lexer's answer at the cursor is the first match on the rest of the input. */
  lemma Found(input: string, cursor: nat, k: TokenType, n: nat)
    requires cursor < |input| && n <= |input| - cursor
    requires FirstMatchFrom(input[cursor..], 0) == Some(Token(k, input[cursor..][..n]))
    ensures LexAt(input, cursor) == Ok(Some(Token(k, input[cursor..cursor + n])))
  {
    assert input[cursor..][..n] == input[cursor..cursor + n];
  }

  /** A `[a-z_]` character is matched by no number, operator, bracket or `=` pattern. */
  lemma NameCharIsNoSymbol(rest: string)
    requires |rest| > 0 && IsVariableChar(rest[0])
    ensures Match(Number, rest).None? && Match(Plus, rest).None? && Match(Minus, rest).None?
    ensures Match(Exponent, rest).None? && Match(InfixOperator, rest).None? && Match(PostfixOperator, rest).None?
    ensures Match(OpenBracket, rest).None? && Match(CloseBracket, rest).None? && Match(Equals, rest).None?
  {
  }

  /** A name that no keyword begins like is a variable token, up to the end of its run. */
  lemma NameLexes(input: string, cursor: nat)
    requires cursor < |input| && IsVariableChar(input[cursor])
    requires input[cursor] !in "rdgsectpav"
    ensures LexAt(input, cursor) == Ok(Some(Token(Variable, input[cursor..cursor + Run(input[cursor..], VariableChars)])))
  {
    var rest := input[cursor..];
    NameIsFirst(rest);
    Found(input, cursor, Variable, Run(rest, VariableChars));
  }

  /** On the rest of the input: a name no keyword begins like is found at VARIABLE. */
  lemma {:induction false} NameIsFirst(rest: string)
    requires |rest| > 0 && IsVariableChar(rest[0]) && rest[0] !in "rdgsectpav"
    ensures FirstMatchFrom(rest, 0) == Some(Token(Variable, rest[..Run(rest, VariableChars)]))
  {
    var n := Run(rest, VariableChars);
    var c := rest[0];
    assert c != 'r' && c != 'd' && c != 'g' && c != 's' && c != 'e' && c != 'c' && c != 't' && c != 'p' && c != 'a' && c != 'v';
    NameCharIsNoSymbol(rest);
    NoCommand(rest);
    NoPrefix(rest);
    NoConstant(rest);
    NoAssignment(rest);
    PassCommandNumberPlus(rest);
    PassMinusExponentPrefix(rest);
    PassInfixPostfixOpen(rest);
    PassCloseConstantAssignment(rest);
    Take(rest, 12, Variable, n);
  }

  /** A digit followed by neither a digit nor a point is a number token on its own. */
  lemma DigitLexes(input: string, cursor: nat)
    requires cursor < |input| && IsDigit(input[cursor])
    requires cursor + 1 == |input| || (!IsDigit(input[cursor + 1]) && input[cursor + 1] != '.')
    ensures LexAt(input, cursor) == Ok(Some(Token(Number, input[cursor..cursor + 1])))
  {
    var rest := input[cursor..];
    NoCommand(rest);
    assert Run(rest[1..], Digits) == 0;
    Skip(rest, 0, Command);
    Take(rest, 1, Number, 1);
    Found(input, cursor, Number, 1);
  }

  /** The kind of a one-character token. */
  function PunctuationKind(c: char): TokenType
  {
    match c
    case '+' => Plus
    case '-' => Minus
    case '^' => Exponent
    case '!' => PostfixOperator
    case '(' => OpenBracket
    case ')' => CloseBracket
    case '=' => Equals
    case _ => InfixOperator
  }

  /** `+`, `-` and `^` are found among the first kinds. */
  lemma SignLexes(input: string, cursor: nat)
    requires cursor < |input| && input[cursor] in "+-^"
    ensures LexAt(input, cursor) == Ok(Some(Token(PunctuationKind(input[cursor]), input[cursor..cursor + 1])))
  {
    var rest := input[cursor..];
    SignIsFirst(rest);
    Found(input, cursor, PunctuationKind(input[cursor]), 1);
  }

  /** On the rest of the input: a sign is found at its own kind. */
  lemma {:induction false} SignIsFirst(rest: string)
    requires |rest| > 0 && rest[0] in "+-^"
    ensures FirstMatchFrom(rest, 0) == Some(Token(PunctuationKind(rest[0]), rest[..1]))
  {
    NoCommand(rest);
    Skip(rest, 0, Command);
    Skip(rest, 1, Number);
    if rest[0] == '+' {
      Take(rest, 2, Plus, 1);
    } else if rest[0] == '-' {
      Skip(rest, 2, Plus);
      Take(rest, 3, Minus, 1);
    } else {
      Skip(rest, 2, Plus);
      Skip(rest, 3, Minus);
      Take(rest, 4, Exponent, 1);
    }

  }

  /** The six infix characters are found at INFIX_OPERATOR. */
  lemma InfixCharLexes(input: string, cursor: nat)
    requires cursor < |input| && input[cursor] in "&%E|*/"
    ensures LexAt(input, cursor) == Ok(Some(Token(InfixOperator, input[cursor..cursor + 1])))
  {
    var rest := input[cursor..];
    NoCommand(rest);
    NoPrefix(rest);
    PassCommandNumberPlus(rest);
    PassMinusExponentPrefix(rest);
    Take(rest, 6, InfixOperator, 1);
    Found(input, cursor, InfixOperator, 1);
  }

  /** `!` and the brackets are found among the kinds after INFIX_OPERATOR. */
  lemma PostfixOrBracketLexes(input: string, cursor: nat)
    requires cursor < |input| && input[cursor] in "!()"
    ensures LexAt(input, cursor) == Ok(Some(Token(PunctuationKind(input[cursor]), input[cursor..cursor + 1])))
  {
    var rest := input[cursor..];
    BangOrBracketIsFirst(rest);
    Found(input, cursor, PunctuationKind(input[cursor]), 1);
  }

  /** On the rest of the input: `!` or a bracket is found at its own kind. */
  lemma {:induction false} BangOrBracketIsFirst(rest: string)
    requires |rest| > 0 && rest[0] in "!()"
    ensures FirstMatchFrom(rest, 0) == Some(Token(PunctuationKind(rest[0]), rest[..1]))
  {
    BangOrBracketIsNoEarlierSymbol(rest);
    NoCommand(rest);
    NoPrefix(rest);
    PassCommandNumberPlus(rest);
    PassMinusExponentPrefix(rest);
    Skip(rest, 6, InfixOperator);
    if rest[0] == '!' {
      Take(rest, 7, PostfixOperator, 1);
    } else if rest[0] == '(' {
      Skip(rest, 7, PostfixOperator);
      Take(rest, 8, OpenBracket, 1);
    } else {
      Skip(rest, 7, PostfixOperator);
      Skip(rest, 8, OpenBracket);
      Take(rest, 9, CloseBracket, 1);
    }

  }

  /** `!` and the brackets are matched by no number, sign or infix pattern. */
  lemma BangOrBracketIsNoEarlierSymbol(rest: string)
    requires |rest| > 0 && rest[0] in "!()"
    ensures Match(Number, rest).None? && Match(Plus, rest).None? && Match(Minus, rest).None?
    ensures Match(Exponent, rest).None? && Match(InfixOperator, rest).None?
  {
  }

  /** `=` is found only at the last kind. */
  lemma EqualsLexes(input: string, cursor: nat)
    requires cursor < |input| && input[cursor] == '='
    ensures LexAt(input, cursor) == Ok(Some(Token(Equals, input[cursor..cursor + 1])))
  {
    var rest := input[cursor..];
    EqualsIsFirst(rest);
    Found(input, cursor, Equals, 1);
  }

  /** On the rest of the input: `=` is found at EQUALS. */
  lemma {:induction false} EqualsIsFirst(rest: string)
    requires |rest| > 0 && rest[0] == '='
    ensures FirstMatchFrom(rest, 0) == Some(Token(Equals, rest[..1]))
  {
    EqualsIsNoOtherSymbol(rest);
    NoCommand(rest);
    NoPrefix(rest);
    NoConstant(rest);
    NoAssignment(rest);
    PassCommandNumberPlus(rest);
    PassMinusExponentPrefix(rest);
    PassInfixPostfixOpen(rest);
    PassCloseConstantAssignment(rest);
    Skip(rest, 12, Variable);
    Take(rest, 13, Equals, 1);
  }

  /** `=` is matched by no number, name, operator or bracket pattern. */
  lemma EqualsIsNoOtherSymbol(rest: string)
    requires |rest| > 0 && rest[0] == '='
    ensures Match(Number, rest).None? && Match(Plus, rest).None? && Match(Minus, rest).None?
    ensures Match(Exponent, rest).None? && Match(InfixOperator, rest).None? && Match(PostfixOperator, rest).None?
    ensures Match(OpenBracket, rest).None? && Match(CloseBracket, rest).None? && Match(Variable, rest).None?
  {
  }

  /** Each operator and bracket character is a token on its own, of the kind it stands for. */
  lemma PunctuationLexes(input: string, cursor: nat)
    requires cursor < |input| && input[cursor] in "+-^!()=&%E|*/"
    ensures LexAt(input, cursor) == Ok(Some(Token(PunctuationKind(input[cursor]), input[cursor..cursor + 1])))
  {
    var c := input[cursor];
    if c in "+-^" {
      SignLexes(input, cursor);
    } else if c in "&%E|*/" {
      InfixCharLexes(input, cursor);
    } else if c == '=' {
      EqualsLexes(input, cursor);
    } else {
      PostfixOrBracketLexes(input, cursor);
    }
  }

  /** `var` at the cursor is the assignment keyword, whatever follows it. */
  lemma VarLexes(input: string, cursor: nat)
    requires cursor + 3 <= |input| && input[cursor..cursor + 3] == "var"
    ensures LexAt(input, cursor) == Ok(Some(Token(Assignment, input[cursor..cursor + 3])))
  {
    var rest := input[cursor..];
    VarIsFirst(rest);
    Found(input, cursor, Assignment, 3);
  }

  /** On the rest of the input: `var` is found at ASSIGNMENT. */
  lemma {:induction false} VarIsFirst(rest: string)
    requires |rest| >= 3 && rest[..3] == "var"
    ensures FirstMatchFrom(rest, 0) == Some(Token(Assignment, rest[..3]))
  {
    assert rest[0] == 'v';
    NameCharIsNoSymbol(rest);
    NoCommand(rest);
    NoPrefix(rest);
    NoConstant(rest);
    PassCommandNumberPlus(rest);
    PassMinusExponentPrefix(rest);
    PassInfixPostfixOpen(rest);
    Skip(rest, 9, CloseBracket);
    Skip(rest, 10, Constant);
    StartsWithIsPrefix(rest, "var");
    Take(rest, 11, Assignment, 3);
  }

  /** An alternation matches nothing when the input starts with none of its alternatives. */
  lemma NoWordMatches(rest: string, words: seq<string>)
    requires forall j :: 0 <= j < |words| ==> !StartsWith(rest, words[j])
    ensures MatchWords(rest, words).None?
  {
    FirstWordIsFirst(rest, words);
  }

  /** "degree": the command "deg" comes first, then the variable "ree". */
  lemma DegreeLexes()
    ensures LexAt("degree", 0) == Ok(Some(Token(Command, "deg")))
    ensures LexAt("degree", 3) == Ok(Some(Token(Variable, "ree")))
  {
    FirstIs("degree", Command);
    assert "degree"[..3] == "deg";
    ReeLexes("degree", 3);
    assert "degree"[3..] == "ree";
  }

  /** "ree" at the end of the input is a variable, though two commands begin with `r`. */
  lemma ReeLexes(input: string, cursor: nat)
    requires cursor + 3 == |input| && input[cursor] == 'r' && input[cursor + 1] == 'e' && input[cursor + 2] == 'e'
    ensures LexAt(input, cursor) == Ok(Some(Token(Variable, input[cursor..])))
  {
    var rest := input[cursor..];
    NameCharIsNoSymbol(rest);
    NoCommandAtRee(rest);
    NoPrefix(rest);
    NoConstant(rest);
    NoAssignment(rest);
    PassCommandNumberPlus(rest);
    PassMinusExponentPrefix(rest);
    PassInfixPostfixOpen(rest);
    PassCloseConstantAssignment(rest);
    RunOfThree(rest, VariableChars);
    Take(rest, 12, Variable, 3);
    Found(input, cursor, Variable, 3);
    assert input[cursor..cursor + 3] == input[cursor..];
  }

  lemma RunOfThree(s: string, cls: CharClass)
    requires |s| == 3 && InClass(cls, s[0]) && InClass(cls, s[1]) && InClass(cls, s[2])
    ensures Run(s, cls) == 3
  {
    RunOfOne(s[2..], cls);
    assert s[1..][1..] == s[2..];
  }

  lemma NoCommandAtRee(rest: string)
    requires |rest| == 3 && rest[0] == 'r' && rest[1] == 'e' && rest[2] == 'e'
    ensures Match(Command, rest).None?
  {
    forall j | 0 <= j < |CommandWords|
      ensures !StartsWith(rest, CommandWords[j])
    {
      StartsWithIsPrefix(rest, CommandWords[j]);
    }
    NoWordMatches(rest, CommandWords);
  }

  /** "ex": the constant "e" comes first, then the variable "x". */
  lemma ExLexes()
    ensures LexAt("ex", 0) == Ok(Some(Token(Constant, "e")))
    ensures LexAt("ex", 1) == Ok(Some(Token(Variable, "x")))
  {
    ConstantELexes("ex", 0);
    assert "ex"[0..1] == "e";
    XAfterELexes("ex");
  }

  /** A one-character text in the class is a run of length one. */
  lemma RunOfOne(s: string, cls: CharClass)
    requires |s| == 1 && InClass(cls, s[0])
    ensures Run(s, cls) == 1
  {
    assert s[1..] == [];
  }

  /** A final `x` after one character is the variable "x". */
  lemma XAfterELexes(input: string)
    requires |input| == 2 && input[1] == 'x'
    ensures LexAt(input, 1) == Ok(Some(Token(Variable, "x")))
  {
    NameLexes(input, 1);
    RunOfOne(input[1..], VariableChars);
    assert input[1..2] == "x";
  }

  /** `e` followed by `x` at the end of the input is the constant `e`, though "exit" begins the same way. */
  lemma ConstantELexes(input: string, cursor: nat)
    requires cursor + 2 == |input| && input[cursor] == 'e' && input[cursor + 1] == 'x'
    ensures LexAt(input, cursor) == Ok(Some(Token(Constant, input[cursor..cursor + 1])))
  {
    var rest := input[cursor..];
    NameCharIsNoSymbol(rest);
    NoCommandAtEx(rest);
    NoPrefix(rest);
    PassCommandNumberPlus(rest);
    PassMinusExponentPrefix(rest);
    PassInfixPostfixOpen(rest);
    Skip(rest, 9, CloseBracket);
    assert StartsWith(rest, "e");
    Take(rest, 10, Constant, 1);
    Found(input, cursor, Constant, 1);
  }

  lemma NoCommandAtEx(rest: string)
    requires |rest| == 2 && rest[0] == 'e' && rest[1] == 'x'
    ensures Match(Command, rest).None?
  {
    forall j | 0 <= j < |CommandWords|
      ensures !StartsWith(rest, CommandWords[j])
    {
      StartsWithIsPrefix(rest, CommandWords[j]);
    }
    NoWordMatches(rest, CommandWords);
  }

  /** "x1": the variable "x", then the number "1". */
  lemma NameStopsBeforeDigit()
    ensures LexAt("x1", 0) == Ok(Some(Token(Variable, "x")))
    ensures LexAt("x1", 1) == Ok(Some(Token(Number, "1")))
  {
    NameLexes("x1", 0);
    assert "x1"[0..] == "x1";
    assert Run("x1", VariableChars) == 1 by {
      RunIsLongest("x1", VariableChars, 1);
      RunIsMaximal("x1", VariableChars);
    }
    assert "x1"[0..1] == "x";
    DigitLexes("x1", 1);
    assert "x1"[1..2] == "1";
  }

  /** "12.": the number "12", then an error at the point, which nothing matches. */
  lemma TrailingPointIsRejected()
    ensures LexAt("12.", 0) == Ok(Some(Token(Number, "12")))
    ensures LexAt("12.", 2) == Err(UnexpectedCharacter(2, '.'))
  {
    TrailingPointIsLeft();
    NumberAtStartLexes("12.", 0);
    assert "12."[0..] == "12.";
    assert "12."[0..2] == "12";
    LonePointFails("12.", 2);
  }

  /** A digit at the cursor begins a number token, which is the number pattern's whole match. */
  lemma NumberAtStartLexes(input: string, cursor: nat)
    requires cursor < |input| && IsDigit(input[cursor])
    ensures LexAt(input, cursor) == Ok(Some(Token(Number, input[cursor..cursor + MatchNumber(input[cursor..]).value])))
  {
    var rest := input[cursor..];
    NoCommand(rest);
    Skip(rest, 0, Command);
    Take(rest, 1, Number, MatchNumber(rest).value);
    Found(input, cursor, Number, MatchNumber(rest).value);
  }

  /** A point with nothing after it matches no kind, so the lexer reports it. */
  lemma LonePointFails(input: string, cursor: nat)
    requires cursor + 1 == |input| && input[cursor] == '.'
    ensures LexAt(input, cursor) == Err(UnexpectedCharacter(cursor, '.'))
  {
    var rest := input[cursor..];
    PointMatchesNothing(rest);
    NoneIs(rest);
  }

  lemma PointMatchesNothing(rest: string)
    requires |rest| == 1 && rest[0] == '.'
    ensures forall k :: Match(k, rest).None?
  {
    NoCommand(rest);
    NoPrefix(rest);
    NoConstant(rest);
    NoAssignment(rest);
    assert Run(rest, Digits) == 0 && Run(rest[1..], Digits) == 0;
  }

  /** ".5" is a number. */
  lemma LeadingPointIsANumber()
    ensures LexAt(".5", 0) == Ok(Some(Token(Number, ".5")))
  {
    LeadingPointIsTaken();
    PointNumberLexes(".5", 0);
    assert ".5"[0..] == ".5" && ".5"[0..2] == ".5";
  }

  /** A point followed by a digit begins a number token. */
  lemma PointNumberLexes(input: string, cursor: nat)
    requires cursor + 1 < |input| && input[cursor] == '.' && IsDigit(input[cursor + 1])
    ensures LexAt(input, cursor) == Ok(Some(Token(Number, input[cursor..cursor + MatchNumber(input[cursor..]).value])))
  {
    var rest := input[cursor..];
    NoCommand(rest);
    assert rest[1..][0] == input[cursor + 1];
    assert Run(rest, Digits) == 0 && Run(rest[1..], Digits) > 0;
    Skip(rest, 0, Command);
    Take(rest, 1, Number, MatchNumber(rest).value);
    Found(input, cursor, Number, MatchNumber(rest).value);
  }

  /** The shifts are two-character infix tokens. */
  lemma ShiftLexes(input: string, cursor: nat)
    requires cursor + 1 < |input| && input[cursor] == input[cursor + 1] && (input[cursor] == '<' || input[cursor] == '>')
    ensures LexAt(input, cursor) == Ok(Some(Token(InfixOperator, input[cursor..cursor + 2])))
  {
    var rest := input[cursor..];
    NoCommand(rest);
    NoPrefix(rest);
    PassCommandNumberPlus(rest);
    PassMinusExponentPrefix(rest);
    assert rest[1] == input[cursor + 1];
    Take(rest, 6, InfixOperator, 2);
    Found(input, cursor, InfixOperator, 2);
  }
}
