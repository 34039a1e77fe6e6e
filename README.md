# Calculator core: lexer, recursive-descent parser and evaluating syntax tree

This project models the core of a command-line calculator written in Java.
A line of text goes through three stages:

- **Lexer** (`Lexing`, `TokenKinds`, `Tokens`). It removes all whitespace and then
  hands out tokens one at a time from a cursor. At each step it tries the
  fourteen token kinds in declaration order, and the first kind whose anchored
  pattern matches at the cursor gives the token. Each regular expression is
  replaced by a hand-written prefix matcher with the same result.
- **Parser** (`Grammar`, `Parsing`). It is a recursive-descent parser with one
  look-ahead token. It evaluates while it parses: `var x = e` binds `x` as soon
  as `e` has been parsed, and every expression line ends by binding `ans`.
- **Syntax-tree nodes** (`Nodes`, `UnaryOperators`, `BinaryOperators`,
  `Variables`, `Commands`). Operator nodes check their token against the
  operator set when they are built. A variable node captures the value of its
  variable when it is built. A command node changes the angle mode or the
  decimal mode.

In the program, the session state is three static fields: the variable table,
the angle mode and the decimal mode. Here they are one record, `Session.Env`.
The functional layer passes it along. The imperative layer keeps it in a
`Globals.Statics` object, whose methods are the constructors that write it.

Java's `Number` is modelled as `Values.Value`, which has three cases: `Double`,
`Long` and `Integer`. Integer arithmetic is exact, and the 32- and 64-bit
wrap-around is written out. A `double` is a term that names the floating-point
operations that produced it (`Values.DoubleTerm`), so floating-point arithmetic
stays uninterpreted. Every narrowing of a `double` to `long` or `int` is a
parameter (`Values.Narrowing`), the narrowing of an integral double included.

The two layers are tied by contracts:

- `Grammar` gives each production as a function. The function takes the parser
  state (stripped input, cursor, look-ahead, session) and returns the result
  together with the new state. On failure, that new state keeps every
  assignment already made.
- `Parsing.Parser` is the imperative parser class. Each of its methods is proved
  to return exactly what its `Grammar` function returns, result and state
  alike.
- `Lexing.Lexer` is the lexer class. Its `GetNextToken` is proved equal to
  `Lexing.LexAt`.

Behaviour of the code that is easy to miss:

- `^` is left-associative. It is a loop in `parseFactor`, not a recursion.
- When a line fails, its assignments stay in place: `(var x = 5` binds `x` and
  then fails with "Missing token: )". Nothing is rolled back.
- The factorial of a negative number raises `IllegalArgumentException`, not a
  syntax exception. Here that is the error `NegativeFactorial`.
- The lexer is lazy. `eat` lexes the token after the one it consumes. So a
  lexical error can surface after the expression it follows has been parsed,
  or not at all: in "1)#", the expression stops at `)`, and the `#` after it
  is never lexed.

## Model

| member | source | states |
|---|---|---|
| TokenKinds.Ordinal | src/lexer/TokenType.java:5-18 | every kind sits at exactly its own declaration position in the priority list |
| TokenKinds.OrdinalOfValue | src/lexer/TokenType.java:5-18 | the kind at each position of the priority list has that position as its ordinal |
| TokenKinds.ValuesAreDistinct | src/lexer/TokenType.java:5-18 | no kind is listed twice, so the priority list is a strict order on kinds |
| TokenKinds.Regex | src/lexer/TokenType.java:21-29 | `regex()` returns the stored pattern, and every pattern is anchored with `^` |
| TokenKinds.Match | src/lexer/TokenType.java:5-18 | each kind's matcher, when it matches, takes a non-empty prefix of the input |
| TokenKinds.FirstWordIsFirst | src/lexer/TokenType.java:10 | an anchored alternation takes the first alternative that starts the input; no earlier one does, and when nothing is found none does |
| TokenKinds.MatchWordsIsWord | src/lexer/TokenType.java:5 | a keyword match is one whole keyword; no match means no keyword starts the input |
| TokenKinds.NumberMatchIsNumber | src/lexer/TokenType.java:6 | what the number matcher takes has the form digits, or digits, a point and at least one digit |
| TokenKinds.NumberMatchIsLongest | src/lexer/TokenType.java:6 | no longer prefix has that form, and when nothing matches no prefix has it |
| TokenKinds.TrailingPointIsLeft | src/lexer/TokenType.java:6 | "12." matches only "12" |
| TokenKinds.LeadingPointIsTaken | src/lexer/TokenType.java:6 | ".5" matches as a whole |
| TokenKinds.SecondPointIsLeft | src/lexer/TokenType.java:6 | "1.25.3" matches only "1.25" |
| TokenKinds.LonePointIsNoNumber | src/lexer/TokenType.java:6 | "." on its own does not match |
| TokenKinds.InfixMatchesExactly | src/lexer/TokenType.java:11 | the infix matcher takes exactly one of `&`, `%`, `E`, bar, `*`, `/`, `<<` or `>>`, and fails only when none starts the input |
| TokenKinds.VariableMatchIsLongest | src/lexer/TokenType.java:17 | the variable matcher takes the whole run of `[a-z_]` characters and stops at the first other character |
| Tokens.ToStringInjective | src/lexer/Token.java:3-8 | the rendering "type: KIND, value: text" determines both components of the token |
| Lexing.Strip | src/lexer/Lexer.java:14 | the stripped input has no whitespace and is no longer than the input |
| Lexing.StripIsIdempotent | src/lexer/Lexer.java:14 | stripping twice is stripping once |
| Lexing.StripDistributes | src/lexer/Lexer.java:14 | stripping a concatenation strips each part |
| Lexing.FirstMatchFromIsFirst | src/lexer/Lexer.java:30-43 | the kind found is the first one in declaration order that matches, with the text it matched; nothing found means no kind matches |
| Lexing.LexAt | src/lexer/Lexer.java:22-46 | null exactly at the end; otherwise a token whose text is a non-empty prefix of the rest, or an error naming the cursor and its character |
| Lexing.LexAtIsFirstMatch | src/lexer/Lexer.java:30-45 | the token's kind is the first that matches at the cursor, with its whole match; the lexer fails exactly when no kind matches |
| Lexing.Lexer.constructor | src/lexer/Lexer.java:13-16 | the input is the whitespace-stripped line and the cursor is 0 |
| Lexing.Lexer.HasMoreTokens | src/lexer/Lexer.java:18-20 | true exactly when the cursor is before the end of the stripped input |
| Lexing.Lexer.GetNextToken | src/lexer/Lexer.java:22-46 | returns `LexAt` at the old cursor; the cursor moves by the token's length, or stays on null and on error; the texts handed out always concatenate to the input before the cursor |
| Lexing.Lexer.GetCursor | src/lexer/Lexer.java:48-50 | the cursor is within the input, and the input up to it is the text handed out so far |
| LexerExamples.DegreeLexes | src/lexer/TokenType.java:5-17 | "degree" is the command "deg" followed by the variable "ree" |
| LexerExamples.ExLexes | src/lexer/TokenType.java:15-17 | "ex" is the constant "e" followed by the variable "x" |
| LexerExamples.NameStopsBeforeDigit | src/lexer/TokenType.java:17 | "x1" is the variable "x" followed by the number "1" |
| LexerExamples.TrailingPointIsRejected | src/lexer/Lexer.java:30-45 | "12." is the number "12", then an error at index 2 for the lone point |
| LexerExamples.LeadingPointIsANumber | src/lexer/TokenType.java:6 | ".5" is one number token |
| LexerExamples.NameLexes | src/lexer/TokenType.java:17 | a name that begins like no keyword is a variable token covering its whole run |
| LexerExamples.PunctuationLexes | src/lexer/TokenType.java:7-18 | each operator and bracket character is a one-character token of its own kind |
| LexerExamples.VarLexes | src/lexer/TokenType.java:16 | `var` is the assignment keyword, whatever follows it |
| LexerExamples.ShiftLexes | src/lexer/TokenType.java:11 | `<<` and `>>` are two-character infix tokens |
| LexerExamples.LonePointFails | src/lexer/Lexer.java:45 | a point at the end of the input matches no kind, and the error reports its index |
| Values.DoubleValue | src/ast_nodes/BinaryOperatorNode.java:21-25 | `doubleValue()` keeps a double and converts a `long` or an `int` |
| Values.LongValue | src/ast_nodes/UnaryOperatorNode.java:25 | `longValue()` keeps a `long`, widens an `int` and narrows a double |
| Values.IntValue | src/ast_nodes/BinaryOperatorNode.java:26-29 | `intValue()` keeps an `int`, keeps the low 32 bits of a `long` and narrows a double |
| Values.IntegerReadingsAgree | src/ast_nodes/UnaryOperatorNode.java:24-25 | on values in `int` range the `int` and `long` readings agree |
| Values.Wrap32 | src/ast_nodes/BinaryOperatorNode.java:26 | 32-bit truncation lands in `int` range and is congruent to its input modulo 2^32 |
| Values.Wrap64 | src/ast_nodes/UnaryOperatorNode.java:45 | 64-bit truncation lands in `long` range and is congruent to its input modulo 2^64 |
| Values.ComplementIsNegatedPredecessor | src/ast_nodes/UnaryOperatorNode.java:24 | flipping all 32 bits of `i` gives `-1 - i` |
| Values.ComplementIsInvolution | src/ast_nodes/UnaryOperatorNode.java:24 | `~~i == i` |
| Values.BitwiseUnits | src/ast_nodes/BinaryOperatorNode.java:28-29 | -1 is the unit of `&` and 0 that of bitwise or; 0 absorbs `&` and -1 absorbs bitwise or |
| Values.BitwiseCommute | src/ast_nodes/BinaryOperatorNode.java:28-29 | `&` and bitwise or are symmetric |
| Values.ShiftDistanceIsMasked | src/ast_nodes/BinaryOperatorNode.java:26-27 | a shift distance counts modulo 32 |
| Values.ShiftRightKeepsSign | src/ast_nodes/BinaryOperatorNode.java:27 | `>>` is arithmetic: the result is negative exactly when the shifted value is |
| Session.Conversion | src/ast_nodes/UnaryOperatorNode.java:53-59 | the conversion factor is exactly 1 in radian mode |
| Session.InitialEnv | src/ast_nodes/VariableNode.java:10 | the table holds exactly `ans` bound to the `Integer` 0; the angle mode is RAD and the decimal mode REG |
| Variables.Bind | src/ast_nodes/VariableNode.java:19-22 | the name now holds the value, every other binding is unchanged, the key set gains only the name, and both modes are kept |
| Variables.Lookup | src/ast_nodes/VariableNode.java:29-35 | succeeds exactly on a bound name with its current value; otherwise "The variable <name> is undefined." |
| Variables.LookupAfterBind | src/ast_nodes/VariableNode.java:19-35 | a binding reads back at once and hides no other name |
| Variables.LaterBindWins | src/ast_nodes/VariableNode.java:21 | assignment overwrites: of two assignments to one name the later wins |
| Variables.BindsCommute | src/ast_nodes/VariableNode.java:21 | assignments to different names commute |
| Variables.BindCurrentValue | src/ast_nodes/VariableNode.java:21 | rebinding a name to its current value changes nothing |
| Variables.BindKeepsAns | src/ast_nodes/VariableNode.java:10-22 | no assignment loses a key or a mode, so `ans` stays bound |
| Variables.InitialTable | src/ast_nodes/VariableNode.java:10 | at start-up, `ans` reads 0 and every other name is undefined |
| Globals.Statics.constructor | src/ast_nodes/VariableNode.java:10 | the static fields start as the initial session |
| Globals.Statics.Assign | src/ast_nodes/VariableNode.java:19-22 | the assigning constructor's `put`: the new state is `Bind` of the old |
| Globals.Statics.Lookup | src/ast_nodes/VariableNode.java:29-35 | the looking-up constructor returns `Lookup` and changes nothing |
| Globals.Statics.Command | src/ast_nodes/CommandNode.java:8-38 | the command constructor's `switch`: the new state is `RunCommand` of the old |
| Commands.AngleCommand | src/ast_nodes/CommandNode.java:10-18 | exactly "rad", "deg" and "grad" select an angle mode |
| Commands.DecimalCommand | src/ast_nodes/CommandNode.java:19-27 | exactly "reg", "sci" and "eng" select a decimal mode |
| Commands.RunCommand | src/ast_nodes/CommandNode.java:8-38 | an angle command sets only the angle mode, a decimal command only the decimal mode; anything else changes nothing; the variable table is never touched |
| Commands.ModeCommands | src/ast_nodes/CommandNode.java:9-37 | each keyword sets the mode of its own name; `cls`, `clear` and `exit` change nothing |
| Commands.CommandIsIdempotent | src/ast_nodes/CommandNode.java:10-27 | issuing a command twice equals issuing it once |
| Commands.LaterCommandWins | src/ast_nodes/CommandNode.java:10-27 | of two commands for the same mode the later wins |
| Commands.ModeCommandsCommute | src/ast_nodes/CommandNode.java:10-27 | an angle command and a decimal command commute |
| UnaryOperators.UnaryOperatorOf | src/ast_nodes/UnaryOperatorNode.java:21-31 | a token is accepted only as the operator whose symbol it is |
| UnaryOperators.UnaryOperatorOfSymbol | src/ast_nodes/UnaryOperatorNode.java:21-31 | each operator's symbol selects that operator |
| UnaryOperators.UnaryTokensAccepted | src/ast_nodes/UnaryOperatorNode.java:21-31 | the accepted tokens are exactly `- sqrt ~ ! sin cos tan` |
| UnaryOperators.LongFactorial | src/ast_nodes/UnaryOperatorNode.java:41-46 | `factorial` succeeds exactly on non-negative input and fails with `NegativeFactorial` otherwise |
| UnaryOperators.LongFactorialWraps | src/ast_nodes/UnaryOperatorNode.java:41-46 | the `long` factorial is the exact factorial truncated to 64 bits |
| UnaryOperators.LongFactorialExactUpTo20 | src/ast_nodes/UnaryOperatorNode.java:41-46 | for 0..20 the `long` factorial is exact |
| UnaryOperators.LongFactorialOverflowsAt21 | src/ast_nodes/UnaryOperatorNode.java:45 | 21! wraps to -4249290049419214848 |
| UnaryOperators.ApplyUnary | src/ast_nodes/UnaryOperatorNode.java:21-28 | fails exactly for `!` on a negative `long` reading; `!` gives the `Long` factorial, `~` gives the `Integer` `-1 - i`, and the rest give a `Double` |
| UnaryOperators.ApplyUnaryReadsModeOnlyForTrig | src/ast_nodes/UnaryOperatorNode.java:22-28 | only `sin`, `cos` and `tan` depend on the angle mode |
| UnaryOperators.TrigInRadiansScalesByOne | src/ast_nodes/UnaryOperatorNode.java:54 | in radian mode the operand is scaled by 1 |
| BinaryOperators.BinaryOperatorOf | src/ast_nodes/BinaryOperatorNode.java:20-34 | a token is accepted only as the operator whose symbol it is |
| BinaryOperators.BinaryOperatorOfSymbol | src/ast_nodes/BinaryOperatorNode.java:20-34 | each operator's symbol selects that operator |
| BinaryOperators.BinaryTokensAccepted | src/ast_nodes/BinaryOperatorNode.java:20-34 | the accepted tokens are exactly `+ - * / ^ << >> & % E` and the bar |
| BinaryOperators.ApplyBinary | src/ast_nodes/BinaryOperatorNode.java:20-31 | shifts and bitwise operators give an `Integer` from the `int` readings, the rest a `Double`; `E` is x times 10 to the y; `<<` is the wrapped product by 2^(y mod 32); `>>` is the floor of the quotient by 2^(y mod 32) and keeps the sign; `&` and `\|` are the bit-by-bit and/or of the two `int` readings |
| BinaryOperators.BitwiseIdentities | src/ast_nodes/BinaryOperatorNode.java:28-29 | `x & -1` and `x` or-ed with 0 give the `int` reading of x, and `x & 0` gives 0 |
| BinaryOperators.BitwiseOperatorsCommute | src/ast_nodes/BinaryOperatorNode.java:28-29 | `&` and bitwise or nodes do not depend on operand order |
| BinaryOperators.ShiftDistanceWraps | src/ast_nodes/BinaryOperatorNode.java:26-27 | shifting by b + 32 equals shifting by b |
| Nodes.NewNumberNode | src/ast_nodes/NumberNode.java:11-20 | "e" gives E, "pi" gives PI, "ans" gives the current `ans`, and any other text is parsed as a decimal |
| Nodes.NewUnaryOperatorNode | src/ast_nodes/UnaryOperatorNode.java:13-34 | built exactly when the operand is present and the token is supported; null operand and unknown token each give their own error; the node stores token and operand unchanged |
| Nodes.NewBinaryOperatorNode | src/ast_nodes/BinaryOperatorNode.java:12-38 | built exactly when both children are present and the token is supported; otherwise the null-child or "not supported" error; token and children are stored unchanged |
| Nodes.Evaluate | src/ast_nodes/BinaryOperatorNode.java:41-43 | leaves return what they captured, a command gives 0, and the only failure is a negative factorial inside the tree |
| Nodes.EvaluateIgnoresModeWithoutTrigonometry | src/ast_nodes/UnaryOperatorNode.java:26-28 | a tree without trigonometry evaluates the same in every angle mode |
| Nodes.FactorialNodeValue | src/ast_nodes/UnaryOperatorNode.java:25 | a `!` node's value is the 64-bit factorial of its operand's `long` reading |
| Nodes.NegativeFactorialFails | src/ast_nodes/UnaryOperatorNode.java:42 | a `!` node over a negative `long` reading fails |
| Grammar.LexedTokenIsWellFormed | src/lexer/TokenType.java:7-12 | every operator token the lexer hands out carries one of its pattern's texts |
| Grammar.MatchedTextIsWellFormed | src/lexer/TokenType.java:5-18 | the text a kind's pattern matches is a well-formed token of that kind: the operator and sign characters exactly, a keyword from its list |
| Grammar.OperatorTokensAreSupported | src/parser/Parser.java:139-158 | every operator token the parser passes to a node constructor is in that node's operator set |
| Grammar.EatStep | src/parser/Parser.java:227-241 | fails on a missing or other-kind look-ahead and leaves the state; on success returns the look-ahead and lexes exactly one more token |
| Grammar.NumberStep | src/parser/Parser.java:207-225 | a number or constant always gives the number node its text names; a variable gives a variable node holding its current value exactly when it is bound, and the undefined-variable error otherwise; each takes exactly its one token, and a failure to lex the next token keeps the state; anything else gives "Expected a number"; the session is unchanged |
| Grammar.ExponentStep | src/parser/Parser.java:171-189 | without an opening bracket it is `parseNumber`; it never loses input or bindings |
| Grammar.BaseStep | src/parser/Parser.java:197-199 | `parseBase` is `parseExponent` |
| Grammar.FactorStep | src/parser/Parser.java:137-164 | consumes input without giving any back and keeps every binding and both modes |
| Grammar.FactorLoop | src/parser/Parser.java:154-162 | with no `^` ahead it returns what it has |
| Grammar.TermStep | src/parser/Parser.java:112-129 | consumes input without giving any back and keeps every binding and both modes |
| Grammar.TermLoop | src/parser/Parser.java:116-128 | with no infix or postfix operator ahead it returns what it has |
| Grammar.ExpressionStep | src/parser/Parser.java:65-88 | an assignment keyword ahead means `parseVariableAssignment` |
| Grammar.ExpressionLoop | src/parser/Parser.java:73-87 | with no `+` or `-` ahead it returns what it has |
| Grammar.AssignmentStep | src/parser/Parser.java:94-104 | a successful assignment yields a variable node and loses no binding |
| Grammar.BindStep | src/parser/Parser.java:99-100 | after `=`, a successful step yields a variable node holding the value now bound to the name, and loses no binding |
| Grammar.StartState | src/parser/Parser.java:45-46 | `parse` starts on the stripped line with its first token as look-ahead |
| Grammar.ParseLine | src/parser/Parser.java:43-57 | `ans` stays bound and no key is lost; a command line leaves the table alone; an expression result is the new `ans`; only an expression line changes the table |
| Grammar.LineStep | src/parser/Parser.java:48-56 | after the first token: `ans` stays bound and no key is lost; a command leaves the table alone; an expression result is the new `ans`; only a line that is no command changes the table |
| Grammar.ExpressionLine | src/parser/Parser.java:54-56 | the expression's value becomes `ans` and the result node holds it; no key is lost; no node-construction error escapes |
| Parsing.Parser.constructor | src/parser/Parser.java:38-41 | no lexer and no look-ahead |
| Parsing.Parser.CheckNextTokenType | src/parser/Parser.java:243-245 | reads the look-ahead kind and consumes nothing |
| Parsing.Parser.Eat | src/parser/Parser.java:227-241 | result and new state are those of `EatStep` |
| Parsing.Parser.ParseNumber | src/parser/Parser.java:207-225 | result and new state are those of `NumberStep` |
| Parsing.Parser.ParseExponent | src/parser/Parser.java:171-189 | result and new state are those of `ExponentStep` |
| Parsing.Parser.ParseBase | src/parser/Parser.java:197-199 | result and new state are those of `BaseStep` |
| Parsing.Parser.ParseFactor | src/parser/Parser.java:137-164 | result and new state are those of `FactorStep` |
| Parsing.Parser.ParseTerm | src/parser/Parser.java:112-129 | result and new state are those of `TermStep` |
| Parsing.Parser.ParseExpression | src/parser/Parser.java:65-88 | result and new state are those of `ExpressionStep` |
| Parsing.Parser.ParseVariableAssignment | src/parser/Parser.java:94-104 | result and new state are those of `AssignmentStep` |
| Parsing.Parser.Parse | src/parser/Parser.java:43-57 | result and new session are those of `ParseLine`; if the first token does not lex, the old look-ahead stays |
| Parsing.Parser.ParseStarted | src/parser/Parser.java:48-56 | result and new session are those of `LineStep` from the parser's state |
| Parsing.Parser.ParseExpressionLine | src/parser/Parser.java:54-56 | result and new session are those of `ExpressionLine` from the parser's state |
| ParseProperties.InfixTokenIsInfixOp | src/parser/Parser.java:118-121 | an infix token names one of the eight infix operators, all at one precedence |
| ParseProperties.ExpressionLoopNestsLeft | src/parser/Parser.java:73-87 | what the `+`/`-` loop starts from ends at the bottom of the left spine of its result, under `+` and `-` nodes only |
| ParseProperties.TermLoopNestsLeft | src/parser/Parser.java:116-128 | what the term loop starts from ends at the bottom of the left spine of its result, under infix and `!` nodes only |
| ParseProperties.FactorLoopNestsLeft | src/parser/Parser.java:154-162 | what the `^` loop starts from ends at the bottom of the left spine of its result, under `^` nodes only |
| ParseProperties.AdditiveStepNestsLeft | src/parser/Parser.java:73-87 | a `+` or `-` makes one node with everything so far on its left and the single term after it on its right, and the loop continues from that node: a-b-c is (a-b)-c |
| ParseProperties.InfixStepNestsLeft | src/parser/Parser.java:116-121 | an infix operator makes one node with everything so far on its left and the single factor after it on its right, and the loop continues from that node; the factor stops before any `^` |
| ParseProperties.FactorStopsBeforeCaret | src/parser/Parser.java:137-162 | a factor that parses leaves no `^` ahead of it |
| ParseProperties.FactorLoopStopsBeforeCaret | src/parser/Parser.java:154-162 | the `^` loop runs until no `^` is ahead |
| ParseProperties.CaretTokenIsRaise | src/parser/Parser.java:155-157 | the `^` token the loop eats names the power operator |
| ParseProperties.CaretStepNestsLeft | src/parser/Parser.java:154-162 | a `^` makes one node with everything so far on its left and the one exponent after it on its right, and the loop continues from that node: a^b^c is (a^b)^c |
| ParseProperties.UnbracketedExponentIsOneToken | src/parser/Parser.java:171-189 | an exponent without a bracket is a single number, constant or variable leaf and takes exactly one token |
| ParseProperties.PostfixWrapsTermSoFar | src/parser/Parser.java:122-124 | `!` wraps the whole term built so far, so 2*3! is (2*3)! |
| ParseProperties.PrefixTakesWholeFactor | src/parser/Parser.java:139-150 | a prefix operator or minus applies to the whole following factor with its `^` chain, so -2^2 is -(2^2) and prefixes stack |
| ParseProperties.ExponentIsPrimary | src/parser/Parser.java:171-224 | after `^` only a bracket, number, constant or variable is allowed; anything else is "Expected a number" |
| ParseProperties.NegativeExponentIsRejected | src/parser/Parser.java:209-224 | 2^-1 is a syntax error |
| ParseProperties.UnclosedBracketKeepsState | src/parser/Parser.java:173-181 | an unclosed bracket is "Missing token: )" and keeps the bindings made inside it |
| ParseProperties.AssignmentNeedsEquals | src/parser/Parser.java:98-103 | `var name` without `=` is the assignment-form error and binds nothing |
| ParseProperties.FailedLineKeepsAssignments | src/parser/Parser.java:56 | a failing expression line leaves the session as the expression left it; nothing is rolled back |
| ParseProperties.AssignmentBindsName | src/parser/Parser.java:94-100 | a successful `var x = e` binds x to the value it returns |
| ParseProperties.AssignmentLineBindsNameAndAns | src/parser/Parser.java:56 | a `var x = e` line leaves x and `ans` both holding the line's result |
| ParseProperties.CommandLineReadsOneToken | src/parser/Parser.java:49-52 | a command line looks at nothing beyond the token after the command, and changes only the modes |
| ParseProperties.TrailingTokensAreIgnored | src/parser/Parser.java:56 | tokens after the first complete expression are neither consumed nor rejected |

## Left out

- The console loop, colour codes and help flag of `src/main/Main.java`: I/O glue, not part of this model.
- The screen-clear escape of `cls`/`clear` and the process exit of `exit`: terminal and process I/O. They are modelled as commands that change no mode.
- `NumberNode.formatNumber` and `engNotation`: floating-point formatting. The decimal mode is modelled only as stored state.
- Floating-point semantics of `+ - * / ^ % E`, `sqrt`, `sin`, `cos` and `tan`, plus `Double.parseDouble`, `Math.E`, `Math.PI` and the DEG and GRAD factors. Each is an uninterpreted term. The model proves nothing about numeric results such as 3+4 = 7.
- Every narrowing of a double to `long` or `int`, integral values included. It is the unconstrained `Narrowing` parameter, not Java's saturating cast. Every literal is a double (`Double(ParseDouble(..))`), so `!`, `~`, `<<`, `>>`, `&` and `|` applied to typed numbers all read their operands through the parameter, and nothing is proved about their numeric results on literals (that `5!` is 120, say). What is proved is relative to the `long` or `int` reading: the 64-bit factorial, the bitwise and shift laws.
- Java's regex engine. Each pattern is a hand-written prefix matcher; `TokenKinds.NumberMatchIsLongest` and its neighbours state that each matcher gives the regex's first match.
- Stack-overflow limits of the recursion in the parser and in `factorial`.
- The `toString` debug printers of the tree nodes.
- Exception class distinctions: syntax exceptions and illegal-argument exceptions are cases of one `Errors.Error` type. What the console does with an uncaught illegal-argument exception, such as a negative factorial, is part of `src/main/Main.java`.
- BinaryOperators.ApplyBinary: for `+ - * / ^ %` the contract says only that the result is a `Double`. Its value is the uninterpreted term for the operation.
- ParseProperties.ExpressionLoopNestsLeft: says nothing of the right children, so a right-nested tree would meet it too; the nesting itself is `ParseProperties.AdditiveStepNestsLeft`.
- ParseProperties.TermLoopNestsLeft: says nothing of the right children; the nesting and the single factor on the right are `ParseProperties.InfixStepNestsLeft` and `ParseProperties.PostfixWrapsTermSoFar`.
- ParseProperties.FactorLoopNestsLeft: says nothing of the right children; the nesting is `ParseProperties.CaretStepNestsLeft` with `ParseProperties.UnbracketedExponentIsOneToken`.
- UnaryOperators.ApplyUnary: for `-`, `sqrt`, `sin`, `cos` and `tan` the contract says only that the result is a `Double`, for the same reason.
- `Token` equality and immutability are those of a Dafny datatype and need no lemma.
- The `ASTNode` interface and `SyntaxException` are not part of this model. They appear as the `Nodes.Node` datatype and the `Errors.Error` values.
