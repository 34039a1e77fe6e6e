/**
 * The kinds of lexical tokens, in the order in which the lexer tries them,
 * and for each kind a prefix matcher that plays the part of its anchored
 * regular expression.
 */
module TokenKinds {
  import opened Wrappers

  datatype TokenType =
    | Command
    | Number
    | Plus
    | Minus
    | Exponent
    | PrefixOperator
    | InfixOperator
    | PostfixOperator
    | OpenBracket
    | CloseBracket
    | Constant
    | Assignment
    | Variable
    | Equals

  /** The kinds in declaration order: the priority order of the lexer. */
  const Values: seq<TokenType> :=
    [Command, Number, Plus, Minus, Exponent, PrefixOperator, InfixOperator,
     PostfixOperator, OpenBracket, CloseBracket, Constant, Assignment, Variable, Equals]

  /** The position of a kind in the declaration; every kind occurs exactly there. */
  function Ordinal(k: TokenType): (i: nat)
    ensures i < |Values| && Values[i] == k
  {
    match k
    case Command => 0
    case Number => 1
    case Plus => 2
    case Minus => 3
    case Exponent => 4
    case PrefixOperator => 5
    case InfixOperator => 6
    case PostfixOperator => 7
    case OpenBracket => 8
    case CloseBracket => 9
    case Constant => 10
    case Assignment => 11
    case Variable => 12
    case Equals => 13
  }

  /** The kind at position `i` of the declaration has ordinal `i`. */
  lemma OrdinalOfValue(i: nat)
    requires i < |Values|
    ensures Ordinal(Values[i]) == i
  {
    if i < 7 {
      if i == 0 {} else if i == 1 {} else if i == 2 {} else if i == 3 {} else if i == 4 {} else if i == 5 {} else {}
    } else {
      if i == 7 {} else if i == 8 {} else if i == 9 {} else if i == 10 {} else if i == 11 {} else if i == 12 {} else {}
    }
  }

  /** Each kind is listed once: the declaration order is a strict order on kinds. */
  lemma ValuesAreDistinct(i: nat, j: nat)
    requires i < j < |Values|
    ensures Values[i] != Values[j]
  {
    OrdinalOfValue(i);
    OrdinalOfValue(j);
  }

  /** The name of the enum constant, as `name()` gives it. */
  function Name(k: TokenType): string
  {
    match k
    case Command => "COMMAND"
    case Number => "NUMBER"
    case Plus => "PLUS"
    case Minus => "MINUS"
    case Exponent => "EXPONENT"
    case PrefixOperator => "PREFIX_OPERATOR"
    case InfixOperator => "INFIX_OPERATOR"
    case PostfixOperator => "POSTFIX_OPERATOR"
    case OpenBracket => "OPEN_BRACKET"
    case CloseBracket => "CLOSE_BRACKET"
    case Constant => "CONSTANT"
    case Assignment => "ASSIGNMENT"
    case Variable => "VARIABLE"
    case Equals => "EQUALS"
  }

  /** Names are upper-case letters and underscores only. */
  predicate IsNameChar(c: char)
  {
    'A' <= c <= 'Z' || c == '_'
  }

  lemma NameChars(k: TokenType)
    ensures forall i :: 0 <= i < |Name(k)| ==> IsNameChar(Name(k)[i])
  {
  }

  lemma NamesAreDistinct(a: TokenType, b: TokenType)
    requires Name(a) == Name(b)
    ensures a == b
  {
    assert Name(a)[..2] == Name(b)[..2];
  }

  /** The stored regular expression, as `regex()` returns it (a copy of the same text). */
  function Regex(k: TokenType): (r: string)
    ensures |r| >= 2 && r[0] == '^'
  {
    match k
    case Command => "^(rad|deg|grad|reg|sci|eng|clear|cls|exit)"
    case Number => "^\\d*\\.?\\d+"
    case Plus => "^\\+"
    case Minus => "^-"
    case Exponent => "^\\^"
    case PrefixOperator => "^(~|sqrt|sin|cos|tan)"
    case InfixOperator => "^([&%E\\|\\*\\/]|<<|>>)"
    case PostfixOperator => "^!"
    case OpenBracket => "^\\("
    case CloseBracket => "^\\)"
    case Constant => "^(e|pi|ans)"
    case Assignment => "^(var)"
    case Variable => "^[a-z_]+"
    case Equals => "^="
  }

  // ---------------------------------------------------------------------
  // Character classes and runs

  /** `\d` without the Unicode flag: the ASCII digits. */
  predicate IsDigit(c: char)
  {
    '0' <= c <= '9'
  }

  /** The class `[a-z_]`. */
  predicate IsVariableChar(c: char)
  {
    'a' <= c <= 'z' || c == '_'
  }

  datatype CharClass = Digits | VariableChars

  predicate InClass(cls: CharClass, c: char)
  {
    match cls
    case Digits => IsDigit(c)
    case VariableChars => IsVariableChar(c)
  }

  /** The length of the longest prefix of `s` whose characters are all in `cls`. */
  function Run(s: string, cls: CharClass): (n: nat)
    ensures n <= |s|
  {
    if |s| == 0 || !InClass(cls, s[0]) then 0 else 1 + Run(s[1..], cls)
  }

  predicate AllIn(t: string, cls: CharClass)
  {
    forall i :: 0 <= i < |t| ==> InClass(cls, t[i])
  }

  /** The run is made of class characters and stops at the first other character. */
  lemma {:induction false} RunIsMaximal(s: string, cls: CharClass)
    ensures AllIn(s[..Run(s, cls)], cls)
    ensures Run(s, cls) < |s| ==> !InClass(cls, s[Run(s, cls)])
  {
    if |s| > 0 && InClass(cls, s[0]) {
      RunIsMaximal(s[1..], cls);
      assert s[..Run(s, cls)] == [s[0]] + s[1..][..Run(s[1..], cls)];
    }
  }

  /** No longer prefix than the run is made of class characters only. */
  lemma RunIsLongest(s: string, cls: CharClass, m: nat)
    requires m <= |s| && AllIn(s[..m], cls)
    ensures m <= Run(s, cls)
  {
    RunIsMaximal(s, cls);
  }

  // ---------------------------------------------------------------------
  // Keyword alternations

  /** `p` is a prefix of `s`, compared character by character. */
  predicate StartsWith(s: string, p: string)
  {
    |p| == 0 || (|s| > 0 && s[0] == p[0] && StartsWith(s[1..], p[1..]))
  }

  lemma {:induction false} StartsWithIsPrefix(s: string, p: string)
    ensures StartsWith(s, p) <==> |p| <= |s| && s[..|p|] == p
  {
    if |p| > 0 && |s| > 0 {
      StartsWithIsPrefix(s[1..], p[1..]);
      if |p| <= |s| && s[..|p|] == p {
        assert s[1..][..|p| - 1] == s[..|p|][1..];
      }
      if StartsWith(s, p) {
        assert s[..|p|] == [s[0]] + s[1..][..|p| - 1];
      }
    }
  }

  /**
   * The index of the first alternative that `s` starts with: an alternation
   * `(w0|w1|...)` anchored at the start tries its alternatives in order.
   */
  function FirstWord(s: string, words: seq<string>): (r: Option<nat>)
    ensures r.Some? ==> r.value < |words|
  {
    if |words| == 0 then None
    else if StartsWith(s, words[0]) then Some(0)
    else match FirstWord(s, words[1..])
      case None => None
      case Some(i) => Some(i + 1)
  }

  /** The alternative found is one `s` starts with, no earlier one is, and none is when nothing is found. */
  lemma {:induction false} FirstWordIsFirst(s: string, words: seq<string>)
    ensures FirstWord(s, words).Some? ==> StartsWith(s, words[FirstWord(s, words).value])
    ensures FirstWord(s, words).Some? ==> forall j :: 0 <= j < FirstWord(s, words).value ==> !StartsWith(s, words[j])
    ensures FirstWord(s, words).None? ==> forall j :: 0 <= j < |words| ==> !StartsWith(s, words[j])
  {
    if |words| > 0 && !StartsWith(s, words[0]) {
      FirstWordIsFirst(s, words[1..]);
      assert forall j :: 1 <= j < |words| ==> words[j] == words[1..][j - 1];
    }
  }

  function MatchWords(s: string, words: seq<string>): (r: Option<nat>)
    ensures r.Some? ==> 0 < r.value <= |s|
  {
    match FirstWord(s, words)
    case None => None
    case Some(i) =>
      if |words[i]| == 0 then None
      else
        FirstWordIsFirst(s, words);
        StartsWithIsPrefix(s, words[i]);
        Some(|words[i]|)
  }

  /** A keyword match is one of the words, taken whole; no match means no word starts the input. */
  lemma MatchWordsIsWord(s: string, words: seq<string>)
    requires forall j :: 0 <= j < |words| ==> |words[j]| > 0
    ensures MatchWords(s, words).Some? ==> s[..MatchWords(s, words).value] in words
    ensures MatchWords(s, words).None? ==> forall j :: 0 <= j < |words| ==> !StartsWith(s, words[j])
  {
    FirstWordIsFirst(s, words);
    if FirstWord(s, words).Some? {
      StartsWithIsPrefix(s, words[FirstWord(s, words).value]);
    }
  }

  const CommandWords: seq<string> := ["rad", "deg", "grad", "reg", "sci", "eng", "clear", "cls", "exit"]
  const PrefixWords: seq<string> := ["~", "sqrt", "sin", "cos", "tan"]
  const ConstantWords: seq<string> := ["e", "pi", "ans"]
  const AssignmentWords: seq<string> := ["var"]
  // The alternatives of the infix pattern: the six characters of its class, then "<<", then ">>".
  const InfixWords: seq<string> := ["&", "%", "E", "|", "*", "/", "<<", ">>"]

  // ---------------------------------------------------------------------
  // Number literals: \d*\.?\d+

  /** The texts the number pattern describes: digits, or digits '.' digits with digits after the point. */
  predicate IsNumberText(t: string)
  {
    || (|t| > 0 && AllIn(t, Digits))
    || (exists i :: 0 <= i < |t| && t[i] == '.' && AllIn(t[..i], Digits) && i + 1 < |t| && AllIn(t[i + 1..], Digits))
  }

  /**
   * The match the pattern finds at the start of `s` by backtracking: a digit run,
   * a point and a non-empty digit run when there is one, and otherwise the
   * digit run alone.
   */
  function MatchNumber(s: string): (r: Option<nat>)
    ensures r.Some? ==> 0 < r.value <= |s|
  {
    var n := Run(s, Digits);
    if n < |s| && s[n] == '.' && Run(s[n + 1..], Digits) > 0 then Some(n + 1 + Run(s[n + 1..], Digits))
    else if n > 0 then Some(n)
    else None
  }

  // ---------------------------------------------------------------------
  // The patterns

  // The infix pattern: one character of its class (ampersand, percent, E, bar,
  // star, slash), or one of the two-character shifts `<<` and `>>`.
  function MatchInfix(s: string): (r: Option<nat>)
    ensures r.Some? ==> 0 < r.value <= |s|
  {
    if |s| > 0 && s[0] in "&%E|*/" then Some(1)
    else if |s| >= 2 && s[0] == s[1] && (s[0] == '<' || s[0] == '>') then Some(2)
    else None
  }

  function MatchChar(s: string, c: char): (r: Option<nat>)
    ensures r.Some? ==> r.value == 1 <= |s| && s[0] == c
    ensures r.None? ==> |s| == 0 || s[0] != c
  {
    if |s| > 0 && s[0] == c then Some(1) else None
  }

  /** The length of the match of kind `k`'s pattern at the start of `s`, if any. */
  function Match(k: TokenType, s: string): (r: Option<nat>)
    ensures r.Some? ==> 0 < r.value <= |s|
  {
    match k
    case Command => MatchWords(s, CommandWords)
    case Number => MatchNumber(s)
    case Plus => MatchChar(s, '+')
    case Minus => MatchChar(s, '-')
    case Exponent => MatchChar(s, '^')
    case PrefixOperator => MatchWords(s, PrefixWords)
    case InfixOperator => MatchInfix(s)
    case PostfixOperator => MatchChar(s, '!')
    case OpenBracket => MatchChar(s, '(')
    case CloseBracket => MatchChar(s, ')')
    case Constant => MatchWords(s, ConstantWords)
    case Assignment => MatchWords(s, AssignmentWords)
    case Variable => var n := Run(s, VariableChars); if n > 0 then Some(n) else None
    case Equals => MatchChar(s, '=')
  }

  // ---------------------------------------------------------------------
  // Properties of the patterns

  /** What the number matcher takes is a number text. */
  lemma NumberMatchIsNumber(s: string)
    requires MatchNumber(s).Some?
    ensures IsNumberText(s[..MatchNumber(s).value])
  {
    var n := Run(s, Digits);
    var t := s[..MatchNumber(s).value];
    RunIsMaximal(s, Digits);
    if n < |s| && s[n] == '.' && Run(s[n + 1..], Digits) > 0 {
      RunIsMaximal(s[n + 1..], Digits);
      assert t[n] == '.' && t[..n] == s[..n] && t[n + 1..] == s[n + 1..][..Run(s[n + 1..], Digits)];
    }
  }

  /**
   * No longer prefix is a number text, and when nothing matches no prefix is one:
   * the match is the longest number text at the start of the input.
   */
  lemma NumberMatchIsLongest(s: string, m: nat)
    requires 0 < m <= |s| && IsNumberText(s[..m])
    ensures MatchNumber(s).Some? && m <= MatchNumber(s).value
  {
    var t := s[..m];
    if |t| > 0 && AllIn(t, Digits) {
      RunIsLongest(s, Digits, m);
    } else {
      var i :| 0 <= i < |t| && t[i] == '.' && AllIn(t[..i], Digits) && i + 1 < |t| && AllIn(t[i + 1..], Digits);
      assert t[..i] == s[..i] && t[i + 1..] == s[i + 1..m];
      PointedNumberIsMatched(s, i, m);
    }
  }

  /** A prefix with a point between two digit runs is covered by the match. */
  lemma PointedNumberIsMatched(s: string, i: nat, m: nat)
    requires i + 1 < m <= |s| && s[i] == '.'
    requires AllIn(s[..i], Digits) && AllIn(s[i + 1..m], Digits)
    ensures MatchNumber(s).Some? && m <= MatchNumber(s).value
  {
    var n := Run(s, Digits);
    RunIsLongest(s, Digits, i);
    RunIsMaximal(s, Digits);
    assert i == n;
    var rest := s[n + 1..];
    assert rest[..m - n - 1] == s[i + 1..m];
    RunIsLongest(rest, Digits, m - n - 1);
  }

  /** "12." is matched as "12": the point is left for the next token. */
  lemma TrailingPointIsLeft()
    ensures MatchNumber("12.") == Some(2)
  {
    assert Run("12.", Digits) == 2 by {
      assert "12."[1..] == "2." && "2."[1..] == ".";
    }
  }

  /** ".5" is a number as a whole. */
  lemma LeadingPointIsTaken()
    ensures MatchNumber(".5") == Some(2)
  {
    assert Run(".5"[1..], Digits) == 1 by {
      assert ".5"[1..] == "5" && "5"[1..] == "";
    }
  }

  /** "1.25.3" is matched as "1.25": one point at most. */
  lemma SecondPointIsLeft()
    ensures MatchNumber("1.25.3") == Some(4)
  {
    assert Run("1.25.3", Digits) == 1 by {
      assert "1.25.3"[1..] == ".25.3";
    }
    assert Run("1.25.3"[2..], Digits) == 2 by {
      assert "1.25.3"[2..] == "25.3" && "25.3"[1..] == "5.3" && "5.3"[1..] == ".3";
    }
  }

  /** "." alone is no number. */
  lemma LonePointIsNoNumber()
    ensures MatchNumber(".") == None
  {
  }


  /** The infix pattern takes exactly one of its eight alternatives, and matches when one of them starts the input. */
  lemma InfixMatchesExactly(s: string)
    ensures Match(InfixOperator, s).Some? ==> s[..Match(InfixOperator, s).value] in InfixWords
    ensures Match(InfixOperator, s).None? ==> forall j :: 0 <= j < |InfixWords| ==> !StartsWith(s, InfixWords[j])
  {
    if Match(InfixOperator, s).None? {
      forall j | 0 <= j < |InfixWords|
        ensures !StartsWith(s, InfixWords[j])
      {
        StartsWithIsPrefix(s, InfixWords[j]);
      }
    } else if s[0] in "&%E|*/" {
      assert s[..1] == [s[0]];
    } else {
      assert s[..2] == [s[0], s[0]];
    }
  }

  /** The variable pattern takes the whole run of `[a-z_]` characters. */
  lemma VariableMatchIsLongest(s: string)
    requires Match(Variable, s).Some?
    ensures AllIn(s[..Match(Variable, s).value], VariableChars)
    ensures Match(Variable, s).value == |s| || !IsVariableChar(s[Match(Variable, s).value])
  {
    RunIsMaximal(s, VariableChars);
  }
}
