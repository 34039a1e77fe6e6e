/**
 * The lexer: it removes all whitespace from its input, then hands out one
 * token at a time from a cursor, trying the kinds in declaration order and
 * taking the first that matches at the cursor.
 */
module Lexing {
  import opened Wrappers
  import opened TokenKinds
  import opened Tokens
  import opened Errors

  /** The class `\s`: space, tab, newline, vertical tab, form feed, carriage return. */
  predicate IsWhitespace(c: char)
  {
    c == ' ' || c == '\t' || c == '\n' || c == '\U{000B}' || c == '\U{000C}' || c == '\r'
  }

  /** The input with every whitespace character removed, the others kept in order. */
  function Strip(s: string): (r: string)
    ensures |r| <= |s|
    ensures forall i :: 0 <= i < |r| ==> !IsWhitespace(r[i])
  {
    if |s| == 0 then ""
    else if IsWhitespace(s[0]) then Strip(s[1..])
    else [s[0]] + Strip(s[1..])
  }

  /** Text that holds no whitespace is left as it is. */
  lemma {:induction false} StripKeepsPlainText(s: string)
    requires forall i :: 0 <= i < |s| ==> !IsWhitespace(s[i])
    ensures Strip(s) == s
  {
    if |s| > 0 {
      StripKeepsPlainText(s[1..]);
    }
  }

  /** Removing whitespace twice is removing it once. */
  lemma StripIsIdempotent(s: string)
    ensures Strip(Strip(s)) == Strip(s)
  {
    StripKeepsPlainText(Strip(s));
  }

  /** Removing whitespace works piecewise. */
  lemma {:induction false} StripDistributes(a: string, b: string)
    ensures Strip(a + b) == Strip(a) + Strip(b)
  {
    if |a| > 0 {
      assert (a + b)[1..] == a[1..] + b;
      StripDistributes(a[1..], b);
    } else {
      assert a + b == b;
    }
  }

  /**
   * The first kind, from position `i` of the declaration order on, whose pattern
   * matches at the start of `rest`, with the text it matched.
   */
  function FirstMatchFrom(rest: string, i: nat): (r: Option<Token>)
    requires i <= |Values|
    decreases |Values| - i
  {
    if i == |Values| then None
    else match Match(Values[i], rest)
      case Some(n) => Some(Token(Values[i], rest[..n]))
      case None => FirstMatchFrom(rest, i + 1)
  }

  /** The kind found is the first at or after `i` whose pattern matches, with the text it matched. */
  lemma {:induction false} FirstMatchFromIsFirst(rest: string, i: nat)
    requires i <= |Values|
    ensures var r := FirstMatchFrom(rest, i);
      r.Some? ==>
        && i <= Ordinal(r.value.tokenType)
        && Match(r.value.tokenType, rest) == Some(|r.value.value|)
        && r.value.value == rest[..|r.value.value|]
        && forall j :: i <= j < Ordinal(r.value.tokenType) ==> Match(Values[j], rest).None?
    ensures FirstMatchFrom(rest, i).None? ==> forall j :: i <= j < |Values| ==> Match(Values[j], rest).None?
    decreases |Values| - i
  {
    if i < |Values| {
      OrdinalOfValue(i);
      if Match(Values[i], rest).None? {
        FirstMatchFromIsFirst(rest, i + 1);
      }
    }
  }

  /** The match found leaves a non-empty prefix of the input. */
  lemma FirstMatchFromIsPrefix(rest: string, i: nat)
    requires i <= |Values| && FirstMatchFrom(rest, i).Some?
    ensures var t := FirstMatchFrom(rest, i).value; 0 < |t.value| <= |rest| && t.value == rest[..|t.value|]
  {
    FirstMatchFromIsFirst(rest, i);
  }

  /** Kinds from `i` up to `j` that do not match can be skipped. */
  lemma {:induction false} SkipNone(rest: string, i: nat, j: nat)
    requires i <= j <= |Values|
    requires forall k :: i <= Ordinal(k) < j ==> Match(k, rest).None?
    ensures FirstMatchFrom(rest, i) == FirstMatchFrom(rest, j)
    decreases j - i
  {
    if i < j {
      OrdinalOfValue(i);
      SkipNone(rest, i + 1, j);
    }
  }

  /** When `k` matches and no earlier kind does, the lexer takes `k`'s match. */
  lemma FirstIs(rest: string, k: TokenType)
    requires Match(k, rest).Some?
    requires forall j :: Ordinal(j) < Ordinal(k) ==> Match(j, rest).None?
    ensures FirstMatchFrom(rest, 0) == Some(Token(k, rest[..Match(k, rest).value]))
  {
    var i := Ordinal(k);
    assert Values[i] == k;
    assert FirstMatchFrom(rest, i) == Some(Token(k, rest[..Match(k, rest).value]));
    SkipNone(rest, 0, i);
  }

  /** When no kind matches, the lexer finds nothing. */
  lemma NoneIs(rest: string)
    requires forall j :: Match(j, rest).None?
    ensures FirstMatchFrom(rest, 0) == None
  {
    SkipNone(rest, 0, |Values|);
  }

  /** What `getNextToken` yields at `cursor`: nothing at the end, the first matching kind's token, or an error. */
  function LexAt(input: string, cursor: nat): (r: Result<Option<Token>, Error>)
    requires cursor <= |input|
    ensures r == Ok(None) <==> cursor == |input|
    ensures r.Ok? && r.value.Some? ==>
      0 < |r.value.value.value| <= |input| - cursor && input[cursor..cursor + |r.value.value.value|] == r.value.value.value
    ensures r.Err? ==> cursor < |input| && r.error == UnexpectedCharacter(cursor, input[cursor])
  {
    if cursor == |input| then Ok(None)
    else
      var rest := input[cursor..];
      match FirstMatchFrom(rest, 0)
      case None => Err(UnexpectedCharacter(cursor, input[cursor]))
      case Some(t) =>
        FirstMatchFromIsPrefix(rest, 0);
        assert input[cursor..cursor + |t.value|] == rest[..|t.value|];
        Ok(Some(t))
  }

  /**
   * The token at the cursor is that of the first kind, in declaration order, whose
   * pattern matches there, and it carries all the text that pattern matched; the
   * lexer fails exactly when no kind matches.
   */
  lemma LexAtIsFirstMatch(input: string, cursor: nat)
    requires cursor < |input|
    ensures LexAt(input, cursor).Ok? ==>
      var t := LexAt(input, cursor).value.value;
      && Match(t.tokenType, input[cursor..]) == Some(|t.value|)
      && forall k :: Ordinal(k) < Ordinal(t.tokenType) ==> Match(k, input[cursor..]).None?
    ensures LexAt(input, cursor).Err? <==> forall k :: Match(k, input[cursor..]).None?
  {
    var rest := input[cursor..];
    FirstMatchFromIsFirst(rest, 0);
    match FirstMatchFrom(rest, 0)
    case Some(t) =>
      forall k | Ordinal(k) < Ordinal(t.tokenType)
        ensures Match(k, rest).None?
      {
        assert Values[Ordinal(k)] == k;
      }
    case None =>
      forall k
        ensures Match(k, rest).None?
      {
        assert Values[Ordinal(k)] == k;
      }
  }

  /** The cursor after handing out `next` from `cursor`. */
  function Advance(cursor: nat, next: Option<Token>): nat
  {
    if next.Some? then cursor + |next.value.value| else cursor
  }

  /** The concatenated texts of a token sequence. */
  function Texts(ts: seq<Token>): string
  {
    if |ts| == 0 then "" else Texts(ts[..|ts| - 1]) + ts[|ts| - 1].value
  }

  lemma TextsOfSnoc(ts: seq<Token>, t: Token)
    ensures Texts(ts + [t]) == Texts(ts) + t.value
  {
    assert (ts + [t])[..|ts|] == ts;
  }

  /** The lexer object: the stripped input and a cursor into it that only moves forward. */
  class Lexer {
    const input: string
    var cursor: nat
    /** The tokens handed out so far. */
    ghost var returned: seq<Token>

    ghost predicate Valid()
      reads this
    {
      cursor <= |input| && Texts(returned) == input[..cursor]
    }

    constructor (source: string)
      ensures input == Strip(source) && cursor == 0 && returned == []
      ensures Valid()
    {
      input := Strip(source);
      cursor := 0;
      returned := [];
    }

    function HasMoreTokens(): (more: bool)
      reads this
      ensures more <==> cursor < |input|
    {
      cursor < |input|
    }

    /** `getCursor`: how much of the input has been handed out as tokens. */
    function GetCursor(): (c: nat)
      reads this
      requires Valid()
      ensures c <= |input| && input[..c] == Texts(returned)
    {
      cursor
    }

    /**
     * Hands out the token at the cursor and moves the cursor past it; at the end
     * of the input it yields nothing, and when no kind matches it fails, in both
     * cases leaving the cursor where it was.
     */
    method GetNextToken() returns (r: Result<Option<Token>, Error>)
      requires Valid()
      modifies this
      ensures Valid()
      ensures r == LexAt(input, old(cursor))
      ensures cursor == if r.Ok? then Advance(old(cursor), r.value) else old(cursor)
      ensures returned == if r.Ok? && r.value.Some? then old(returned) + [r.value.value] else old(returned)
      ensures r == Ok(None) ==> Texts(returned) == input
    {
      if !HasMoreTokens() {
        assert input[..cursor] == input;
        return Ok(None);
      }
      var rest := input[cursor..];
      for i := 0 to |Values|
        invariant FirstMatchFrom(rest, 0) == FirstMatchFrom(rest, i)
      {
        var m := Match(Values[i], rest);
        if m.Some? {
          FirstMatchFromIsPrefix(rest, i);
          var t := Token(Values[i], rest[..m.value]);
          TextsOfSnoc(returned, t);
          assert input[..cursor + m.value] == input[..cursor] + rest[..m.value];
          cursor := cursor + m.value;
          returned := returned + [t];
          return Ok(Some(t));
        }
      }
      return Err(UnexpectedCharacter(cursor, input[cursor]));
    }
  }
}
