/** The lexer's token: an immutable pair of a kind and the text it matched. */
module Tokens {
  import opened TokenKinds

  datatype Token = Token(tokenType: TokenType, value: string)

  /** The debug rendering "type: KIND, value: text". */
  function ToString(t: Token): string
  {
    "type: " + Name(t.tokenType) + ", value: " + t.value
  }

  /** Character `6 + i` of a rendering: the name's character `i`, or the comma right after the name. */
  lemma CharAt(name: string, value: string, i: nat)
    ensures i < |name| ==> ("type: " + name + ", value: " + value)[6 + i] == name[i]
    ensures i == |name| ==> ("type: " + name + ", value: " + value)[6 + i] == ','
  {
  }

  /** The rendering loses nothing: two tokens with the same text are the same token. */
  lemma ToStringInjective(a: Token, b: Token)
    requires ToString(a) == ToString(b)
    ensures a == b
  {
    var na, nb := Name(a.tokenType), Name(b.tokenType);
    var s := ToString(a);
    assert s == "type: " + na + ", value: " + a.value;
    assert s == "type: " + nb + ", value: " + b.value;
    NameChars(a.tokenType);
    NameChars(b.tokenType);
    CharAt(na, a.value, |nb|);
    CharAt(nb, b.value, |na|);
    if |na| < |nb| {
      assert false;
    } else if |nb| < |na| {
      assert false;
    }
    assert na == s[6..6 + |na|] == nb;
    NamesAreDistinct(a.tokenType, b.tokenType);
    assert a.value == s[6 + |na| + 9..] == b.value;
  }
}
