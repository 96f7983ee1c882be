/** What the LogLine parser makes of bare words and bare keys, which no printed span contains. */
module LogLineBare {
  import opened Prelude
  import opened LogLine
  import opened LogLineParser

  /** A token that can be one of several bare words. */
  predicate IsWord(token: Token) {
    token.Identifier? || token.Text? || token.Number? || token.Boolean? || token.Colon?
  }

  /** A token that ends them. */
  predicate EndsWords(token: Token) {
    token.Newline? || token.End? || token.Eof? || token.Comma?
    || token.LeftBrace? || token.RightBrace? || token.LeftBracket? || token.RightBracket?
  }

  /** How a word is said: identifiers and texts as they are, numbers as they print, and the rest by its name. */
  ghost predicate SaidAs(t: Tables, token: Token, s: string) {
    && (token.Identifier? ==> s == token.id)
    && (token.Text? ==> s == token.s)
    && (token.Number? ==> s == t.show(token.n))
    && (token == Boolean(true) ==> s == "true")
    && (token == Boolean(false) ==> s == "false")
    && (token.Colon? ==> s == ":")
  }

  /** The words are said one after another, a space between each two. */
  ghost predicate Sentence(t: Tables, words: seq<Token>, s: string) {
    if |words| == 0 then s == ""
    else if |words| == 1 then SaidAs(t, words[0], s)
    else exists front, last :: s == front + (" " + last) && Sentence(t, words[..|words| - 1], front) && SaidAs(t, words[|words| - 1], last)
  }

  lemma WordIsSaid(t: Tables, token: Token)
    requires IsWord(token)
    ensures SaidAs(t, token, Word(t, token))
  {
  }

  lemma {:induction false} WordsUpToEnd(t: Tables, words: seq<Token>, rest: seq<Token>)
    requires (forall i :: 0 <= i < |words| ==> IsWord(words[i])) && EndsWords(Kind(rest))
    ensures Words(t, words + rest).1 == rest && |Words(t, words + rest).0| == |words|
    ensures forall i :: 0 <= i < |words| ==> Words(t, words + rest).0[i] == Word(t, words[i])
  {
    if words == [] {
      assert words + rest == rest;
    } else {
      assert (words + rest)[1..] == words[1..] + rest;
      WordsUpToEnd(t, words[1..], rest);
    }
  }

  lemma {:induction false} JoinSnoc(ws: seq<string>, w: string)
    requires ws != []
    ensures Join(ws + [w]) == Join(ws) + (" " + w)
  {
    assert (ws + [w])[1..] == ws[1..] + [w];
    if |ws| > 1 {
      JoinSnoc(ws[1..], w);
    } else {
      assert ws[1..] + [w] == [w];
    }
  }

  lemma {:induction false} JoinIsSentence(t: Tables, words: seq<Token>, ws: seq<string>)
    requires |words| == |ws| && forall i :: 0 <= i < |ws| ==> IsWord(words[i]) && ws[i] == Word(t, words[i])
    ensures Sentence(t, words, Join(ws))
    decreases |words|
  {
    hide Word, SaidAs;
    if |words| == 1 {
      WordIsSaid(t, words[0]);
    } else if |words| > 1 {
      var n := |words| - 1;
      JoinIsSentence(t, words[..n], ws[..n]);
      WordIsSaid(t, words[n]);
      JoinSnoc(ws[..n], ws[n]);
      assert ws == ws[..n] + [ws[n]];
      assert Join(ws) == Join(ws[..n]) + (" " + ws[n]);
    }
  }

  /** A bare value is its words as they are said, up to the end of the line or a delimiter. */
  lemma BareValueIsSentence(t: Tables, words: seq<Token>, rest: seq<Token>, depth: nat)
    requires words != [] && words[0].Identifier? && (forall i :: 0 <= i < |words| ==> IsWord(words[i])) && EndsWords(Kind(rest))
    requires depth <= MAX_NESTING_DEPTH
    ensures var r := ParseValue(t, words + rest, depth); r.Ok? && r.value.Str? && r.rest == rest && Sentence(t, words, r.value.s)
  {
    hide Words, Word, Sentence;
    WordsUpToEnd(t, words, rest);
    JoinIsSentence(t, words, Words(t, words + rest).0);
  }

  /** A bare key is a switch: it reads as if ": true" stood behind it. */
  lemma BareKeyIsTrue(t: Tables, key: string, rest: seq<Token>, depth: nat)
    requires !Kind(rest).Colon? && depth <= MAX_NESTING_DEPTH
    ensures ParseParam(t, [Identifier(key)] + rest, depth) == ParseParam(t, [Identifier(key), Colon, Boolean(true)] + rest, depth)
    ensures ParseParam(t, [Identifier(key)] + rest, depth) == Ok(Field(t.lower(key), Bool(true)), rest)
  {
    var one, three := [Identifier(key)] + rest, [Identifier(key), Colon, Boolean(true)] + rest;
    assert one[1..] == rest && three[1..][0] == Colon && three[2..] == [Boolean(true)] + rest && three[2..][1..] == rest;
  }
}
