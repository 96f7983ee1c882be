/** Printing a LogLine span and reading it back. */
module LogLineRoundTrip {
  import opened Prelude
  import opened LogLine
  import opened LogLineLexer
  import opened LogLineParser
  import opened LogLinePrinter

  // ---------------------------------------------------------------- the spans that are promised to survive

  predicate LegalKey(k: string) {
    LowerIdent(k) && NotKeyword(k)
  }

  /** A text cut at its spaces. */
  function SplitSpaces(s: string): (r: seq<string>)
    ensures r != []
  {
    if s == "" then [""]
    else
      var rest := SplitSpaces(s[1..]);
      if s[0] == ' ' then [""] + rest else [[s[0]] + rest[0]] + rest[1..]
  }

  /** Plain identifiers, none of them a keyword. */
  predicate PlainWords(ws: seq<string>) {
    forall i :: 0 <= i < |ws| ==> AsciiIdent(ws[i]) && NotKeyword(ws[i])
  }

  /** A text that starts like no other token and is not trimmed: the tokenizer takes it whole. */
  predicate TakenWhole(t: Tables, s: string) {
    && s != "" && !t.alphabetic(s[0]) && s[0] != '_' && !StartsNumber(t, s) && s[0] != ':' && !BlankChar(s[0])
    && !t.whitespace(s[0]) && !t.whitespace(s[|s| - 1])
  }

  /** The texts that survive under these options: printed in quotes, taken whole, or plain words with single spaces. */
  predicate LegalText(t: Tables, o: Options, s: string) {
    o.quote || NeedsQuoting(s) || TakenWhole(t, s) || PlainWords(SplitSpaces(s))
  }

  /** Keys at every depth are lower-case identifiers, and texts legal under the options. */
  ghost predicate LegalValue(t: Tables, o: Options, v: Value)
    decreases v
  {
    match v
    case Str(s) => LegalText(t, o, s)
    case List(items) => forall i :: 0 <= i < |items| ==> LegalValue(t, o, items[i])
    case Object(fields) => forall i :: 0 <= i < |fields| ==> LegalField(t, o, fields[i])
    case _ => true
  }

  ghost predicate LegalField(t: Tables, o: Options, f: Field)
    decreases f
  {
    LegalKey(f.key) && LegalValue(t, o, f.value)
  }

  /** A name that is absent, printed in quotes, or one plain identifier. */
  predicate LegalName(name: Option<string>) {
    name.Some? ==> NeedsQuoting(name.value) || (AsciiIdent(name.value) && NotKeyword(name.value))
  }

  ghost predicate LegalSpan(t: Tables, o: Options, span: Span) {
    && LegalKey(span.kind) && LegalName(span.name)
    && forall i :: 0 <= i < |span.params| ==> LegalField(t, o, span.params[i])
  }

  /** The indentation is made of spaces. */
  predicate Spaced(o: Options) {
    forall i :: 0 <= i < |o.indent| ==> o.indent[i] == ' '
  }

  /** No value lies inside more than 32 containers. */
  ghost predicate Shallow(v: Value, nesting: nat)
    decreases v
  {
    && nesting <= 32
    && match v
       case List(items) => forall i :: 0 <= i < |items| ==> Shallow(items[i], nesting + 1)
       case Object(fields) => forall i :: 0 <= i < |fields| ==> Shallow(fields[i].value, nesting + 1)
       case _ => true
  }

  // ---------------------------------------------------------------- the tokens of a printed value

  function IndentTokens(n: nat): seq<Token> {
    if n == 0 then [] else [Indent(n)]
  }

  /** The width of the indentation at a depth. */
  function Width(o: Options, depth: nat): nat {
    if depth == 0 then 0 else |o.indent| + Width(o, depth - 1)
  }

  function WordTokens(ws: seq<string>): (r: seq<Token>)
    ensures |r| == |ws| && forall i :: 0 <= i < |ws| ==> r[i] == Identifier(ws[i])
  {
    seq(|ws|, i requires 0 <= i < |ws| => Identifier(ws[i]))
  }

  function ValueTokens(t: Tables, o: Options, v: Value, depth: nat): (r: seq<Token>)
    ensures r != [] && !r[0].Newline? && !r[0].Indent? && !r[0].Eof? && !r[0].RightBracket?
    decreases v
  {
    match v
    case Str(s) => if o.quote || NeedsQuoting(s) || TakenWhole(t, s) then [Text(s)] else WordTokens(SplitSpaces(s))
    case Num(n) => [Number(n)]
    case Bool(b) => [Boolean(b)]
    case List(items) => [LeftBracket] + (ItemsTokens(t, o, items, depth + 1) + [RightBracket])
    case Object(fields) =>
      [LeftBrace, Newline] + (FieldsTokens(t, o, fields, depth + 1) + (IndentTokens(Width(o, depth)) + [RightBrace]))
  }

  function ItemsTokens(t: Tables, o: Options, items: seq<Value>, depth: nat): seq<Token>
    decreases items
  {
    if items == [] then []
    else ValueTokens(t, o, items[0], depth) + (if |items| == 1 then [] else [Comma] + ItemsTokens(t, o, items[1..], depth))
  }

  function FieldTokens(t: Tables, o: Options, f: Field, depth: nat): seq<Token>
    decreases f
  {
    IndentTokens(Width(o, depth)) + ([Identifier(Cased(t, o, f.key)), Colon] + (ValueTokens(t, o, f.value, depth) + [Newline]))
  }

  function FieldsTokens(t: Tables, o: Options, fields: seq<Field>, depth: nat): seq<Token>
    decreases fields
  {
    if fields == [] then [] else FieldTokens(t, o, fields[0], depth) + FieldsTokens(t, o, fields[1..], depth)
  }

  function NameTokens(name: Option<string>): seq<Token> {
    match name
    case None => []
    case Some(s) => [if NeedsQuoting(s) then Text(s) else Identifier(s)]
  }

  function SpanTokens(t: Tables, o: Options, span: Span): seq<Token> {
    [Identifier(Cased(t, o, span.kind)), Colon]
    + (NameTokens(span.name) + ([Newline] + (FieldsTokens(t, o, span.params, 1) + [End, Eof])))
  }

  // ---------------------------------------------------------------- lexing one piece

  lemma LexAfterNothing(r: Option<seq<Token>>)
    ensures LexAfter([], r) == r
  {
    if r.Some? { assert [] + r.value == r.value; }
  }

  lemma LexAfterTwice(a: seq<Token>, b: seq<Token>, r: Option<seq<Token>>)
    ensures LexAfter(a, LexAfter(b, r)) == LexAfter(a + b, r)
  {
    if r.Some? { assert a + (b + r.value) == a + b + r.value; }
  }

  lemma LexStep(t: Tables, s: string, lineStart: bool, step: Step)
    requires NextToken(t, s, lineStart) == Some(step) && !step.token.Eof?
    ensures Lex(t, s, lineStart) == LexAfter([step.token], Lex(t, step.rest, step.lineStart))
  {
    hide NextToken;
  }

  lemma LexPunctuation(t: Tables, c: char, rest: string)
    requires Punctuation(c).Some?
    ensures Lex(t, [c] + rest, false) == LexAfter([Punctuation(c).value], Lex(t, rest, false))
  {
    assert ([c] + rest)[1..] == rest;
    LexStep(t, [c] + rest, false, Step(Punctuation(c).value, rest, false));
  }

  lemma LexNewline(t: Tables, rest: string)
    ensures Lex(t, "\n" + rest, false) == LexAfter([Newline], Lex(t, rest, true))
  {
    assert ("\n" + rest)[1..] == rest;
    LexStep(t, "\n" + rest, false, Step(Newline, rest, true));
  }

  lemma LexSpace(t: Tables, rest: string)
    ensures Lex(t, " " + rest, false) == Lex(t, rest, false)
  {
    assert (" " + rest)[1..] == rest;
    assert NextToken(t, " " + rest, false) == NextToken(t, rest, false);
  }

  /** One escaped character in front of the rest of a string body. */
  lemma ReadEscapedChar(c: char, tail: string)
    ensures ReadString(EscapeChar(c) + tail) == match ReadString(tail)
                                                case None => None
                                                case Some((body, rest)) => Some(([c] + body, rest))
  {
    var text := EscapeChar(c) + tail;
    if |EscapeChar(c)| == 1 {
      assert text[0] == c && text[1..] == tail;
    } else {
      assert text[0] == '\\' && Unescape(text[1]) == Some(c) && text[2..] == tail;
    }
  }

  lemma {:induction false} ReadEscaped(s: string, rest: string)
    ensures ReadString(Escape(s) + ("\"" + rest)) == Some((s, rest))
  {
    hide EscapeChar;
    if s == "" {
      assert Escape(s) + ("\"" + rest) == "\"" + rest;
      assert ("\"" + rest)[1..] == rest;
    } else {
      hide ReadString;
      var tail := Escape(s[1..]) + ("\"" + rest);
      ReadEscaped(s[1..], rest);
      assert Escape(s) + ("\"" + rest) == EscapeChar(s[0]) + tail;
      ReadEscapedChar(s[0], tail);
      assert s == [s[0]] + s[1..];
    }
  }

  lemma LexQuoted(t: Tables, s: string, rest: string)
    ensures Lex(t, Quoted(s) + rest, false) == LexAfter([Text(s)], Lex(t, rest, false))
  {
    hide Escape, ReadString;
    var text := Quoted(s) + rest;
    assert text[1..] == Escape(s) + ("\"" + rest);
    assert text[0] == '"';
    ReadEscaped(s, rest);
    LexStep(t, text, false, Step(Text(s), rest, false));
  }

  lemma {:induction false} ReadIdentOf(t: Tables, w: string, rest: string)
    requires forall i :: 0 <= i < |w| ==> IdentChar(t, w[i])
    requires rest == "" || !IdentChar(t, rest[0])
    ensures ReadIdent(t, w + rest) == (w, rest)
  {
    hide IdentChar;
    if w == "" {
      assert w + rest == rest;
    } else {
      assert (w + rest)[1..] == w[1..] + rest;
      ReadIdentOf(t, w[1..], rest);
      assert w == [w[0]] + w[1..];
    }
  }

  lemma AsciiIdentReads(t: Tables, w: string)
    requires Lawful(t) && AsciiIdent(w)
    ensures w != "" && forall i :: 0 <= i < |w| ==> IdentChar(t, w[i])
    ensures t.upper(w) == AsciiUpper(w) && t.lower(w) == AsciiLower(w)
    ensures (t.alphabetic(w[0]) || w[0] == '_') && !t.numeric(w[0]) && Punctuation(w[0]) == None
    ensures w[0] != '"' && w[0] != '\n' && w[0] != '-' && !BlankChar(w[0])
  {
    forall i | 0 <= i < |w| ensures w[i] < 128 as char && IdentChar(t, w[i]) {
      assert Letter(w[i]) || Digit(w[i]) || w[i] == '_' || w[i] == '-';
    }
    assert IsAscii(w);
  }

  /** What can follow a word without being taken into it. */
  predicate EndsWord(rest: string) {
    rest == "" || rest[0] == ':' || rest[0] == '\n' || rest[0] == ',' || rest[0] == ']' || rest[0] == ' '
  }

  lemma NotIdentAfter(t: Tables, rest: string)
    requires Lawful(t) && EndsWord(rest)
    ensures rest == "" || (!IdentChar(t, rest[0]) && !t.numeric(rest[0]))
  {
    if rest != "" {
      assert rest[0] < 128 as char;
    }
  }

  lemma LexWord(t: Tables, w: string, rest: string)
    requires Lawful(t) && AsciiIdent(w) && EndsWord(rest)
    ensures !Keyword(t, w).Eof?
    ensures Lex(t, w + rest, false) == LexAfter([Keyword(t, w)], Lex(t, rest, false))
  {
    hide Lawful, ReadIdent, AsciiIdent;
    AsciiIdentReads(t, w);
    NotIdentAfter(t, rest);
    ReadIdentOf(t, w, rest);
    var text := w + rest;
    assert text[0] == w[0];
    assert !StartsNumber(t, text);
    assert SkipBlank(text) == text;
    LexStep(t, text, false, Step(Keyword(t, w), rest, false));
  }

  lemma LexIdentifier(t: Tables, w: string, rest: string)
    requires Lawful(t) && AsciiIdent(w) && NotKeyword(w) && EndsWord(rest)
    ensures Lex(t, w + rest, false) == LexAfter([Identifier(w)], Lex(t, rest, false))
  {
    AsciiIdentReads(t, w);
    LexWord(t, w, rest);
  }

  lemma LexBoolean(t: Tables, b: bool, rest: string)
    requires Lawful(t) && EndsWord(rest)
    ensures Lex(t, (if b then "true" else "false") + rest, false) == LexAfter([Boolean(b)], Lex(t, rest, false))
  {
    hide Lawful, Lex;
    if b {
      assert AsciiIdent("true") && AsciiUpper("true") == "TRUE";
      AsciiIdentReads(t, "true");
      LexWord(t, "true", rest);
    } else {
      assert AsciiIdent("false") && AsciiUpper("false") == "FALSE";
      AsciiIdentReads(t, "false");
      LexWord(t, "false", rest);
    }
  }

  lemma {:induction false} ReadDigitsOf(t: Tables, d: string, rest: string)
    requires forall i :: 0 <= i < |d| ==> t.numeric(d[i])
    requires rest == "" || (!t.numeric(rest[0]) && rest[0] != '.')
    ensures ReadDigits(t, d + rest, false) == (d, rest)
  {
    if d == "" {
      assert d + rest == rest;
    } else {
      assert (d + rest)[1..] == d[1..] + rest;
      ReadDigitsOf(t, d[1..], rest);
      assert d == [d[0]] + d[1..];
    }
  }

  lemma DigitsRead(t: Tables, n: nat, rest: string)
    requires Lawful(t) && EndsWord(rest)
    ensures ReadDigits(t, DecimalNat(n) + rest, false) == (DecimalNat(n), rest)
    ensures forall i :: 0 <= i < |DecimalNat(n)| ==> t.numeric(DecimalNat(n)[i])
  {
    hide ReadDigits, DecimalNat;
    NotIdentAfter(t, rest);
    var d := DecimalNat(n);
    forall i | 0 <= i < |d| ensures t.numeric(d[i]) {
      assert Digit(d[i]) && d[i] < 128 as char;
    }
    ReadDigitsOf(t, d, rest);
  }

  lemma DecimalReads(t: Tables, n: int, rest: string)
    requires Lawful(t) && EndsWord(rest)
    ensures ReadNumber(t, Decimal(n) + rest) == (Decimal(n), rest)
    ensures StartsNumber(t, Decimal(n) + rest)
    ensures var c := Decimal(n)[0]; c != '"' && c != '\n' && Punctuation(c) == None && !BlankChar(c)
  {
    hide ReadDigits, Lawful, DecimalNat;
    var d := DecimalNat(if n < 0 then -n else n);
    DigitsRead(t, if n < 0 then -n else n, rest);
    var text := Decimal(n) + rest;
    if n < 0 {
      assert text[0] == '-' && text[1] == d[0];
      assert text[1..] == d + rest;
    } else {
      assert text == d + rest && Digit(text[0]);
    }
  }

  lemma LexNumber(t: Tables, n: int, rest: string)
    requires Lawful(t) && EndsWord(rest)
    ensures Lex(t, Decimal(n) + rest, false) == LexAfter([Number(n)], Lex(t, rest, false))
  {
    hide ReadNumber, Decimal;
    var text := Decimal(n) + rest;
    DecimalNonEmpty(n);
    DecimalReads(t, n, rest);
    assert text[0] == Decimal(n)[0];
    assert SkipBlank(text) == text;
    assert t.number(Decimal(n)) == Some(n);
    LexStep(t, text, false, Step(Number(n), rest, false));
  }

  lemma DecimalNonEmpty(n: int)
    ensures Decimal(n) != ""
  {
  }

  predicate AllSpaces(m: string) {
    forall i :: 0 <= i < |m| ==> m[i] == ' '
  }

  lemma {:induction false} CountSpaces(m: string, rest: string)
    requires AllSpaces(m) && (rest == "" || (rest[0] != ' ' && rest[0] != '\t'))
    ensures CountIndent(m + rest) == (|m|, rest)
  {
    if m == "" {
      assert m + rest == rest;
    } else {
      assert (m + rest)[1..] == m[1..] + rest;
      CountSpaces(m[1..], rest);
    }
  }

  lemma {:induction false} MarginIsSpaces(o: Options, depth: nat)
    requires Spaced(o)
    ensures AllSpaces(Margin(o, depth)) && |Margin(o, depth)| == Width(o, depth)
  {
    if depth > 0 { MarginIsSpaces(o, depth - 1); }
  }

  /** Indentation at the start of a line, in front of something. */
  lemma LexIndent(t: Tables, m: string, rest: string)
    requires AllSpaces(m) && rest != "" && rest[0] != ' ' && rest[0] != '\t' && rest[0] != '\n'
    ensures Lex(t, m + rest, true) == LexAfter(IndentTokens(|m|), Lex(t, rest, false))
  {
    hide PlainToken, CountIndent;
    CountSpaces(m, rest);
    if m != "" {
      LexStep(t, m + rest, true, Step(Indent(|m|), rest, false));
    } else {
      assert NextToken(t, m + rest, true) == NextToken(t, rest, false);
      LexAfterNothing(Lex(t, rest, false));
      LexSame(t, m + rest, true, rest, false);
    }
  }

  lemma LexSame(t: Tables, s: string, a: bool, s': string, b: bool)
    requires NextToken(t, s, a) == NextToken(t, s', b)
    ensures Lex(t, s, a) == Lex(t, s', b)
  {
    hide NextToken;
  }

  // ---------------------------------------------------------------- keys in either case

  lemma CasedKey(t: Tables, o: Options, k: string)
    requires Lawful(t) && LegalKey(k)
    ensures var c := Cased(t, o, k);
            AsciiIdent(c) && NotKeyword(c) && t.lower(c) == k
  {
    assert IsAscii(k);
    var c := Cased(t, o, k);
    forall i | 0 <= i < |k|
      ensures LowerChar(c[i]) == k[i] && UpperChar(c[i]) == UpperChar(k[i])
      ensures Letter(c[i]) || Digit(c[i]) || c[i] == '_' || c[i] == '-'
    {
    }
    assert AsciiUpper(c) == AsciiUpper(k);
    assert AsciiIdent(c) && IsAscii(c);
    assert AsciiLower(c) == k;
  }

  // ---------------------------------------------------------------- lexing a printed value

  /** What follows a value in printed text. */
  predicate EndsValue(rest: string) {
    rest != "" && (rest[0] == '\n' || rest[0] == ',' || rest[0] == ']')
  }

  lemma {:induction false} ReadUnquotedOf(s: string, rest: string)
    requires (forall i :: 0 <= i < |s| ==> !Delimiter(s[i])) && rest != "" && Delimiter(rest[0])
    ensures ReadUnquoted(s + rest) == (s, rest)
  {
    hide Delimiter;
    if s == "" {
      assert s + rest == rest;
    } else {
      assert (s + rest)[1..] == s[1..] + rest;
      ReadUnquotedOf(s[1..], rest);
      assert s == [s[0]] + s[1..];
    }
  }

  lemma LexWhole(t: Tables, s: string, rest: string)
    requires Lawful(t) && TakenWhole(t, s) && !NeedsQuoting(s) && EndsValue(rest)
    ensures Lex(t, s + rest, false) == LexAfter([Text(s)], Lex(t, rest, false))
  {
    hide ReadUnquoted, Lawful;
    var text := s + rest;
    NotIdentAfter(t, rest);
    forall i | 0 <= i < |s| ensures !Delimiter(s[i]) { assert !Special(s[i]); }
    ReadUnquotedOf(s, rest);
    assert text[0] == s[0] && !Special(s[0]);
    if StartsNumber(t, text) { NumberInside(t, s, rest); }
    assert TrimStart(t, s) == s && TrimEnd(t, s) == s;
    assert SkipBlank(text) == text;
    LexStep(t, text, false, Step(Text(s), rest, false));
  }

  lemma NumberInside(t: Tables, s: string, rest: string)
    requires s != "" && EndsValue(rest) && StartsNumber(t, s + rest) && !t.numeric(rest[0])
    ensures StartsNumber(t, s)
  {
    if |s| > 1 { assert (s + rest)[1] == s[1]; } else { assert (s + rest)[1] == rest[0]; }
  }

  lemma {:induction false} JoinUndoesSplit(s: string)
    ensures Join(SplitSpaces(s)) == s
  {
    if s != "" {
      JoinUndoesSplit(s[1..]);
      var rest, ws := SplitSpaces(s[1..]), SplitSpaces(s);
      assert s == [s[0]] + s[1..];
      if s[0] == ' ' {
        assert ws[1..] == rest;
      } else if |rest| > 1 {
        assert ws[1..] == rest[1..];
      }
    }
  }

  lemma {:induction false} LexWords(t: Tables, ws: seq<string>, rest: string)
    requires Lawful(t) && ws != [] && PlainWords(ws) && EndsValue(rest)
    ensures Lex(t, Join(ws) + rest, false) == LexAfter(WordTokens(ws), Lex(t, rest, false))
  {
    hide Lawful, Lex, AsciiIdent, NotKeyword;
    if |ws| == 1 {
      LexIdentifier(t, ws[0], rest);
      assert WordTokens(ws) == [Identifier(ws[0])];
    } else {
      var more := Join(ws[1..]) + rest;
      assert Join(ws) + rest == ws[0] + (" " + more);
      LexIdentifier(t, ws[0], " " + more);
      LexSpace(t, more);
      LexWords(t, ws[1..], rest);
      LexAfterTwice([Identifier(ws[0])], WordTokens(ws[1..]), Lex(t, rest, false));
      assert WordTokens(ws) == [Identifier(ws[0])] + WordTokens(ws[1..]);
    }
  }

  lemma LexText(t: Tables, o: Options, s: string, rest: string)
    requires Lawful(t) && LegalText(t, o, s) && EndsValue(rest)
    ensures Lex(t, ValueText(t, o, Str(s), 0) + rest, false) == LexAfter(ValueTokens(t, o, Str(s), 0), Lex(t, rest, false))
  {
    hide Lawful, Lex, Quoted, NeedsQuoting, TakenWhole, PlainWords, SplitSpaces;
    if o.quote || NeedsQuoting(s) {
      LexQuoted(t, s, rest);
    } else if TakenWhole(t, s) {
      LexWhole(t, s, rest);
    } else {
      JoinUndoesSplit(s);
      LexWords(t, SplitSpaces(s), rest);
    }
  }

  lemma {:induction false} LexValue(t: Tables, o: Options, v: Value, depth: nat, rest: string)
    requires Lawful(t) && Spaced(o) && LegalValue(t, o, v) && EndsValue(rest)
    ensures Lex(t, ValueText(t, o, v, depth) + rest, false) == LexAfter(ValueTokens(t, o, v, depth), Lex(t, rest, false))
    decreases v, 1
  {
    hide Lawful, Lex, Decimal, NeedsQuoting, Margin, ItemsText, FieldsText, ItemsTokens, FieldsTokens, TakenWhole, SplitSpaces, PlainWords, Quoted;
    match v
    case Str(s) => LexText(t, o, s, rest);
    case Num(n) => LexNumber(t, n, rest);
    case Bool(b) => LexBoolean(t, b, rest);
    case List(items) => LexList(t, o, items, depth, rest);
    case Object(fields) => LexObject(t, o, fields, depth, rest);
  }

  lemma {:induction false} LexList(t: Tables, o: Options, items: seq<Value>, depth: nat, rest: string)
    requires Lawful(t) && Spaced(o) && forall i :: 0 <= i < |items| ==> LegalValue(t, o, items[i])
    ensures Lex(t, ValueText(t, o, List(items), depth) + rest, false)
         == LexAfter(ValueTokens(t, o, List(items), depth), Lex(t, rest, false))
    decreases items, 1
  {
    hide Lawful, Lex, LexAfter, ItemsText, ItemsTokens;
    var inner := "]" + rest;
    var text, xs := ItemsText(t, o, items, depth + 1), ItemsTokens(t, o, items, depth + 1);
    assert ValueText(t, o, List(items), depth) + rest == "[" + (text + inner);
    LexPunctuation(t, '[', text + inner);
    LexItems(t, o, items, depth + 1, rest);
    LexPunctuation(t, ']', rest);
    LexAfterTwice(xs, [RightBracket], Lex(t, rest, false));
    LexAfterTwice([LeftBracket], xs + [RightBracket], Lex(t, rest, false));
  }

  lemma {:induction false} LexObject(t: Tables, o: Options, fields: seq<Field>, depth: nat, rest: string)
    requires Lawful(t) && Spaced(o) && forall i :: 0 <= i < |fields| ==> LegalField(t, o, fields[i])
    ensures Lex(t, ValueText(t, o, Object(fields), depth) + rest, false)
         == LexAfter(ValueTokens(t, o, Object(fields), depth), Lex(t, rest, false))
    decreases fields, 1
  {
    hide Lawful, Lex, LexAfter, FieldsText, FieldsTokens, IndentTokens, Margin, Width;
    var close := Margin(o, depth) + ("}" + rest);
    MarginIsSpaces(o, depth);
    var text := FieldsText(t, o, fields, depth + 1);
    assert ValueText(t, o, Object(fields), depth) + rest == "{" + ("\n" + (text + close));
    LexPunctuation(t, '{', "\n" + (text + close));
    LexNewline(t, text + close);
    LexFields(t, o, fields, depth + 1, close);
    LexIndent(t, Margin(o, depth), "}" + rest);
    LexPunctuation(t, '}', rest);
    var fs, ind := FieldsTokens(t, o, fields, depth + 1), IndentTokens(Width(o, depth));
    LexAfterTwice(ind, [RightBrace], Lex(t, rest, false));
    LexAfterTwice(fs, ind + [RightBrace], Lex(t, rest, false));
    LexAfterTwice([Newline], fs + (ind + [RightBrace]), Lex(t, rest, false));
    LexAfterTwice([LeftBrace], [Newline] + (fs + (ind + [RightBrace])), Lex(t, rest, false));
    assert [LeftBrace] + ([Newline] + (fs + (ind + [RightBrace]))) == [LeftBrace, Newline] + (fs + (ind + [RightBrace]));
  }

  lemma {:induction false} LexItems(t: Tables, o: Options, items: seq<Value>, depth: nat, rest: string)
    requires Lawful(t) && Spaced(o) && forall i :: 0 <= i < |items| ==> LegalValue(t, o, items[i])
    ensures Lex(t, ItemsText(t, o, items, depth) + ("]" + rest), false)
         == LexAfter(ItemsTokens(t, o, items, depth), Lex(t, "]" + rest, false))
    decreases items, 0
  {
    hide Lawful, Lex, ValueText, ValueTokens, LexAfter;
    var close := "]" + rest;
    if items == [] {
      assert ItemsText(t, o, items, depth) + close == close;
      LexAfterNothing(Lex(t, close, false));
    } else {
      var first := ValueText(t, o, items[0], depth);
      var firstTokens := ValueTokens(t, o, items[0], depth);
      if |items| == 1 {
        assert ItemsText(t, o, items, depth) + close == first + close;
        LexValue(t, o, items[0], depth, close);
        assert firstTokens + [] == firstTokens;
      } else {
        var more, moreTokens := ItemsText(t, o, items[1..], depth), ItemsTokens(t, o, items[1..], depth);
        assert ItemsText(t, o, items, depth) + close == first + ("," + (" " + (more + close)));
        LexValue(t, o, items[0], depth, "," + (" " + (more + close)));
        LexPunctuation(t, ',', " " + (more + close));
        LexSpace(t, more + close);
        LexItems(t, o, items[1..], depth, rest);
        LexAfterTwice([Comma], moreTokens, Lex(t, close, false));
        LexAfterTwice(firstTokens, [Comma] + moreTokens, Lex(t, close, false));
      }
    }
  }

  lemma {:induction false} LexFields(t: Tables, o: Options, fields: seq<Field>, depth: nat, rest: string)
    requires Lawful(t) && Spaced(o) && forall i :: 0 <= i < |fields| ==> LegalField(t, o, fields[i])
    ensures Lex(t, FieldsText(t, o, fields, depth) + rest, true)
         == LexAfter(FieldsTokens(t, o, fields, depth), Lex(t, rest, true))
    decreases fields, 0
  {
    hide Lawful, Lex, FieldText, FieldTokens, LexAfter, LegalField;
    if fields == [] {
      assert FieldsText(t, o, fields, depth) + rest == rest;
      LexAfterNothing(Lex(t, rest, true));
    } else {
      var more, moreTokens := FieldsText(t, o, fields[1..], depth), FieldsTokens(t, o, fields[1..], depth);
      assert FieldsText(t, o, fields, depth) + rest == FieldText(t, o, fields[0], depth) + (more + rest);
      LexField(t, o, fields[0], depth, more + rest);
      LexFields(t, o, fields[1..], depth, rest);
      LexAfterTwice(FieldTokens(t, o, fields[0], depth), moreTokens, Lex(t, rest, true));
    }
  }

  lemma {:induction false} LexField(t: Tables, o: Options, f: Field, depth: nat, rest: string)
    requires Lawful(t) && Spaced(o) && LegalField(t, o, f)
    ensures Lex(t, FieldText(t, o, f, depth) + rest, true) == LexAfter(FieldTokens(t, o, f, depth), Lex(t, rest, true))
    decreases f, 2
  {
    hide Lawful, Lex, ValueText, ValueTokens, LexAfter, Cased, LegalKey, Margin, Width;
    var key, value, ind := Cased(t, o, f.key), ValueText(t, o, f.value, depth), Margin(o, depth);
    MarginIsSpaces(o, depth);
    var afterKey := ":" + (" " + (value + ("\n" + rest)));
    assert FieldText(t, o, f, depth) + rest == ind + (key + afterKey);
    CasedKey(t, o, f.key);
    AsciiIdentReads(t, key);
    LexIndent(t, ind, key + afterKey);
    LexIdentifier(t, key, afterKey);
    LexPunctuation(t, ':', " " + (value + ("\n" + rest)));
    LexSpace(t, value + ("\n" + rest));
    LexValue(t, o, f.value, depth, "\n" + rest);
    LexNewline(t, rest);
    var vs, tail := ValueTokens(t, o, f.value, depth), Lex(t, rest, true);
    LexAfterTwice(vs, [Newline], tail);
    LexAfterTwice([Colon], vs + [Newline], tail);
    LexAfterTwice([Identifier(key)], [Colon] + (vs + [Newline]), tail);
    LexAfterTwice(IndentTokens(Width(o, depth)), [Identifier(key)] + ([Colon] + (vs + [Newline])), tail);
    assert [Identifier(key)] + ([Colon] + (vs + [Newline])) == [Identifier(key), Colon] + (vs + [Newline]);
  }

  lemma LexEnd(t: Tables)
    requires Lawful(t)
    ensures Lex(t, "END", true) == Some([End, Eof])
  {
    hide Lex;
    assert AsciiIdent("END") && AsciiUpper("END") == "END";
    AsciiIdentReads(t, "END");
    assert "" + "END" == "END";
    LexIndent(t, "", "END");
    LexWord(t, "END", "");
    assert "END" + "" == "END";
    LexNothing(t);
    assert [End] + [Eof] == [End, Eof];
    LexAfterNothing(Lex(t, "END", false));
  }

  lemma LexNothing(t: Tables)
    ensures Lex(t, "", false) == Some([Eof])
  {
  }

  lemma LexName(t: Tables, name: Option<string>, rest: string)
    requires Lawful(t) && LegalName(name)
    ensures Lex(t, NameText(name) + ("\n" + rest), false) == LexAfter(NameTokens(name), Lex(t, "\n" + rest, false))
  {
    hide Lawful, Lex, Quoted, NeedsQuoting, NotKeyword, AsciiIdent;
    var tail := "\n" + rest;
    match name
    case None =>
      assert NameText(name) + tail == tail;
      LexAfterNothing(Lex(t, tail, false));
    case Some(s) =>
      var word := if NeedsQuoting(s) then Quoted(s) else s;
      assert NameText(name) + tail == " " + (word + tail);
      LexSpace(t, word + tail);
      if NeedsQuoting(s) {
        LexQuoted(t, s, tail);
      } else {
        LexIdentifier(t, s, tail);
      }
  }

  /** The printed text of a legal span lexes to its tokens. */
  lemma LexSpan(t: Tables, o: Options, span: Span)
    requires Lawful(t) && Spaced(o) && LegalSpan(t, o, span)
    ensures Lex(t, Serialize(t, o, span), true) == Some(SpanTokens(t, o, span))
  {
    hide Lawful, Lex, Cased, NameText, NameTokens, FieldsText, FieldsTokens, LegalKey, LegalField, LegalName;
    var kind := Cased(t, o, span.kind);
    var body := FieldsText(t, o, span.params, 1) + "END";
    var text := Serialize(t, o, span);
    var afterKind := ":" + (NameText(span.name) + ("\n" + body));
    CasedKey(t, o, span.kind);
    AsciiIdentReads(t, kind);
    assert "" + text == text && text == kind + afterKind;
    LexIndent(t, "", text);
    LexAfterNothing(Lex(t, text, false));
    LexIdentifier(t, kind, afterKind);
    LexPunctuation(t, ':', NameText(span.name) + ("\n" + body));
    LexName(t, span.name, body);
    LexNewline(t, body);
    LexFields(t, o, span.params, 1, "END");
    LexEnd(t);
    var names, fs := NameTokens(span.name), FieldsTokens(t, o, span.params, 1);
    assert [Identifier(kind)] + ([Colon] + (names + ([Newline] + (fs + [End, Eof]))))
        == SpanTokens(t, o, span);
  }

  // ---------------------------------------------------------------- parsing the tokens

  lemma SkipPastIndent(n: nat, ts: seq<Token>)
    ensures SkipWhitespace(IndentTokens(n) + ts) == SkipWhitespace(ts)
    ensures SkipWhitespace([Newline] + ts) == SkipWhitespace(ts)
  {
    assert ([Newline] + ts)[1..] == ts;
    if n == 0 {
      assert IndentTokens(n) + ts == ts;
    } else {
      assert (IndentTokens(n) + ts)[1..] == ts;
    }
  }

  lemma SkipTwice(ts: seq<Token>)
    ensures SkipWhitespace(SkipWhitespace(ts)) == SkipWhitespace(ts)
  {
  }

  lemma ParseFieldsSkips(t: Tables, a: seq<Token>, b: seq<Token>, nesting: nat)
    requires SkipWhitespace(a) == SkipWhitespace(b)
    ensures ParseFields(t, a, nesting) == ParseFields(t, b, nesting)
  {
    hide ParseParam;
  }

  /** A parsed result, or the error that nesting is too deep. */
  ghost function Expect<T>(shallow: bool, v: T, rest: seq<Token>): Outcome<T> {
    if shallow then Ok(v, rest) else Error(NestingTooDeep)
  }

  /** What ends a bare text among the tokens. */
  predicate StopsWords(rest: seq<Token>) {
    rest != [] && (rest[0].Newline? || rest[0].Comma? || rest[0].RightBracket?)
  }

  lemma {:induction false} WordsOf(t: Tables, ws: seq<string>, rest: seq<Token>)
    requires StopsWords(rest)
    ensures Words(t, WordTokens(ws) + rest) == (ws, rest)
  {
    var ts := WordTokens(ws) + rest;
    if ws == [] {
      assert ts == rest;
    } else {
      assert ts[0] == Identifier(ws[0]) && ts[1..] == WordTokens(ws[1..]) + rest;
      WordsOf(t, ws[1..], rest);
      assert ws == [ws[0]] + ws[1..];
    }
  }

  lemma ParseText(t: Tables, o: Options, s: string, depth: nat, nesting: nat, rest: seq<Token>)
    requires nesting <= MAX_NESTING_DEPTH && StopsWords(rest)
    ensures ParseValue(t, ValueTokens(t, o, Str(s), depth) + rest, nesting) == Ok(Str(s), rest)
  {
    hide Words, NeedsQuoting, TakenWhole, SplitSpaces, ParseFields, ParseItems, Join;
    if o.quote || NeedsQuoting(s) || TakenWhole(t, s) {
      assert ([Text(s)] + rest)[1..] == rest;
    } else {
      var ws := SplitSpaces(s);
      assert (WordTokens(ws) + rest)[0] == Identifier(ws[0]);
      WordsOf(t, ws, rest);
      JoinUndoesSplit(s);
    }
  }

  lemma {:induction false} ParseValueTokens(t: Tables, o: Options, v: Value, depth: nat, nesting: nat, rest: seq<Token>)
    requires Lawful(t) && LegalValue(t, o, v) && StopsWords(rest)
    ensures ParseValue(t, ValueTokens(t, o, v, depth) + rest, nesting) == Expect(Shallow(v, nesting), v, rest)
    decreases v, 1
  {
    hide Lawful, ParseFields, ParseItems, ItemsTokens, FieldsTokens, LegalField, Words, Width, TakenWhole, SplitSpaces, NeedsQuoting, PlainWords;
    if nesting <= MAX_NESTING_DEPTH {
      match v
      case Str(s) => ParseText(t, o, s, depth, nesting, rest);
      case Num(n) => assert ([Number(n)] + rest)[1..] == rest;
      case Bool(b) => assert ([Boolean(b)] + rest)[1..] == rest;
      case List(items) => ParseListTokens(t, o, items, depth, nesting, rest);
      case Object(fields) => ParseObjectTokens(t, o, fields, depth, nesting, rest);
    }
  }

  lemma {:induction false} ParseListTokens(t: Tables, o: Options, items: seq<Value>, depth: nat, nesting: nat, rest: seq<Token>)
    requires Lawful(t) && nesting <= MAX_NESTING_DEPTH && forall i :: 0 <= i < |items| ==> LegalValue(t, o, items[i])
    ensures ParseValue(t, ValueTokens(t, o, List(items), depth) + rest, nesting)
         == Expect(AllItemsShallow(items, nesting + 1), List(items), rest)
    decreases items, 3
  {
    hide Lawful, ParseItems, ItemsTokens, AllItemsShallow;
    var ts := ValueTokens(t, o, List(items), depth) + rest;
    assert ts == [LeftBracket] + (ItemsTokens(t, o, items, depth + 1) + ([RightBracket] + rest));
    assert ts[1..] == ItemsTokens(t, o, items, depth + 1) + ([RightBracket] + rest);
    ParseItemTokens(t, o, items, depth + 1, nesting + 1, rest);
  }

  ghost predicate AllItemsShallow(items: seq<Value>, nesting: nat) {
    forall i :: 0 <= i < |items| ==> Shallow(items[i], nesting)
  }

  lemma AllItemsShallowCons(items: seq<Value>, nesting: nat)
    requires items != []
    ensures AllItemsShallow(items, nesting) <==> Shallow(items[0], nesting) && AllItemsShallow(items[1..], nesting)
  {
    hide Shallow;
    if Shallow(items[0], nesting) && AllItemsShallow(items[1..], nesting) {
      forall i | 0 <= i < |items| ensures Shallow(items[i], nesting) {
        if i > 0 { assert items[i] == items[1..][i - 1]; }
      }
    }
  }

  lemma {:induction false} ParseObjectTokens(t: Tables, o: Options, fields: seq<Field>, depth: nat, nesting: nat, rest: seq<Token>)
    requires Lawful(t) && nesting <= MAX_NESTING_DEPTH && forall i :: 0 <= i < |fields| ==> LegalField(t, o, fields[i])
    ensures ParseValue(t, ValueTokens(t, o, Object(fields), depth) + rest, nesting)
         == Expect(AllShallow(fields, nesting + 1), Object(fields), rest)
    decreases fields, 3
  {
    hide Lawful, ParseFields, FieldsTokens, AllShallow, Width;
    var ts := ValueTokens(t, o, Object(fields), depth) + rest;
    var close := IndentTokens(Width(o, depth)) + ([RightBrace] + rest);
    var body := FieldsTokens(t, o, fields, depth + 1) + close;
    assert ts == [LeftBrace] + ([Newline] + body);
    assert ts[1..] == [Newline] + body;
    SkipPastIndent(0, body);
    ParseFieldsSkips(t, [Newline] + body, body, nesting + 1);
    ParseFieldTokens(t, o, fields, depth + 1, nesting + 1, Width(o, depth), rest);
  }

  lemma {:induction false} ParseItemTokens(t: Tables, o: Options, items: seq<Value>, depth: nat, nesting: nat, rest: seq<Token>)
    requires Lawful(t) && forall i :: 0 <= i < |items| ==> LegalValue(t, o, items[i])
    ensures ParseItems(t, ItemsTokens(t, o, items, depth) + ([RightBracket] + rest), nesting)
         == Expect(AllItemsShallow(items, nesting), items, rest)
    decreases items, 0
  {
    hide Lawful, ParseValue, ValueTokens, Shallow, LegalValue;
    var close := [RightBracket] + rest;
    var ts := ItemsTokens(t, o, items, depth) + close;
    if items == [] {
      assert ts == close && close[1..] == rest;
    } else {
      var first := ValueTokens(t, o, items[0], depth);
      var more := if |items| == 1 then close else [Comma] + (ItemsTokens(t, o, items[1..], depth) + close);
      assert ts == first + more;
      assert ts[0] == first[0];
      ParseValueTokens(t, o, items[0], depth, nesting, more);
      assert SkipWhitespace(more) == more;
      AllItemsShallowCons(items, nesting);
      if |items| == 1 {
        NoMoreItems(t, close, nesting, rest);
        assert items == [items[0]] + [];
      } else {
        assert more[1..] == ItemsTokens(t, o, items[1..], depth) + close;
        ParseItemTokens(t, o, items[1..], depth, nesting, rest);
        assert items == [items[0]] + items[1..];
      }
    }
  }

  lemma NoMoreItems(t: Tables, close: seq<Token>, nesting: nat, rest: seq<Token>)
    requires close == [RightBracket] + rest
    ensures SkipComma(close) == close && ParseItems(t, close, nesting) == Ok([], rest)
  {
    assert close[1..] == rest;
  }

  lemma {:induction false} ParseOneField(t: Tables, o: Options, f: Field, depth: nat, nesting: nat, more: seq<Token>)
    requires Lawful(t) && LegalField(t, o, f)
    ensures var ts := [Identifier(Cased(t, o, f.key)), Colon] + (ValueTokens(t, o, f.value, depth) + ([Newline] + more));
            ParseParam(t, ts, nesting) == Expect(Shallow(f.value, nesting), f, [Newline] + more)
    decreases f, 2
  {
    hide Lawful, ParseValue, ValueTokens, Shallow, LegalKey, Cased;
    var tail := ValueTokens(t, o, f.value, depth) + ([Newline] + more);
    var ts := [Identifier(Cased(t, o, f.key)), Colon] + tail;
    assert ts[1..][0] == Colon && ts[2..] == tail;
    CasedKey(t, o, f.key);
    ParseValueTokens(t, o, f.value, depth, nesting, [Newline] + more);
  }

  /** The tokens of one field in front of others, past the indentation. */
  lemma FieldTokensFirst(t: Tables, o: Options, fields: seq<Field>, depth: nat, close: seq<Token>)
    requires fields != []
    ensures SkipWhitespace(FieldsTokens(t, o, fields, depth) + close)
         == [Identifier(Cased(t, o, fields[0].key)), Colon]
            + (ValueTokens(t, o, fields[0].value, depth) + ([Newline] + (FieldsTokens(t, o, fields[1..], depth) + close)))
  {
    hide ValueTokens, Cased, Width;
    var f, more := fields[0], FieldsTokens(t, o, fields[1..], depth) + close;
    var line := [Identifier(Cased(t, o, f.key)), Colon] + (ValueTokens(t, o, f.value, depth) + ([Newline] + more));
    assert FieldsTokens(t, o, fields, depth) + close == IndentTokens(Width(o, depth)) + line;
    SkipPastIndent(Width(o, depth), line);
    assert SkipWhitespace(line) == line;
  }

  ghost predicate AllShallow(fields: seq<Field>, nesting: nat) {
    forall i :: 0 <= i < |fields| ==> Shallow(fields[i].value, nesting)
  }

  lemma AllShallowCons(fields: seq<Field>, nesting: nat)
    requires fields != []
    ensures AllShallow(fields, nesting) <==> Shallow(fields[0].value, nesting) && AllShallow(fields[1..], nesting)
  {
    hide Shallow;
    if Shallow(fields[0].value, nesting) && AllShallow(fields[1..], nesting) {
      forall i | 0 <= i < |fields| ensures Shallow(fields[i].value, nesting) {
        if i > 0 { assert fields[i] == fields[1..][i - 1]; }
      }
    }
  }

  lemma {:induction false} ParseFieldTokens(t: Tables, o: Options, fields: seq<Field>, depth: nat, nesting: nat, indent: nat, rest: seq<Token>)
    requires Lawful(t) && forall i :: 0 <= i < |fields| ==> LegalField(t, o, fields[i])
    ensures ParseFields(t, FieldsTokens(t, o, fields, depth) + (IndentTokens(indent) + ([RightBrace] + rest)), nesting)
         == Expect(AllShallow(fields, nesting), fields, rest)
    decreases fields, 0
  {
    hide Lawful, ParseParam, ValueTokens, Shallow, LegalField, FieldTokens;
    var close := IndentTokens(indent) + ([RightBrace] + rest);
    var ts := FieldsTokens(t, o, fields, depth) + close;
    SkipPastIndent(indent, [RightBrace] + rest);
    assert ([RightBrace] + rest)[1..] == rest;
    if fields == [] {
      assert ts == close;
    } else {
      var f, more := fields[0], FieldsTokens(t, o, fields[1..], depth) + close;
      FieldTokensFirst(t, o, fields, depth, close);
      ParseOneField(t, o, f, depth, nesting, more);
      AllShallowCons(fields, nesting);
      SkipPastIndent(0, more);
      NextFieldStart(t, o, fields[1..], depth, close);
      SkipTwice(more);
      ParseFieldsSkips(t, SkipWhitespace(more), more, nesting);
      ParseFieldTokens(t, o, fields[1..], depth, nesting, indent, rest);
      assert fields == [f] + fields[1..];
    }
  }

  /** Past the layout after a field there is no comma. */
  lemma NextFieldStart(t: Tables, o: Options, fields: seq<Field>, depth: nat, close: seq<Token>)
    requires !Kind(SkipWhitespace(close)).Comma?
    ensures !Kind(SkipWhitespace(FieldsTokens(t, o, fields, depth) + close)).Comma?
  {
    if fields == [] {
      assert FieldsTokens(t, o, fields, depth) + close == close;
    } else {
      FieldTokensFirst(t, o, fields, depth, close);
    }
  }

  lemma ParseParamsSkips(t: Tables, a: seq<Token>, b: seq<Token>)
    requires SkipWhitespace(a) == SkipWhitespace(b)
    ensures ParseParams(t, a) == ParseParams(t, b)
  {
    hide ParseParam;
  }

  lemma {:induction false} ParseParamTokens(t: Tables, o: Options, fields: seq<Field>)
    requires Lawful(t) && forall i :: 0 <= i < |fields| ==> LegalField(t, o, fields[i])
    ensures ParseParams(t, FieldsTokens(t, o, fields, 1) + [End, Eof]) == Expect(AllShallow(fields, 0), fields, [End, Eof])
    decreases fields
  {
    hide Lawful, ParseParam, ValueTokens, Shallow, LegalField, FieldTokens;
    var close := [End, Eof];
    var ts := FieldsTokens(t, o, fields, 1) + close;
    if fields == [] {
      assert ts == close;
    } else {
      var f, more := fields[0], FieldsTokens(t, o, fields[1..], 1) + close;
      FieldTokensFirst(t, o, fields, 1, close);
      ParseOneField(t, o, f, 1, 0, more);
      AllShallowCons(fields, 0);
      SkipPastIndent(0, more);
      ParseParamsSkips(t, [Newline] + more, more);
      ParseParamTokens(t, o, fields[1..]);
      assert fields == [f] + fields[1..];
    }
  }

  lemma ParseSpanTokens(t: Tables, o: Options, span: Span)
    requires Lawful(t) && LegalSpan(t, o, span)
    ensures Parse(t, SpanTokens(t, o, span)) == Expect(AllShallow(span.params, 0), span, [Eof])
  {
    hide Lawful, ParseParams, FieldsTokens, Cased, NeedsQuoting, LegalKey, LegalField, LegalName, AllShallow;
    var ts := SpanTokens(t, o, span);
    var body := FieldsTokens(t, o, span.params, 1) + [End, Eof];
    var afterColon := NameTokens(span.name) + ([Newline] + body);
    CasedKey(t, o, span.kind);
    assert ts[1..][0] == Colon && ts[2..] == afterColon;
    assert ParseName(t, afterColon) == (span.name, [Newline] + body) by {
      if span.name.Some? {
        assert afterColon[1..] == [Newline] + body;
      } else {
        assert afterColon == [Newline] + body;
      }
    }
    SkipPastIndent(0, body);
    ParseParamsSkips(t, [Newline] + body, body);
    ParseParamTokens(t, o, span.params);
    assert [End, Eof][1..] == [Eof];
  }

  /** `parse_logline` on text that is not blank: tokenize, then parse. */
  function ReadText(t: Tables, text: string): Outcome<Span> {
    match Lex(t, text, true)
    case None => Error(InvalidHeader)
    case Some(tokens) => Parse(t, tokens)
  }

  /**
    Printing and reading back returns the span itself, for either key case, any indentation of spaces and any
    texts legal under the options, exactly when nothing lies inside more than 32 containers; a deeper span is
    refused as nested too deep. It never hangs. With quoted strings every text is legal.
   */
  lemma RoundTrip(t: Tables, o: Options, span: Span)
    requires Lawful(t) && Spaced(o) && LegalSpan(t, o, span)
    ensures ReadText(t, Serialize(t, o, span)) == if AllShallow(span.params, 0) then Ok(span, [Eof]) else Error(NestingTooDeep)
  {
    hide Lex, Parse, Serialize, SpanTokens, LegalSpan, Lawful;
    LexSpan(t, o, span);
    ParseSpanTokens(t, o, span);
  }

  /** Every span with legal keys and name and no deeper nesting reads back, whatever its texts. */
  ghost predicate AllReadBack(t: Tables, o: Options) {
    forall span :: LegalSpan(t, o.(quote := true), span) && AllShallow(span.params, 0) ==>
                     ReadText(t, Serialize(t, o, span)) == Ok(span, [Eof])
  }

  /** So it is exactly when strings are quoted: otherwise the text "true" comes back as the boolean. */
  lemma AllReadBackExactlyWhenQuoted(t: Tables, o: Options)
    requires Lawful(t) && Spaced(o)
    ensures AllReadBack(t, o) <==> o.quote
  {
    hide Lex, Parse, Serialize, ReadText, Lawful;
    if o.quote {
      assert o.(quote := true) == o;
      forall span | LegalSpan(t, o, span) && AllShallow(span.params, 0)
        ensures ReadText(t, Serialize(t, o, span)) == Ok(span, [Eof])
      {
        RoundTrip(t, o, span);
      }
    } else {
      var a, b := Span("a", None, [Field("a", Str("true"))]), Span("a", None, [Field("a", Bool(true))]);
      UnquotedTextCollides(t, o, "a", "a");
      assert AsciiUpper("a") == "A" && LegalKey("a");
      assert LegalSpan(t, o.(quote := true), a) && LegalSpan(t, o.(quote := true), b);
      assert AllShallow(a.params, 0) && AllShallow(b.params, 0);
    }
  }
}
