/** The tokenizer of logline/src/tokenizer.rs. */
module LogLineLexer {
  import opened Prelude
  import opened LogLine

  // ---------------------------------------------------------------- reading off the front

  predicate BlankChar(c: char) {
    c == ' ' || c == '\t' || c == '\r'
  }

  function SkipBlank(s: string): (r: string)
    ensures |r| <= |s|
  {
    if s != "" && BlankChar(s[0]) then SkipBlank(s[1..]) else s
  }

  /** The indentation width, a tab counting four, and the text after it. */
  function CountIndent(s: string): (r: (nat, string))
    ensures |r.1| <= |s| && (r.0 > 0 ==> |r.1| < |s|) && (r.0 == 0 ==> r.1 == s)
  {
    if s != "" && s[0] == ' ' then
      var (n, rest) := CountIndent(s[1..]);
      (n + 1, rest)
    else if s != "" && s[0] == '\t' then
      var (n, rest) := CountIndent(s[1..]);
      (n + 4, rest)
    else (0, s)
  }

  /** The tabs in the indentation at the front of a text. */
  function LeadingTabs(s: string): nat {
    if s != "" && s[0] == ' ' then LeadingTabs(s[1..])
    else if s != "" && s[0] == '\t' then 1 + LeadingTabs(s[1..])
    else 0
  }

  lemma {:induction false} IndentWidth(s: string)
    ensures CountIndent(s).0 == (|s| - |CountIndent(s).1|) + 3 * LeadingTabs(s)
  {
    if s != "" && (s[0] == ' ' || s[0] == '\t') { IndentWidth(s[1..]); }
  }

  /**
    The token position `position - indent` drops below zero, which overflows the unsigned subtraction,
    exactly when the line has more than a third as many tabs in front as the text has characters before it.
   */
  lemma IndentPositionUnderflowsExactly(lineStart: nat, s: string)
    ensures var (indent, rest) := CountIndent(s);
            var position := lineStart + (|s| - |rest|);
            position < indent <==> lineStart < 3 * LeadingTabs(s)
  {
    IndentWidth(s);
  }

  function ReadIdent(t: Tables, s: string): (r: (string, string))
    ensures s == r.0 + r.1
  {
    if s != "" && IdentChar(t, s[0]) then
      var (id, rest) := ReadIdent(t, s[1..]);
      ([s[0]] + id, rest)
    else ("", s)
  }

  function ReadDigits(t: Tables, s: string, hasDot: bool): (r: (string, string))
    ensures s == r.0 + r.1
  {
    if s != "" && t.numeric(s[0]) then
      var (d, rest) := ReadDigits(t, s[1..], hasDot);
      ([s[0]] + d, rest)
    else if |s| >= 2 && s[0] == '.' && !hasDot && t.numeric(s[1]) then
      var (d, rest) := ReadDigits(t, s[1..], true);
      (['.'] + d, rest)
    else ("", s)
  }

  function ReadNumber(t: Tables, s: string): (r: (string, string))
    ensures s == r.0 + r.1
  {
    if s != "" && s[0] == '-' then
      var (d, rest) := ReadDigits(t, s[1..], false);
      ("-" + d, rest)
    else ReadDigits(t, s, false)
  }

  ghost predicate AllNumeric(t: Tables, s: string) {
    forall i :: 0 <= i < |s| ==> t.numeric(s[i])
  }

  /** What cannot go on a number that has had its point already, or has not. */
  ghost predicate EndsNumber(t: Tables, rest: string, hadPoint: bool) {
    && (rest == "" || !t.numeric(rest[0]))
    && (hadPoint || |rest| < 2 || rest[0] != '.' || !t.numeric(rest[1]))
  }

  lemma {:induction false} DigitsEnd(t: Tables, d: string, rest: string, hasDot: bool)
    requires AllNumeric(t, d) && EndsNumber(t, rest, hasDot)
    ensures ReadDigits(t, d + rest, hasDot) == (d, rest)
  {
    if d == "" {
      assert d + rest == rest;
    } else {
      assert (d + rest)[1..] == d[1..] + rest;
      DigitsEnd(t, d[1..], rest, hasDot);
      assert d == [d[0]] + d[1..];
    }
  }

  lemma {:induction false} PointGoesOn(t: Tables, d: string, fraction: string, rest: string)
    requires Lawful(t) && AllNumeric(t, d) && AllNumeric(t, fraction) && fraction != "" && EndsNumber(t, rest, true)
    ensures ReadDigits(t, d + ("." + (fraction + rest)), false) == (d + ("." + fraction), rest)
  {
    hide Lawful;
    var s := d + ("." + (fraction + rest));
    if d == "" {
      assert s == "." + (fraction + rest) && s[1..] == fraction + rest && s[1] == fraction[0];
      assert !t.numeric('.') by { PointIsNoDigit(t); }
      DigitsEnd(t, fraction, rest, true);
      assert "" + ("." + fraction) == ['.'] + fraction;
    } else {
      assert s[1..] == d[1..] + ("." + (fraction + rest));
      PointGoesOn(t, d[1..], fraction, rest);
      assert d + ("." + fraction) == [d[0]] + (d[1..] + ("." + fraction));
    }
  }

  lemma PointIsNoDigit(t: Tables)
    requires Lawful(t)
    ensures !t.numeric('.') && !t.numeric('-')
  {
  }

  /** A number's text is a minus or not, digits, and one point if a digit is behind it; it ends where that does. */
  lemma NumberTextEnds(t: Tables, sign: string, whole: string, fraction: string, rest: string)
    requires Lawful(t) && (sign == "" || sign == "-") && whole != "" && AllNumeric(t, whole) && AllNumeric(t, fraction)
    ensures EndsNumber(t, rest, false) ==> ReadNumber(t, sign + (whole + rest)) == (sign + whole, rest)
    ensures fraction != "" && EndsNumber(t, rest, true) ==>
              ReadNumber(t, sign + (whole + ("." + (fraction + rest)))) == (sign + (whole + ("." + fraction)), rest)
  {
    hide Lawful, ReadDigits, EndsNumber;
    PointIsNoDigit(t);
    if EndsNumber(t, rest, false) {
      DigitsEnd(t, whole, rest, false);
      SignComesFirst(t, sign, whole, rest);
    }
    if fraction != "" && EndsNumber(t, rest, true) {
      PointGoesOn(t, whole, fraction, rest);
      SignComesFirst(t, sign, whole, "." + (fraction + rest));
    }
  }

  lemma SignComesFirst(t: Tables, sign: string, whole: string, rest: string)
    requires (sign == "" || sign == "-") && whole != "" && t.numeric(whole[0]) && !t.numeric('-')
    ensures var r := ReadDigits(t, whole + rest, false); ReadNumber(t, sign + (whole + rest)) == (sign + r.0, r.1)
  {
    hide ReadDigits;
    var s := sign + (whole + rest);
    if sign == "-" {
      assert s[0] == '-' && s[1..] == whole + rest;
    } else {
      assert s == whole + rest && s[0] == whole[0];
      var r := ReadDigits(t, whole + rest, false);
      assert "" + r.0 == r.0;
    }
  }

  function Unescape(c: char): Option<char> {
    if c == 'n' then Some('\n') else if c == 't' then Some('\t') else if c == 'r' then Some('\r')
    else if c == '"' then Some('"') else if c == '\\' then Some('\\') else None
  }

  /** The rest of a quoted string, from behind its opening quote. */
  function ReadString(s: string): (r: Option<(string, string)>)
    ensures r.Some? ==> |r.value.1| < |s|
  {
    if s == "" || s[0] == '\n' then None
    else if s[0] == '"' then Some(("", s[1..]))
    else if s[0] == '\\' then
      if |s| == 1 || Unescape(s[1]) == None then None
      else
        match ReadString(s[2..])
        case None => None
        case Some((body, rest)) => Some(([Unescape(s[1]).value] + body, rest))
    else
      match ReadString(s[1..])
      case None => None
      case Some((body, rest)) => Some(([s[0]] + body, rest))
  }

  predicate Delimiter(c: char) {
    c == '\n' || c == '{' || c == '}' || c == '[' || c == ']' || c == ','
  }

  function ReadUnquoted(s: string): (r: (string, string))
    ensures s == r.0 + r.1
  {
    if s != "" && !Delimiter(s[0]) then
      var (v, rest) := ReadUnquoted(s[1..]);
      ([s[0]] + v, rest)
    else ("", s)
  }

  function TrimStart(t: Tables, s: string): string {
    if s != "" && t.whitespace(s[0]) then TrimStart(t, s[1..]) else s
  }

  function TrimEnd(t: Tables, s: string): string {
    if s != "" && t.whitespace(s[|s| - 1]) then TrimEnd(t, s[..|s| - 1]) else s
  }

  // ---------------------------------------------------------------- tokens

  /** A token, the text after it, and whether that text is at the start of a line. */
  datatype Step = Step(token: Token, rest: string, lineStart: bool)

  function Punctuation(c: char): Option<Token> {
    if c == ':' then Some(Colon) else if c == '{' then Some(LeftBrace) else if c == '}' then Some(RightBrace)
    else if c == '[' then Some(LeftBracket) else if c == ']' then Some(RightBracket) else if c == ',' then Some(Comma)
    else None
  }

  function Keyword(t: Tables, id: string): Token {
    var up := t.upper(id);
    if up == "END" then End else if up == "TRUE" then Boolean(true) else if up == "FALSE" then Boolean(false)
    else Identifier(id)
  }

  predicate StartsNumber(t: Tables, s: string)
    requires s != ""
  {
    t.numeric(s[0]) || (s[0] == '-' && |s| >= 2 && t.numeric(s[1]))
  }

  /** A token that is neither layout nor punctuation. */
  function WordToken(t: Tables, s: string): (r: Option<Step>)
    requires s != "" && s[0] != '\n' && Punctuation(s[0]) == None
    ensures r.Some? ==> |r.value.rest| < |s| && !r.value.lineStart
  {
    if s[0] == '"' then
      match ReadString(s[1..])
      case None => None
      case Some((v, rest)) => Some(Step(Text(v), rest, false))
    else if StartsNumber(t, s) then
      var (digits, rest) := ReadNumber(t, s);
      assert digits != "";
      match t.number(digits)
      case None => None
      case Some(n) => Some(Step(Number(n), rest, false))
    else if t.alphabetic(s[0]) || s[0] == '_' then
      var (id, rest) := ReadIdent(t, s);
      assert id != "";
      Some(Step(Keyword(t, id), rest, false))
    else
      var (raw, rest) := ReadUnquoted(s);
      assert raw != "";
      var value := TrimEnd(t, TrimStart(t, raw));
      if value == "" then None else Some(Step(Text(value), rest, false))
  }

  /** The token at the front once layout has been passed. */
  function PlainToken(t: Tables, s: string, lineStart: bool): (r: Option<Step>)
    ensures r.Some? && !r.value.token.Eof? ==> |r.value.rest| < |s|
  {
    var s' := SkipBlank(s);
    if s' == "" then Some(Step(Eof, "", lineStart))
    else if s'[0] == '\n' then Some(Step(Newline, s'[1..], true))
    else if Punctuation(s'[0]).Some? then Some(Step(Punctuation(s'[0]).value, s'[1..], false))
    else WordToken(t, s')
  }

  /** `next_token`. */
  function NextToken(t: Tables, s: string, lineStart: bool): (r: Option<Step>)
    ensures r.Some? && !r.value.token.Eof? ==> |r.value.rest| < |s|
  {
    if !lineStart then PlainToken(t, s, false)
    else
      var (indent, rest) := CountIndent(s);
      if rest != "" && rest[0] != '\n' then
        if indent > 0 then Some(Step(Indent(indent), rest, false)) else PlainToken(t, rest, false)
      else PlainToken(t, rest, true)
  }

  /** `tokenize`, from text that is or is not at the start of a line. */
  function Lex(t: Tables, s: string, lineStart: bool): Option<seq<Token>>
    decreases |s|
  {
    match NextToken(t, s, lineStart)
    case None => None
    case Some(Step(token, rest, next)) =>
      if token.Eof? then Some([Eof])
      else
        match Lex(t, rest, next)
        case None => None
        case Some(tokens) => Some([token] + tokens)
  }

  // ---------------------------------------------------------------- the stateful tokenizer

  /** What has been read in front of what will be. */
  ghost function Glue(done: string, r: (string, string)): (string, string) {
    (done + r.0, r.1)
  }

  lemma GlueNothing(r: (string, string))
    ensures Glue("", r) == r && Glue(r.0, ("", r.1)) == r
  {
    assert "" + r.0 == r.0 && r.0 + "" == r.0;
  }

  lemma GlueChar(done: string, c: char, r: (string, string))
    ensures Glue(done, ([c] + r.0, r.1)) == Glue(done + [c], r)
  {
    assert done + ([c] + r.0) == done + [c] + r.0;
  }

  lemma StringStart(s: string)
    ensures ReadString(s) == GlueSome("", ReadString(s))
  {
    if ReadString(s).Some? { GlueNothing(ReadString(s).value); }
  }

  lemma StringStep(done: string, c: char, r: Option<(string, string)>)
    ensures GlueSome(done, match r case None => None case Some((v, rest)) => Some(([c] + v, rest))) == GlueSome(done + [c], r)
  {
    if r.Some? { GlueChar(done, c, r.value); }
  }

  ghost function GlueSome(done: string, r: Option<(string, string)>): Option<(string, string)> {
    match r
    case None => None
    case Some(p) => Some(Glue(done, p))
  }

  class Tokenizer {
    const t: Tables
    const input: string
    var position: nat
    var atLineStart: bool

    ghost predicate Valid() reads this { position <= |input| }

    ghost function Rest(): string
      requires Valid()
      reads this
    {
      input[position..]
    }

    constructor (tables: Tables, text: string)
      ensures Valid() && t == tables && input == text && Rest() == text && atLineStart
    {
      t := tables;
      input := text;
      position := 0;
      atLineStart := true;
    }

    /** One character on; a newline starts a line, other white space keeps its state, the rest leaves it. */
    method Advance()
      requires Valid() && Rest() != ""
      modifies this
      ensures Valid() && Rest() == old(Rest())[1..]
      ensures atLineStart == (old(Rest())[0] == '\n' || (old(atLineStart) && t.whitespace(old(Rest())[0])))
    {
      var ch := input[position];
      position := position + 1;
      if ch == '\n' {
        atLineStart := true;
      } else if !t.whitespace(ch) {
        atLineStart := false;
      }
    }

    method SkipWhitespaceExceptNewline()
      requires Valid() && SaneTables(t)
      modifies this
      ensures Valid() && Rest() == SkipBlank(old(Rest()))
      ensures atLineStart == old(atLineStart)
    {
      while position < |input| && BlankChar(input[position])
        invariant Valid() && SkipBlank(Rest()) == SkipBlank(old(Rest()))
        invariant atLineStart == old(atLineStart)
        decreases |input| - position
      {
        Advance();
      }
    }

    method CountIndentation() returns (indent: nat)
      requires Valid() && SaneTables(t)
      modifies this
      ensures Valid() && (indent, Rest()) == CountIndent(old(Rest()))
      ensures atLineStart == old(atLineStart)
    {
      indent := 0;
      while position < |input| && (input[position] == ' ' || input[position] == '\t')
        invariant Valid()
        invariant CountIndent(old(Rest())) == (indent + CountIndent(Rest()).0, CountIndent(Rest()).1)
        invariant atLineStart == old(atLineStart)
        decreases |input| - position
      {
        indent := indent + if input[position] == ' ' then 1 else 4;
        Advance();
      }
    }

    method ReadIdentifier() returns (result: string)
      requires Valid() && SaneTables(t)
      modifies this
      ensures Valid() && (result, Rest()) == ReadIdent(t, old(Rest()))
      ensures !old(atLineStart) ==> !atLineStart
    {
      result := "";
      GlueNothing(ReadIdent(t, Rest()));
      while position < |input| && IdentChar(t, input[position])
        invariant Valid()
        invariant !old(atLineStart) ==> !atLineStart
        invariant ReadIdent(t, old(Rest())) == Glue(result, ReadIdent(t, Rest()))
        decreases |input| - position
      {
        GlueChar(result, input[position], ReadIdent(t, Rest()[1..]));
        result := result + [input[position]];
        Advance();
      }
      GlueNothing((result, Rest()));
    }

    method ReadNumberText() returns (result: string)
      requires Valid() && SaneTables(t)
      modifies this
      ensures Valid() && (result, Rest()) == ReadNumber(t, old(Rest()))
      ensures !old(atLineStart) ==> !atLineStart
    {
      result := "";
      var hasDot := false;
      if position < |input| && input[position] == '-' {
        result := "-";
        Advance();
      }
      GlueNothing(ReadDigits(t, Rest(), false));
      while true
        invariant Valid()
        invariant !old(atLineStart) ==> !atLineStart
        invariant ReadNumber(t, old(Rest())) == Glue(result, ReadDigits(t, Rest(), hasDot))
        decreases |input| - position
      {
        if position < |input| && t.numeric(input[position]) {
          GlueChar(result, input[position], ReadDigits(t, Rest()[1..], hasDot));
          result := result + [input[position]];
          Advance();
        } else if position + 1 < |input| && input[position] == '.' && !hasDot && t.numeric(input[position + 1]) {
          GlueChar(result, '.', ReadDigits(t, Rest()[1..], true));
          hasDot := true;
          result := result + ['.'];
          Advance();
        } else {
          break;
        }
      }
      GlueNothing((result, Rest()));
    }

    method ReadQuoted() returns (result: Option<string>)
      requires Valid() && Rest() != "" && Rest()[0] == '"'
      modifies this
      ensures Valid()
      ensures match ReadString(old(Rest())[1..])
              case None => result == None
              case Some((v, rest)) => result == Some(v) && Rest() == rest
      ensures !old(atLineStart) && result.Some? ==> !atLineStart
    {
      var body := "";
      Advance();
      ghost var start := Rest();
      StringStart(start);
      while position < |input|
        invariant Valid()
        invariant !old(atLineStart) ==> !atLineStart
        invariant ReadString(start) == GlueSome(body, ReadString(Rest()))
        decreases |input| - position
      {
        var ch := input[position];
        if ch == '"' {
          GlueNothing((body, Rest()[1..]));
          Advance();
          return Some(body);
        } else if ch == '\\' {
          ghost var here := Rest();
          Advance();
          if position >= |input| || Unescape(input[position]) == None { return None; }
          StringStep(body, Unescape(input[position]).value, ReadString(here[2..]));
          body := body + [Unescape(input[position]).value];
          Advance();
          assert Rest() == here[2..];
        } else if ch == '\n' {
          return None;
        } else {
          StringStep(body, ch, ReadString(Rest()[1..]));
          body := body + [ch];
          Advance();
        }
      }
      return None;
    }

    method ReadUnquotedValue() returns (result: string)
      requires Valid()
      modifies this
      ensures Valid()
      ensures Rest() == ReadUnquoted(old(Rest())).1
      ensures result == TrimEnd(t, TrimStart(t, ReadUnquoted(old(Rest())).0))
      ensures !old(atLineStart) ==> !atLineStart
    {
      var raw := "";
      GlueNothing(ReadUnquoted(Rest()));
      while position < |input| && !Delimiter(input[position])
        invariant Valid()
        invariant !old(atLineStart) ==> !atLineStart
        invariant ReadUnquoted(old(Rest())) == Glue(raw, ReadUnquoted(Rest()))
        decreases |input| - position
      {
        GlueChar(raw, input[position], ReadUnquoted(Rest()[1..]));
        raw := raw + [input[position]];
        Advance();
      }
      GlueNothing((raw, Rest()));
      result := TrimEnd(t, TrimStart(t, raw));
    }

    method NextTokenAt() returns (r: Option<Token>)
      requires Valid() && SaneTables(t)
      modifies this
      ensures Valid()
      ensures match NextToken(t, old(Rest()), old(atLineStart))
              case None => r == None
              case Some(step) => r == Some(step.token) && Rest() == step.rest && (atLineStart == step.lineStart)
    {
      if atLineStart {
        var indent := CountIndentation();
        if position < |input| && input[position] != '\n' {
          atLineStart := false;
          if indent > 0 { return Some(Indent(indent)); }
        }
      }
      r := ReadPlainToken();
    }

    method ReadPlainToken() returns (r: Option<Token>)
      requires Valid() && SaneTables(t)
      requires atLineStart ==> Rest() == "" || Rest()[0] == '\n'
      modifies this
      ensures Valid()
      ensures match PlainToken(t, old(Rest()), old(atLineStart))
              case None => r == None
              case Some(step) => r == Some(step.token) && Rest() == step.rest && (atLineStart == step.lineStart)
    {
      hide ReadString, ReadNumber, ReadIdent, ReadUnquoted, TrimEnd, TrimStart, Keyword;
      SkipWhitespaceExceptNewline();
      if position == |input| { return Some(Eof); }
      var ch := input[position];
      if ch == '\n' {
        Advance();
        return Some(Newline);
      }
      if Punctuation(ch).Some? {
        Advance();
        return Punctuation(ch);
      }
      r := ReadWord();
    }

    method ReadWord() returns (r: Option<Token>)
      requires Valid() && SaneTables(t) && !atLineStart && Rest() != "" && Rest()[0] != '\n' && Punctuation(Rest()[0]) == None
      modifies this
      ensures Valid()
      ensures match WordToken(t, old(Rest()))
              case None => r == None
              case Some(step) => r == Some(step.token) && Rest() == step.rest && (atLineStart == step.lineStart)
    {
      var ch := input[position];
      if ch == '"' {
        var v := ReadQuoted();
        if v == None { return None; }
        return Some(Text(v.value));
      }
      if t.numeric(ch) || (ch == '-' && position + 1 < |input| && t.numeric(input[position + 1])) {
        var digits := ReadNumberText();
        var n := t.number(digits);
        if n == None { return None; }
        return Some(Number(n.value));
      }
      if t.alphabetic(ch) || ch == '_' {
        var id := ReadIdentifier();
        return Some(Keyword(t, id));
      }
      var value := ReadUnquotedValue();
      if value == "" { return None; }
      return Some(Text(value));
    }

    method Tokenize() returns (r: Option<seq<Token>>)
      requires Valid() && SaneTables(t)
      modifies this
      ensures r == Lex(t, old(Rest()), old(atLineStart))
    {
      hide NextToken;
      var tokens: seq<Token> := [];
      ghost var all := Lex(t, Rest(), atLineStart);
      LexStart(all);
      while true
        invariant Valid() && all == LexAfter(tokens, Lex(t, Rest(), atLineStart))
        decreases |input| - position
      {
        ghost var s, bol := Rest(), atLineStart;
        var token := NextTokenAt();
        if token == None { return None; }
        LexAfterStep(tokens, token.value, Lex(t, Rest(), atLineStart));
        tokens := tokens + [token.value];
        if token.value.Eof? { break; }
      }
      return Some(tokens);
    }
  }

  ghost function LexAfter(done: seq<Token>, r: Option<seq<Token>>): Option<seq<Token>> {
    match r
    case None => None
    case Some(tokens) => Some(done + tokens)
  }

  lemma LexStart(r: Option<seq<Token>>)
    ensures r == LexAfter([], r)
  {
    if r.Some? { assert [] + r.value == r.value; }
  }

  lemma LexAfterStep(done: seq<Token>, token: Token, r: Option<seq<Token>>)
    ensures LexAfter(done, LexAfter([token], r)) == LexAfter(done + [token], r)
  {
    if r.Some? { assert done + ([token] + r.value) == done + [token] + r.value; }
  }

  /** The blanks are white space, and a newline is no letter and no number. */
  ghost predicate SaneTables(t: Tables) {
    t.whitespace(' ') && t.whitespace('\t') && t.whitespace('\r') && !t.alphabetic('\n') && !t.numeric('\n')
  }
}
