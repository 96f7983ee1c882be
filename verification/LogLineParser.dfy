/** The recursive-descent parser of logline/src/parser.rs. */
module LogLineParser {
  import opened Prelude
  import opened LogLine

  const MAX_NESTING_DEPTH: nat := 32

  datatype ParseError = InvalidHeader | MissingEnd | NestingTooDeep | UnexpectedEof

  /**
    What a parsing step comes to. `Hangs` is the array loop of `parse_array` on a token that
    `parse_value` does not consume: the source then pushes empty strings for ever.
   */
  datatype Outcome<+T> = Ok(value: T, rest: seq<Token>) | Error(e: ParseError) | Hangs

  /** The current token; running off the end is treated as end of file everywhere. */
  function Kind(ts: seq<Token>): Token {
    if ts == [] then Eof else ts[0]
  }

  function Tail(ts: seq<Token>): seq<Token> {
    if ts == [] then [] else ts[1..]
  }

  function SkipWhitespace(ts: seq<Token>): (r: seq<Token>)
    ensures |r| <= |ts|
    ensures !Kind(r).Newline? && !Kind(r).Indent?
  {
    if Kind(ts).Newline? || Kind(ts).Indent? then SkipWhitespace(ts[1..]) else ts
  }

  function SkipComma(ts: seq<Token>): (r: seq<Token>)
    ensures |r| <= |ts|
  {
    if Kind(ts).Comma? then ts[1..] else ts
  }

  /** The words of a bare value, up to the end of the line or a delimiter. */
  function Words(t: Tables, ts: seq<Token>): (r: (seq<string>, seq<Token>))
    ensures |r.1| <= |ts|
  {
    match Kind(ts)
    case Newline => ([], ts)
    case End => ([], ts)
    case Eof => ([], ts)
    case LeftBrace => ([], ts)
    case LeftBracket => ([], ts)
    case RightBrace => ([], ts)
    case RightBracket => ([], ts)
    case Comma => ([], ts)
    case Indent(_) => Words(t, ts[1..])
    case _ =>
      var (ws, rest) := Words(t, ts[1..]);
      ([Word(t, ts[0])] + ws, rest)
  }

  function Word(t: Tables, token: Token): string {
    match token
    case Identifier(s) => s
    case Text(s) => s
    case Number(n) => t.show(n)
    case Boolean(b) => if b then "true" else "false"
    case _ => ":"
  }

  function Join(ws: seq<string>): string {
    if ws == [] then "" else if |ws| == 1 then ws[0] else ws[0] + " " + Join(ws[1..])
  }

  function ParseValue(t: Tables, ts: seq<Token>, depth: nat): (r: Outcome<Value>)
    ensures r.Ok? ==> |r.rest| <= |ts|
    decreases |ts|, 0
  {
    if depth > MAX_NESTING_DEPTH then Error(NestingTooDeep)
    else
      match Kind(ts)
      case Text(s) => Ok(Str(s), ts[1..])
      case Number(n) => Ok(Num(n), ts[1..])
      case Boolean(b) => Ok(Bool(b), ts[1..])
      case Identifier(_) =>
        var (ws, rest) := Words(t, ts);
        Ok(Str(Join(ws)), rest)
      case LeftBrace =>
        (match ParseFields(t, ts[1..], depth + 1)
         case Ok(fields, rest) => Ok(Object(fields), rest)
         case Error(e) => Error(e)
         case Hangs => Hangs)
      case LeftBracket =>
        (match ParseItems(t, ts[1..], depth + 1)
         case Ok(items, rest) => Ok(List(items), rest)
         case Error(e) => Error(e)
         case Hangs => Hangs)
      case _ => Ok(Str(""), ts)
  }

  /** `KEY: value`, or a bare key, which stands for true. */
  function ParseParam(t: Tables, ts: seq<Token>, depth: nat): (r: Outcome<Field>)
    requires Kind(ts).Identifier?
    ensures r.Ok? ==> |r.rest| < |ts|
    decreases |ts|, 0
  {
    var key := t.lower(ts[0].id);
    if !Kind(ts[1..]).Colon? then Ok(Field(key, Bool(true)), ts[1..])
    else
      match ParseValue(t, ts[2..], depth)
      case Ok(v, rest) => Ok(Field(key, v), rest)
      case Error(e) => Error(e)
      case Hangs => Hangs
  }

  /** The loop of `parse_object`. */
  function ParseFields(t: Tables, ts: seq<Token>, depth: nat): (r: Outcome<seq<Field>>)
    ensures r.Ok? ==> |r.rest| <= |ts|
    decreases |ts|, 1
  {
    var ts' := SkipWhitespace(ts);
    if Kind(ts').RightBrace? then Ok([], ts'[1..])
    else if Kind(ts').Eof? then Error(UnexpectedEof)
    else if Kind(ts').Identifier? then
      match ParseParam(t, ts', depth)
      case Error(e) => Error(e)
      case Hangs => Hangs
      case Ok(field, rest) => Cons(field, ParseFields(t, SkipComma(SkipWhitespace(rest)), depth))
    else ParseFields(t, ts'[1..], depth)
  }

  /** The loop of `parse_array`. */
  function ParseItems(t: Tables, ts: seq<Token>, depth: nat): (r: Outcome<seq<Value>>)
    ensures r.Ok? ==> |r.rest| <= |ts|
    decreases |ts|, 1
  {
    var ts' := SkipWhitespace(ts);
    if Kind(ts').RightBracket? then Ok([], ts'[1..])
    else if Kind(ts').Eof? then Error(UnexpectedEof)
    else
      match ParseValue(t, ts', depth)
      case Error(e) => Error(e)
      case Hangs => Hangs
      case Ok(v, rest) =>
        var next := SkipComma(SkipWhitespace(rest));
        if |next| < |ts'| then Cons(v, ParseItems(t, next, depth)) else Hangs
  }

  function Cons<T>(x: T, r: Outcome<seq<T>>): Outcome<seq<T>> {
    match r
    case Ok(xs, rest) => Ok([x] + xs, rest)
    case Error(e) => Error(e)
    case Hangs => Hangs
  }

  /** The loop of `parse_params`. */
  function ParseParams(t: Tables, ts: seq<Token>): (r: Outcome<seq<Field>>)
    ensures r.Ok? ==> |r.rest| <= |ts|
    decreases |ts|
  {
    var ts' := SkipWhitespace(ts);
    if Kind(ts').End? || Kind(ts').Eof? || Kind(ts').RightBrace? then Ok([], ts')
    else if Kind(ts').Identifier? then
      match ParseParam(t, ts', 0)
      case Error(e) => Error(e)
      case Hangs => Hangs
      case Ok(field, rest) => Cons(field, ParseParams(t, rest))
    else ParseParams(t, ts'[1..])
  }

  /** The optional name after the colon, and the tokens behind it. */
  function ParseName(t: Tables, ts: seq<Token>): (Option<string>, seq<Token>) {
    match Kind(ts)
    case Identifier(s) => (Some(s), ts[1..])
    case Text(s) => (Some(s), ts[1..])
    case Number(n) => (Some(t.show(n)), ts[1..])
    case _ => (None, ts)
  }

  /** `Parser::parse`. */
  function Parse(t: Tables, tokens: seq<Token>): Outcome<Span> {
    var ts := SkipWhitespace(tokens);
    if !Kind(ts).Identifier? || !Kind(ts[1..]).Colon? then Error(InvalidHeader)
    else
      var (name, rest) := ParseName(t, ts[2..]);
      match ParseParams(t, rest)
      case Error(e) => Error(e)
      case Hangs => Hangs
      case Ok(params, rest') =>
        var end := SkipWhitespace(rest');
        if Kind(end).End? then Ok(Span(t.lower(ts[0].id), name, params), end[1..]) else Error(MissingEnd)
  }

  // ---------------------------------------------------------------- when the parser hangs

  /** A token that the array loop can neither take as a value nor step over. */
  predicate Stuck(token: Token) {
    token.Colon? || token.End? || token.RightBrace?
  }

  /** Where a round of the array loop leaves the parser, if it reads a value. */
  function AfterItem(t: Tables, ts: seq<Token>, depth: nat): seq<Token> {
    match ParseValue(t, ts, depth)
    case Ok(_, rest) => SkipComma(SkipWhitespace(rest))
    case _ => []
  }

  /** A round that reads a value makes no headway exactly at a colon, END or a closing brace. */
  lemma ArrayStallsExactlyWhenStuck(t: Tables, ts: seq<Token>, depth: nat)
    requires ts != [] && SkipWhitespace(ts) == ts && !ts[0].Eof? && !ts[0].RightBracket?
    requires ParseValue(t, ts, depth).Ok?
    ensures |AfterItem(t, ts, depth)| == |ts| <==> Stuck(ts[0])
    ensures Stuck(ts[0]) ==> ParseItems(t, ts, depth) == Hangs
  {
  }

  // ---------------------------------------------------------------- the stateful parser

  class Parser {
    const t: Tables
    const tokens: seq<Token>
    var position: nat
    var depth: nat

    ghost predicate Valid() reads this { position <= |tokens| }

    ghost function Rest(): seq<Token>
      requires Valid()
      reads this
    {
      tokens[position..]
    }

    constructor (tables: Tables, stream: seq<Token>)
      ensures Valid() && t == tables && tokens == stream && Rest() == stream && depth == 0
    {
      t := tables;
      tokens := stream;
      position := 0;
      depth := 0;
    }

    function Current(): (k: Token)
      requires Valid()
      reads this
      ensures k == Kind(Rest())
    {
      if position < |tokens| then tokens[position] else Eof
    }

    method Advance()
      requires Valid()
      modifies `position
      ensures Valid() && Rest() == Tail(old(Rest())) && position >= old(position)
    {
      if position < |tokens| { position := position + 1; }
    }

    method SkipLayout()
      requires Valid()
      modifies `position
      ensures Valid() && Rest() == SkipWhitespace(old(Rest())) && position >= old(position)
    {
      while Current().Newline? || Current().Indent?
        invariant Valid() && SkipWhitespace(Rest()) == SkipWhitespace(old(Rest())) && position >= old(position)
        decreases |tokens| - position
      {
        Advance();
      }
    }

    method SkipOptionalComma()
      requires Valid()
      modifies `position
      ensures Valid() && Rest() == SkipComma(SkipWhitespace(old(Rest()))) && position >= old(position)
    {
      SkipLayout();
      if Current().Comma? { Advance(); }
    }

    /** Collects the words of a bare value. */
    method CollectWords() returns (parts: seq<string>)
      requires Valid()
      modifies `position
      ensures Valid() && (parts, Rest()) == Words(t, old(Rest())) && position >= old(position)
    {
      parts := [];
      ghost var all := Words(t, Rest());
      assert [] + all.0 == all.0;
      while true
        invariant Valid() && position >= old(position)
        invariant all == (parts + Words(t, Rest()).0, Words(t, Rest()).1)
        decreases |tokens| - position
      {
        var k := Current();
        match k {
          case Newline => break;
          case End => break;
          case Eof => break;
          case LeftBrace => break;
          case LeftBracket => break;
          case RightBrace => break;
          case RightBracket => break;
          case Comma => break;
          case Indent(_) => Advance();
          case _ =>
            assert parts + ([Word(t, k)] + Words(t, Rest()[1..]).0) == parts + [Word(t, k)] + Words(t, Rest()[1..]).0;
            parts := parts + [Word(t, k)];
            Advance();
        }
      }
      assert parts + [] == parts;
    }

    /** The outcome of a step, as the values it returns and where it leaves the parser. */
    ghost predicate Reports<T(!new)>(expected: Outcome<T>, got: Outcome<T>, depthBefore: nat)
      requires Valid()
      reads this
    {
      match expected
      case Ok(v, rest) => got == Ok(v, rest) && Rest() == rest && depth == depthBefore
      case Error(e) => got == Error(e)
      case Hangs => got == Hangs
    }

    method ParseValueAt() returns (r: Outcome<Value>)
      requires Valid()
      modifies this
      ensures Valid() && position >= old(position)
      ensures Reports(ParseValue(t, old(Rest()), old(depth)), r, old(depth))
      decreases |tokens| - position, 1
    {
      hide ParseFields, ParseItems, Words;
      if depth > MAX_NESTING_DEPTH { return Error(NestingTooDeep); }
      match Current()
      case Text(s) =>
        Advance();
        return Ok(Str(s), tokens[position..]);
      case Number(n) =>
        Advance();
        return Ok(Num(n), tokens[position..]);
      case Boolean(b) =>
        Advance();
        return Ok(Bool(b), tokens[position..]);
      case Identifier(_) =>
        var parts := CollectWords();
        return Ok(Str(Join(parts)), tokens[position..]);
      case LeftBrace =>
        depth := depth + 1;
        var fields := ParseObjectAt();
        if fields.Ok? {
          depth := depth - 1;
          return Ok(Object(fields.value), fields.rest);
        }
        return if fields.Error? then Error(fields.e) else Hangs;
      case LeftBracket =>
        depth := depth + 1;
        var items := ParseArrayAt();
        if items.Ok? {
          depth := depth - 1;
          return Ok(List(items.value), items.rest);
        }
        return if items.Error? then Error(items.e) else Hangs;
      case _ => return Ok(Str(""), tokens[position..]);
    }

    method ParseParamAt() returns (r: Outcome<Field>)
      requires Valid() && Kind(Rest()).Identifier?
      modifies this
      ensures Valid() && position > old(position)
      ensures Reports(ParseParam(t, old(Rest()), old(depth)), r, old(depth))
      decreases |tokens| - position, 0
    {
      hide ParseValue;
      ghost var here := Rest();
      var key := t.lower(Current().id);
      Advance();
      if !Current().Colon? { return Ok(Field(key, Bool(true)), tokens[position..]); }
      Advance();
      assert Rest() == here[2..];
      var value := ParseValueAt();
      match value
      case Ok(v, rest) => return Ok(Field(key, v), rest);
      case Error(e) => return Error(e);
      case Hangs => return Hangs;
    }

    method ParseObjectAt() returns (r: Outcome<seq<Field>>)
      requires Valid() && Kind(Rest()).LeftBrace?
      modifies this
      ensures Valid() && position > old(position)
      ensures Reports(ParseFields(t, old(Rest())[1..], old(depth)), r, old(depth))
      decreases |tokens| - position, 0
    {
      hide ParseParam;
      Advance();
      var fields: seq<Field> := [];
      ghost var all := ParseFields(t, Rest(), depth);
      ConsNone(all);
      while true
        invariant Valid() && position > old(position) && depth == old(depth)
        invariant all == ConsAll(fields, ParseFields(t, Rest(), depth))
        decreases |tokens| - position
      {
        SkipLayout();
        if Current().RightBrace? {
          Advance();
          assert fields + [] == fields;
          return Ok(fields, tokens[position..]);
        }
        if Current().Eof? { return Error(UnexpectedEof); }
        if !Current().Identifier? {
          Advance();
          continue;
        }
        var param := ParseParamAt();
        if param.Error? { return Error(param.e); }
        if param.Hangs? { return Hangs; }
        SkipOptionalComma();
        ConsOne(fields, param.value, ParseFields(t, Rest(), depth));
        fields := fields + [param.value];
      }
    }

    method ParseArrayAt() returns (r: Outcome<seq<Value>>)
      requires Valid() && Kind(Rest()).LeftBracket?
      modifies this
      ensures Valid() && position > old(position)
      ensures Reports(ParseItems(t, old(Rest())[1..], old(depth)), r, old(depth))
      decreases |tokens| - position, 0
    {
      hide ParseValue, SkipWhitespace, SkipComma;
      Advance();
      var items: seq<Value> := [];
      ghost var all := ParseItems(t, Rest(), depth);
      ConsNone(all);
      while true
        invariant Valid() && position > old(position) && depth == old(depth)
        invariant all == ConsAll(items, ParseItems(t, Rest(), depth))
        decreases |tokens| - position
      {
        SkipLayout();
        if Current().RightBracket? {
          Advance();
          assert items + [] == items;
          return Ok(items, tokens[position..]);
        }
        if Current().Eof? { return Error(UnexpectedEof); }
        var before := position;
        var value := ParseValueAt();
        if value.Error? { return Error(value.e); }
        if value.Hangs? { return Hangs; }
        SkipOptionalComma();
        if position == before { return Hangs; } // the source goes round for ever here
        ConsOne(items, value.value, ParseItems(t, Rest(), depth));
        items := items + [value.value];
      }
    }

    method ParseParamsAt() returns (r: Outcome<seq<Field>>)
      requires Valid() && depth == 0
      modifies this
      ensures Valid()
      ensures Reports(ParseParams(t, old(Rest())), r, 0)
    {
      hide ParseParam, SkipWhitespace;
      var params: seq<Field> := [];
      ghost var all := ParseParams(t, Rest());
      ConsNone(all);
      while true
        invariant Valid() && depth == 0
        invariant all == ConsAll(params, ParseParams(t, Rest()))
        decreases |tokens| - position
      {
        SkipLayout();
        if Current().End? || Current().Eof? || Current().RightBrace? { break; }
        if !Current().Identifier? {
          Advance();
          continue;
        }
        var param := ParseParamAt();
        if param.Error? { return Error(param.e); }
        if param.Hangs? { return Hangs; }
        ConsOne(params, param.value, ParseParams(t, Rest()));
        params := params + [param.value];
      }
      assert params + [] == params;
      return Ok(params, tokens[position..]);
    }

    method ParseOptionalName() returns (name: Option<string>)
      requires Valid()
      modifies `position
      ensures Valid() && (name, Rest()) == ParseName(t, old(Rest()))
    {
      name := None;
      if Current().Identifier? {
        name := Some(Current().id);
        Advance();
      } else if Current().Text? {
        name := Some(Current().s);
        Advance();
      } else if Current().Number? {
        name := Some(t.show(Current().n));
        Advance();
      }
    }

    method ParseDocument() returns (r: Outcome<Span>)
      requires Valid() && position == 0 && depth == 0
      modifies this
      ensures r == Parse(t, tokens)
    {
      hide ParseParams, SkipWhitespace, ParseName;
      assert tokens[0..] == tokens;
      SkipLayout();
      if !Current().Identifier? { return Error(InvalidHeader); }
      ghost var header := Rest();
      var kind := t.lower(Current().id);
      Advance();
      if !Current().Colon? { return Error(InvalidHeader); }
      Advance();
      assert Rest() == header[2..];
      var name := ParseOptionalName();
      var params := ParseParamsAt();
      if params.Error? { return Error(params.e); }
      if params.Hangs? { return Hangs; }
      SkipLayout();
      if !Current().End? { return Error(MissingEnd); }
      Advance();
      return Ok(Span(kind, name, params.value), tokens[position..]);
    }
  }

  // ---------------------------------------------------------------- accumulating a loop's results

  ghost function ConsAll<T>(done: seq<T>, r: Outcome<seq<T>>): Outcome<seq<T>> {
    match r
    case Ok(xs, rest) => Ok(done + xs, rest)
    case Error(e) => Error(e)
    case Hangs => Hangs
  }

  lemma ConsNone<T>(r: Outcome<seq<T>>)
    ensures r == ConsAll([], r)
  {
    if r.Ok? { assert [] + r.value == r.value; }
  }

  lemma ConsOne<T>(done: seq<T>, x: T, r: Outcome<seq<T>>)
    ensures ConsAll(done, Cons(x, r)) == ConsAll(done + [x], r)
  {
    if r.Ok? { assert done + ([x] + r.value) == done + [x] + r.value; }
  }
}
