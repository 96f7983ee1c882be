/** When the LogLine parser never returns. */
module LogLineHangs {
  import opened Prelude
  import opened LogLine
  import opened LogLineLexer
  import opened LogLineParser
  import opened LogLinePrinter
  import opened LogLineRoundTrip

  // ---------------------------------------------------------------- a scan that builds no values

  /** The containers that are open, innermost first. */
  datatype Place = Outside | InArray(outer: Place) | InObject(outer: Place)

  function Depth(p: Place): nat {
    match p
    case Outside => 0
    case InArray(outer) => Depth(outer) + 1
    case InObject(outer) => Depth(outer) + 1
  }

  /** What may come next: the header's three parts, a member of the innermost container, what follows a key, a value, more bare words. */
  datatype Mode = Header | HeaderColon | Name | Member | AfterKey | AfterColon | Bare

  /** `Over` says that the parser has come to an answer, `Stalled` that it never will. */
  datatype Scan = Reading(place: Place, mode: Mode) | Over | Stalled

  predicate OpensValue(token: Token) {
    token.Text? || token.Number? || token.Boolean? || token.Identifier? || token.LeftBrace? || token.LeftBracket?
  }

  function OpenValue(p: Place, token: Token): Scan {
    if token.LeftBrace? then Reading(InObject(p), Member)
    else if token.LeftBracket? then Reading(InArray(p), Member)
    else if token.Identifier? then Reading(p, Bare)
    else Reading(p, Member)
  }

  /** A token where a member of the innermost container may begin. */
  function AtMember(p: Place, token: Token): Scan {
    if token.Eof? then Over
    else match p
    case Outside =>
      if token.End? || token.RightBrace? then Over
      else if token.Identifier? then Reading(p, AfterKey)
      else Reading(p, Member)
    case InObject(outer) =>
      if token.RightBrace? then Reading(outer, Member)
      else if token.Identifier? then Reading(p, AfterKey)
      else Reading(p, Member)
    case InArray(outer) =>
      if token.RightBracket? then Reading(outer, Member)
      else if token.Newline? || token.Indent? then Reading(p, Member)
      else if Depth(p) > MAX_NESTING_DEPTH then Over
      else if Stuck(token) then Stalled
      else if OpensValue(token) then OpenValue(p, token)
      else Reading(p, Member)
  }

  predicate EndsWords(token: Token) {
    token.Newline? || token.End? || token.Eof? || token.Comma?
    || token.LeftBrace? || token.LeftBracket? || token.RightBrace? || token.RightBracket?
  }

  function Step(s: Scan, token: Token): Scan {
    match s
    case Over => Over
    case Stalled => Stalled
    case Reading(p, Header) =>
      if token.Newline? || token.Indent? then s else if token.Identifier? then Reading(p, HeaderColon) else Over
    case Reading(p, HeaderColon) => if token.Colon? then Reading(p, Name) else Over
    case Reading(p, Name) =>
      if token.Identifier? || token.Text? || token.Number? then Reading(p, Member) else AtMember(p, token)
    case Reading(p, Member) => AtMember(p, token)
    case Reading(p, AfterKey) => if token.Colon? then Reading(p, AfterColon) else AtMember(p, token)
    case Reading(p, AfterColon) =>
      if Depth(p) > MAX_NESTING_DEPTH then Over
      else if OpensValue(token) then OpenValue(p, token)
      else AtMember(p, token)
    case Reading(p, Bare) => if EndsWords(token) then AtMember(p, token) else s
  }

  /** One pass over the tokens, left to right. */
  function ScanFrom(s: Scan, ts: seq<Token>): Scan
    decreases |ts|
  {
    if ts == [] then s else ScanFrom(Step(s, ts[0]), ts[1..])
  }

  predicate Stalls(s: Scan, ts: seq<Token>) {
    ScanFrom(s, ts) == Stalled
  }

  lemma {:induction false} OverStaysOver(ts: seq<Token>)
    ensures ScanFrom(Over, ts) == Over && ScanFrom(Stalled, ts) == Stalled
  {
    if ts != [] { OverStaysOver(ts[1..]); }
  }

  // ---------------------------------------------------------------- the scan follows the parser

  /** Whether a step hangs, or what lies behind it does. */
  ghost predicate StallsAfter<T(!new)>(r: Outcome<T>, p: Place) {
    match r
    case Ok(_, rest) => Stalls(Reading(p, Member), rest)
    case Error(_) => false
    case Hangs => true
  }

  lemma {:induction false} LayoutIsSkipped(p: Place, ts: seq<Token>)
    ensures Stalls(Reading(p, Member), ts) == Stalls(Reading(p, Member), SkipWhitespace(ts))
  {
    if Kind(ts).Newline? || Kind(ts).Indent? { LayoutIsSkipped(p, ts[1..]); }
  }

  lemma SeparatorIsSkipped(p: Place, ts: seq<Token>)
    requires p.InArray? ==> Depth(p) <= MAX_NESTING_DEPTH
    ensures Stalls(Reading(p, Member), ts) == Stalls(Reading(p, Member), SkipComma(SkipWhitespace(ts)))
  {
    LayoutIsSkipped(p, ts);
  }

  lemma {:induction false} WordsAreSkipped(t: Tables, p: Place, ts: seq<Token>)
    ensures Stalls(Reading(p, Bare), ts) == Stalls(Reading(p, Member), Words(t, ts).1)
  {
    if !EndsWords(Kind(ts)) { WordsAreSkipped(t, p, ts[1..]); }
  }

  lemma {:induction false} ScanFollowsValue(t: Tables, p: Place, ts: seq<Token>)
    ensures Stalls(Reading(p, AfterColon), ts) == StallsAfter(ParseValue(t, ts, Depth(p)), p)
    decreases |ts|, 0
  {
    hide ParseFields, ParseItems;
    if ts != [] {
      OverStaysOver(ts[1..]);
      if ts[0].Identifier? {
        WordsAreSkipped(t, p, ts[1..]);
      } else if ts[0].LeftBrace? {
        ScanFollowsFields(t, p, ts[1..]);
      } else if ts[0].LeftBracket? {
        ScanFollowsItems(t, p, ts[1..]);
      }
    }
  }

  lemma {:induction false} ScanFollowsParam(t: Tables, p: Place, ts: seq<Token>)
    requires Kind(ts).Identifier?
    ensures Stalls(Reading(p, AfterKey), ts[1..]) == StallsAfter(ParseParam(t, ts, Depth(p)), p)
    decreases |ts|, 0
  {
    hide ParseValue;
    if Kind(ts[1..]).Colon? {
      assert ts[1..][1..] == ts[2..];
      ScanFollowsValue(t, p, ts[2..]);
    }
  }

  lemma {:induction false} ScanFollowsFields(t: Tables, p: Place, ts: seq<Token>)
    ensures Stalls(Reading(InObject(p), Member), ts) == StallsAfter(ParseFields(t, ts, Depth(p) + 1), p)
    decreases |ts|, 1
  {
    hide ParseParam, SkipComma, SkipWhitespace;
    var here, ts' := InObject(p), SkipWhitespace(ts);
    LayoutIsSkipped(here, ts);
    if ts' != [] {
      OverStaysOver(ts'[1..]);
      if ts'[0].Identifier? {
        ScanFollowsParam(t, here, ts');
        var r := ParseParam(t, ts', Depth(here));
        if r.Ok? {
          SeparatorIsSkipped(here, r.rest);
          ScanFollowsFields(t, p, SkipComma(SkipWhitespace(r.rest)));
        }
      } else if !ts'[0].RightBrace? && !ts'[0].Eof? {
        ScanFollowsFields(t, p, ts'[1..]);
      }
    }
  }

  lemma {:induction false} ScanFollowsItems(t: Tables, p: Place, ts: seq<Token>)
    ensures Stalls(Reading(InArray(p), Member), ts) == StallsAfter(ParseItems(t, ts, Depth(p) + 1), p)
    decreases |ts|, 1
  {
    hide ParseValue, SkipComma, SkipWhitespace;
    var here, ts' := InArray(p), SkipWhitespace(ts);
    LayoutIsSkipped(here, ts);
    if ts' != [] {
      OverStaysOver(ts'[1..]);
      if !ts'[0].RightBracket? && !ts'[0].Eof? {
        ItemHeadway(t, ts', Depth(here));
        var r := ParseValue(t, ts', Depth(here));
        if OpensValue(ts'[0]) { ScanFollowsValue(t, here, ts'); }
        if r.Ok? && !Stuck(ts'[0]) {
          SeparatorIsSkipped(here, r.rest);
          ScanFollowsItems(t, p, SkipComma(SkipWhitespace(r.rest)));
        }
      }
    }
  }

  /** What a round of the array loop does, by the token it begins at. */
  lemma ItemHeadway(t: Tables, ts: seq<Token>, depth: nat)
    requires ts != [] && !ts[0].Newline? && !ts[0].Indent? && !ts[0].Eof? && !ts[0].RightBracket?
    ensures SkipWhitespace(ts) == ts
    ensures depth > MAX_NESTING_DEPTH ==> ParseValue(t, ts, depth).Error?
    ensures depth <= MAX_NESTING_DEPTH && !OpensValue(ts[0]) ==> ParseValue(t, ts, depth) == Ok(Str(""), ts)
    ensures ParseValue(t, ts, depth).Ok? ==> |AfterItem(t, ts, depth)| < |ts| || Stuck(ts[0])
    ensures Stuck(ts[0]) ==> SkipComma(ts) == ts
    ensures !OpensValue(ts[0]) && !Stuck(ts[0]) ==> ts[0].Comma?
  {
  }

  lemma {:induction false} ScanFollowsParams(t: Tables, ts: seq<Token>)
    ensures Stalls(Reading(Outside, Member), ts) == ParseParams(t, ts).Hangs?
    decreases |ts|
  {
    hide ParseParam, SkipWhitespace;
    var ts' := SkipWhitespace(ts);
    LayoutIsSkipped(Outside, ts);
    if ts' != [] {
      OverStaysOver(ts'[1..]);
      if ts'[0].Identifier? {
        ScanFollowsParam(t, Outside, ts');
        var r := ParseParam(t, ts', 0);
        if r.Ok? { ScanFollowsParams(t, r.rest); }
      } else if !ts'[0].End? && !ts'[0].Eof? && !ts'[0].RightBrace? {
        ScanFollowsParams(t, ts'[1..]);
      }
    }
  }

  lemma {:induction false} HeaderLayoutIsSkipped(ts: seq<Token>)
    ensures Stalls(Reading(Outside, Header), ts) == Stalls(Reading(Outside, Header), SkipWhitespace(ts))
  {
    if Kind(ts).Newline? || Kind(ts).Indent? { HeaderLayoutIsSkipped(ts[1..]); }
  }

  lemma NameIsSkipped(t: Tables, ts: seq<Token>)
    ensures Stalls(Reading(Outside, Name), ts) == Stalls(Reading(Outside, Member), ParseName(t, ts).1)
  {
  }

  /** The parser never returns exactly on the tokens on which the scan stalls. */
  lemma HangsExactlyWhenScanStalls(t: Tables, tokens: seq<Token>)
    ensures Parse(t, tokens) == Hangs <==> Stalls(Reading(Outside, Header), tokens)
  {
    hide ParseParams, SkipWhitespace, ParseName;
    var ts := SkipWhitespace(tokens);
    HeaderLayoutIsSkipped(tokens);
    if ts == [] {
      assert !Stalls(Reading(Outside, Header), ts);
    } else if !ts[0].Identifier? {
      OverStaysOver(ts[1..]);
      assert Stalls(Reading(Outside, Header), ts) == Stalls(Over, ts[1..]);
    } else {
      assert Stalls(Reading(Outside, Header), ts) == Stalls(Reading(Outside, HeaderColon), ts[1..]);
      if ts[1..] == [] {
        assert !Stalls(Reading(Outside, HeaderColon), ts[1..]);
      } else {
        var behind := ts[2..];
        assert ts[1..][1..] == behind && ts[1..][0] == ts[1];
        if ts[1].Colon? {
          assert Stalls(Reading(Outside, HeaderColon), ts[1..]) == Stalls(Reading(Outside, Name), behind);
          NameIsSkipped(t, behind);
          ScanFollowsParams(t, ParseName(t, behind).1);
        } else {
          OverStaysOver(behind);
          assert Stalls(Reading(Outside, HeaderColon), ts[1..]) == Stalls(Over, behind);
        }
      }
    }
  }

  // ---------------------------------------------------------------- where the scan stalls

  /** A stuck token in an array at most 32 deep, where its next item may begin; bare words still take a colon. */
  predicate StallsAt(s: Scan, token: Token) {
    s.Reading? && s.place.InArray? && Depth(s.place) <= 32
    && Stuck(token) && (s.mode.Member? || (s.mode.Bare? && !token.Colon?))
  }

  /** No header is awaited inside a container, and no key inside an array. */
  predicate Sensible(s: Scan) {
    s.Reading? ==>
      (s.mode.Header? || s.mode.HeaderColon? || s.mode.Name? ==> s.place.Outside?)
      && (s.mode.AfterKey? || s.mode.AfterColon? ==> !s.place.InArray?)
  }

  lemma StepStallsExactly(s: Scan, token: Token)
    requires Sensible(s) && s != Stalled
    ensures Sensible(Step(s, token))
    ensures Step(s, token) == Stalled <==> StallsAt(s, token)
  {
  }

  lemma {:induction false} StallsExactlyAtSomeToken(s: Scan, ts: seq<Token>)
    requires Sensible(s) && s != Stalled
    ensures Stalls(s, ts) <==> exists k :: 0 <= k < |ts| && StallsAt(ScanFrom(s, ts[..k]), ts[k])
    decreases |ts|
  {
    if ts != [] {
      var s', more := Step(s, ts[0]), ts[1..];
      StepStallsExactly(s, ts[0]);
      assert ScanFrom(s, ts[..0]) == s;
      forall k | 0 < k <= |ts| ensures ScanFrom(s, ts[..k]) == ScanFrom(s', more[..k - 1]) {
        assert ts[..k][1..] == more[..k - 1];
      }
      if s' == Stalled {
        OverStaysOver(more);
        assert StallsAt(ScanFrom(s, ts[..0]), ts[0]);
      } else {
        StallsExactlyAtSomeToken(s', more);
        if k :| 0 <= k < |more| && StallsAt(ScanFrom(s', more[..k]), more[k]) {
          assert ts[..k + 1][1..] == more[..k] && ts[k + 1] == more[k];
          assert StallsAt(ScanFrom(s, ts[..k + 1]), ts[k + 1]);
        }
        if k :| 0 <= k < |ts| && StallsAt(ScanFrom(s, ts[..k]), ts[k]) {
          assert k > 0;
          assert StallsAt(ScanFrom(s', more[..k - 1]), more[k - 1]);
        }
      }
    }
  }

  /**
    The parser never returns exactly when some token is a colon, END or a closing brace and
    the tokens before it leave the scan inside an array, waiting for its next item.
   */
  lemma HangsExactlyAtStuckToken(t: Tables, tokens: seq<Token>)
    ensures Parse(t, tokens) == Hangs
      <==> exists k :: 0 <= k < |tokens| && StallsAt(ScanFrom(Reading(Outside, Header), tokens[..k]), tokens[k])
  {
    hide Parse, ScanFrom;
    HangsExactlyWhenScanStalls(t, tokens);
    StallsExactlyAtSomeToken(Reading(Outside, Header), tokens);
  }

  // ---------------------------------------------------------------- and an open array that meets one does

  lemma {:induction false} OpenItemsHang(t: Tables, o: Options, items: seq<Value>, depth: nat, nesting: nat, rest: seq<Token>)
    requires Lawful(t) && (forall i :: 0 <= i < |items| ==> LegalValue(t, o, items[i])) && AllItemsShallow(items, nesting)
    requires nesting <= MAX_NESTING_DEPTH && rest != [] && Stuck(rest[0])
    ensures ParseItems(t, EachWithComma(t, o, items, depth) + rest, nesting) == Hangs
    decreases items
  {
    hide Lawful, ParseValue, ValueTokens, Shallow, LegalValue;
    var ts := EachWithComma(t, o, items, depth) + rest;
    if items == [] {
      assert ts == rest;
      StuckHangs(t, rest, nesting);
    } else {
      var first, more := ValueTokens(t, o, items[0], depth), EachWithComma(t, o, items[1..], depth) + rest;
      assert ts == first + ([Comma] + more) && ts[0] == first[0];
      assert Shallow(items[0], nesting);
      ParseValueTokens(t, o, items[0], depth, nesting, [Comma] + more);
      assert SkipWhitespace([Comma] + more) == [Comma] + more && ([Comma] + more)[1..] == more;
      OpenItemsHang(t, o, items[1..], depth, nesting, rest);
    }
  }

  lemma StuckHangs(t: Tables, ts: seq<Token>, nesting: nat)
    requires nesting <= MAX_NESTING_DEPTH && ts != [] && Stuck(ts[0])
    ensures ParseItems(t, ts, nesting) == Hangs
  {
    assert SkipWhitespace(ts) == ts && SkipComma(ts) == ts;
  }

  /** Items, each with a comma behind it. */
  function EachWithComma(t: Tables, o: Options, items: seq<Value>, depth: nat): seq<Token> {
    if items == [] then [] else ValueTokens(t, o, items[0], depth) + ([Comma] + EachWithComma(t, o, items[1..], depth))
  }

  /** Any list of items that reads back, left open in front of a colon, END or a closing brace, hangs the parser, whatever follows. */
  lemma OpenArrayHangs(t: Tables, o: Options, kind: string, key: string, items: seq<Value>, rest: seq<Token>)
    requires Lawful(t) && (forall i :: 0 <= i < |items| ==> LegalValue(t, o, items[i])) && AllItemsShallow(items, 1)
    requires rest != [] && Stuck(rest[0])
    ensures Parse(t, [Identifier(kind), Colon, Newline, Identifier(key), Colon, LeftBracket] + (EachWithComma(t, o, items, 1) + rest)) == Hangs
  {
    hide Lawful, EachWithComma, ParseItems, AllItemsShallow, LegalValue;
    var body := EachWithComma(t, o, items, 1) + rest;
    var ts := [Identifier(kind), Colon, Newline, Identifier(key), Colon, LeftBracket] + body;
    OpenItemsHang(t, o, items, 1, 1, rest);
    assert ts[1] == Colon && ts[2] == Newline;
    assert ts[1..][0] == ts[1] && ts[2..][0] == ts[2];
    var line := ts[3..];
    assert ts[2..][1..] == line && SkipWhitespace(ts[2..]) == line by { assert line[0] == Identifier(key); }
    assert line[1..][0] == Colon && line[2..] == [LeftBracket] + body && line[2..][1..] == body;
    assert ParseValue(t, line[2..], 0) == Hangs;
    assert ParseParams(t, ts[2..]) == Hangs;
  }

  /** A text on which the source never returns: an array that END closes. */
  lemma UnclosedArrayNeverReturns(t: Tables)
    requires Lawful(t)
    ensures ReadText(t, "a:\nb: [END") == Hangs
  {
    hide Lex, Lawful, Parse;
    var o := Options("", false, true);
    assert AsciiUpper("a") == "A" && AsciiUpper("b") == "B" && LegalKey("a") && LegalKey("b");
    var text, line := "a:\nb: [END", "b" + (":" + (" " + ("[" + "END")));
    assert text == "a" + (":" + ("\n" + line)) && "" + text == text && "" + line == line;
    LexNothing(t);
    assert AsciiIdent("END") && AsciiUpper("END") == "END" && "END" + "" == "END";
    AsciiIdentReads(t, "END");
    LexWord(t, "END", "");
    assert [End] + [Eof] == [End, Eof];
    assert Lex(t, "END", false) == Some([End, Eof]);
    LexPunctuation(t, '[', "END");
    LexSpace(t, "[" + "END");
    LexPunctuation(t, ':', " " + ("[" + "END"));
    assert [Colon] + ([LeftBracket] + [End, Eof]) == [Colon, LeftBracket, End, Eof];
    assert Lex(t, ":" + (" " + ("[" + "END")), false) == Some([Colon, LeftBracket, End, Eof]);
    LexIdentifier(t, "b", ":" + (" " + ("[" + "END")));
    LexIndent(t, "", line);
    assert [] + ([Identifier("b")] + [Colon, LeftBracket, End, Eof]) == [Identifier("b"), Colon, LeftBracket, End, Eof];
    assert Lex(t, line, true) == Some([Identifier("b"), Colon, LeftBracket, End, Eof]);
    LexNewline(t, line);
    LexPunctuation(t, ':', "\n" + line);
    LexIdentifier(t, "a", ":" + ("\n" + line));
    LexIndent(t, "", text);
    var rest := [End, Eof];
    var ts := [Identifier("a"), Colon, Newline, Identifier("b"), Colon, LeftBracket] + ([] + rest);
    assert [] + ([Identifier("a")] + ([Colon] + ([Newline] + [Identifier("b"), Colon, LeftBracket, End, Eof]))) == ts;
    assert Lex(t, text, true) == Some(ts);
    assert EachWithComma(t, o, [], 1) == [];
    OpenArrayHangs(t, o, "a", "b", [], rest);
  }
}
