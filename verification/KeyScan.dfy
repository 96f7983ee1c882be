/** The duplicate-key scanner of KNOCK, which reads raw JSON bytes. */
module KeyScan {
  import opened Prelude

  datatype Verdict = Fine | Duplicate | Panics

  const QUOTE: Byte := 34
  const BACKSLASH: Byte := 92
  const COLON: Byte := 58
  const COMMA: Byte := 44
  const OPEN_BRACE: Byte := 123
  const CLOSE_BRACE: Byte := 125
  const OPEN_BRACKET: Byte := 91
  const CLOSE_BRACKET: Byte := 93

  predicate Opens(b: Byte) {
    b == OPEN_BRACE || b == OPEN_BRACKET
  }

  predicate Closes(b: Byte) {
    b == CLOSE_BRACE || b == CLOSE_BRACKET
  }

  /** `u8::is_ascii_whitespace`. */
  predicate Blank(b: Byte) {
    b == 32 || b == 9 || b == 10 || b == 12 || b == 13
  }

  // ---------------------------------------------------------------- the scanner

  /** How far a string body runs: to its closing quote, or past the end if a lone backslash ends the text. */
  function BodyEnd(s: seq<Byte>): (e: nat)
    ensures e <= |s| + 1
  {
    if s == [] then 0
    else if s[0] == BACKSLASH then (if |s| == 1 then 2 else 2 + BodyEnd(s[2..]))
    else if s[0] == QUOTE then 0
    else 1 + BodyEnd(s[1..])
  }

  predicate ColonNext(s: seq<Byte>) {
    s != [] && (if Blank(s[0]) then ColonNext(s[1..]) else s[0] == COLON)
  }

  /** How the scan of one object ends: a verdict, or the text after the object. */
  datatype Ending = Stopped(v: Verdict) | Left(rest: seq<Byte>)

  /** The state of the inner loop: nesting below the object, inside a string, after a backslash, keys met. */
  datatype State = State(depth: nat, inString: bool, escape: bool, keys: set<seq<Byte>>)

  function Scan(s: seq<Byte>, st: State): (r: Ending)
    ensures r.Left? ==> |r.rest| <= |s|
    decreases |s|
  {
    if s == [] then Left([])
    else if st.escape then Scan(s[1..], st.(escape := false))
    else if s[0] == BACKSLASH && st.inString then Scan(s[1..], st.(escape := true))
    else if s[0] == QUOTE then
      if !st.inString && st.depth == 0 then
        var e := BodyEnd(s[1..]);
        if e > |s| - 1 then Stopped(Panics)
        else
          var key, tail := s[1..1 + e], if e == |s| - 1 then [] else s[e + 2..];
          if e > 0 && ColonNext(tail) then
            if key in st.keys then Stopped(Duplicate) else Scan(tail, st.(keys := st.keys + {key}))
          else Scan(tail, st)
      else Scan(s[1..], st.(inString := !st.inString))
    else if !st.inString && Opens(s[0]) then Scan(s[1..], st.(depth := st.depth + 1))
    else if !st.inString && Closes(s[0]) then
      if st.depth == 0 then Left(s[1..]) else Scan(s[1..], st.(depth := st.depth - 1))
    else Scan(s[1..], st)
  }

  const START: State := State(0, false, false, {})

  function ScanText(s: seq<Byte>): Verdict
    decreases |s|
  {
    if s == [] then Fine
    else if s[0] != OPEN_BRACE then ScanText(s[1..])
    else
      match Scan(s[1..], START)
      case Stopped(v) => v
      case Left(rest) => ScanText(rest)
  }

  method FindBodyEnd(bytes: seq<Byte>, start: nat) returns (i: nat)
    requires start <= |bytes|
    ensures i == start + BodyEnd(bytes[start..])
  {
    i := start;
    while i < |bytes|
      invariant start <= i <= |bytes| + 1
      invariant start + BodyEnd(bytes[start..]) == if i <= |bytes| then i + BodyEnd(bytes[i..]) else i
      decreases |bytes| + 1 - i
    {
      if bytes[i] == BACKSLASH {
        if i + 2 <= |bytes| { assert bytes[i..][2..] == bytes[i + 2..]; }
        i := i + 2;
        continue;
      }
      if bytes[i] == QUOTE { break; }
      assert bytes[i..][1..] == bytes[i + 1..];
      i := i + 1;
    }
  }

  method IsColonNext(bytes: seq<Byte>, start: nat) returns (r: bool)
    requires start <= |bytes|
    ensures r == ColonNext(bytes[start..])
  {
    var j := start;
    while j < |bytes| && Blank(bytes[j])
      invariant start <= j <= |bytes|
      invariant ColonNext(bytes[start..]) == ColonNext(bytes[j..])
    {
      assert bytes[j..][1..] == bytes[j + 1..];
      j := j + 1;
    }
    r := j < |bytes| && bytes[j] == COLON;
  }

  /** What the scan does at a quote directly in the object. */
  lemma ScanAtKey(s: seq<Byte>, keys: set<seq<Byte>>)
    requires s != [] && s[0] == QUOTE
    ensures var st, e := State(0, false, false, keys), BodyEnd(s[1..]);
            Scan(s, st) ==
              if e > |s| - 1 then Stopped(Panics)
              else
                var key, tail := s[1..1 + e], if e == |s| - 1 then [] else s[e + 2..];
                if e > 0 && ColonNext(tail) then
                  if key in keys then Stopped(Duplicate) else Scan(tail, State(0, false, false, keys + {key}))
                else Scan(tail, st)
  {
    hide BodyEnd, ColonNext;
  }

  /** A string met directly in the object: it runs to `next`, and counts as a key if a colon follows. */
  method ScanKey(bytes: seq<Byte>, i: nat, keys: set<seq<Byte>>) returns (stop: Option<Verdict>, next: nat, keys': set<seq<Byte>>)
    requires i < |bytes| && bytes[i] == QUOTE
    ensures i < next && (stop == None ==> next <= |bytes|)
    ensures Scan(bytes[i..], State(0, false, false, keys))
         == match stop
            case Some(v) => Stopped(v)
            case None => Scan(bytes[next..], State(0, false, false, keys'))
  {
    hide Scan, BodyEnd;
    ScanAtKey(bytes[i..], keys);
    keys' := keys;
    var keyStart := i + 1;
    var keyEnd := FindBodyEnd(bytes, keyStart);
    assert bytes[i..][1..] == bytes[keyStart..];
    if keyEnd > |bytes| { return Some(Panics), keyEnd, keys; }
    ghost var e := keyEnd - keyStart;
    assert bytes[i..][1..1 + e] == bytes[keyStart..keyEnd];
    if keyEnd == |bytes| {
      assert bytes[keyEnd..] == [];
      return None, keyEnd, keys;
    }
    assert bytes[i..][e + 2..] == bytes[keyEnd + 1..];
    if keyEnd > keyStart {
      var isKey := IsColonNext(bytes, keyEnd + 1);
      if isKey {
        var key := bytes[keyStart..keyEnd];
        if key in keys { return Some(Duplicate), keyEnd, keys; }
        keys' := keys + {key};
      }
    }
    return None, keyEnd + 1, keys';
  }

  /** The loop over one object: the verdict that ends it, or the index after the object. */
  method ScanObject(bytes: seq<Byte>, start: nat) returns (stop: Option<Verdict>, i: nat)
    requires start <= |bytes|
    ensures match Scan(bytes[start..], START)
            case Stopped(v) => stop == Some(v)
            case Left(rest) => stop == None && start <= i && rest == if i <= |bytes| then bytes[i..] else []
  {
    i := start;
    var keys: set<seq<Byte>>, depth: nat, inString, escape := {}, 0, false, false;
    while i < |bytes|
      invariant start <= i <= |bytes|
      invariant Scan(bytes[start..], START) == Scan(bytes[i..], State(depth, inString, escape, keys))
      decreases |bytes| - i
    {
      var b := bytes[i];
      if b == QUOTE && !escape && !inString && depth == 0 {
        stop, i, keys := ScanKey(bytes, i, keys);
        if stop.Some? { return; }
        continue;
      }
      assert bytes[i..][1..] == bytes[i + 1..];
      i := i + 1;
      if escape {
        escape := false;
      } else if b == BACKSLASH && inString {
        escape := true;
      } else if b == QUOTE {
        inString := !inString;
      } else if !inString && Opens(b) {
        depth := depth + 1;
      } else if !inString && Closes(b) {
        if depth == 0 { return None, i; }
        depth := depth - 1;
      }
    }
    assert bytes[i..] == [];
    return None, i + 1;
  }

  /** `scan_object_keys`. */
  method ScanObjectKeys(bytes: seq<Byte>) returns (v: Verdict)
    ensures v == ScanText(bytes)
  {
    var i := 0;
    while i < |bytes|
      invariant 0 <= i
      invariant ScanText(bytes) == ScanText(if i <= |bytes| then bytes[i..] else [])
      decreases |bytes| - i
    {
      assert bytes[i..][1..] == bytes[i + 1..];
      if bytes[i] == OPEN_BRACE {
        var stop, after := ScanObject(bytes, i + 1);
        if stop.Some? { return stop.value; }
        i := after;
      } else {
        i := i + 1;
      }
    }
    return Fine;
  }

  // ---------------------------------------------------------------- JSON text

  /** One step of a string body: a byte standing for itself, or a backslash and the byte after it. */
  datatype Piece = Plain(b: Byte) | Escaped(b: Byte)

  /** JSON text as a tree (sections 4, 5 and 7 of RFC 8259), whitespace included. */
  datatype Tree =
    | Word(w: seq<Byte>)                       // a number, true, false or null
    | Text(body: seq<Piece>)
    | Array(blank: seq<Byte>, elems: seq<Elem>)
    | Object(blank: seq<Byte>, pairs: seq<Pair>)

  datatype Elem = Elem(before: seq<Byte>, value: Tree, after: seq<Byte>)

  datatype Pair = Pair(before: seq<Byte>, name: seq<Piece>, mid: seq<Byte>, gap: seq<Byte>, value: Tree, after: seq<Byte>)

  /** White space between the parts of a JSON text (section 2 of RFC 8259). */
  predicate Space(ws: seq<Byte>) {
    forall i :: 0 <= i < |ws| ==> ws[i] == 0x20 || ws[i] == 0x09 || ws[i] == 0x0a || ws[i] == 0x0d
  }

  /** Bytes that a scan outside strings passes over. */
  predicate Inert(w: seq<Byte>) {
    forall i :: 0 <= i < |w| ==> w[i] != QUOTE && !Opens(w[i]) && !Closes(w[i])
  }

  predicate LegalBody(body: seq<Piece>) {
    forall i :: 0 <= i < |body| ==> body[i].Plain? ==> body[i].b != QUOTE && body[i].b != BACKSLASH
  }

  predicate Legal(t: Tree)
    decreases t
  {
    match t
    case Word(w) => Inert(w)
    case Text(body) => LegalBody(body)
    case Array(blank, elems) =>
      Space(blank) && forall i :: 0 <= i < |elems| ==>
        Space(elems[i].before) && Space(elems[i].after) && Legal(elems[i].value)
    case Object(blank, pairs) =>
      Space(blank) && forall i :: 0 <= i < |pairs| ==> LegalPair(pairs[i])
  }

  predicate LegalPair(p: Pair)
    decreases p
  {
    Space(p.before) && LegalBody(p.name) && Space(p.mid) && Space(p.gap) && Space(p.after) && Legal(p.value)
  }

  lemma LegalPairParts(p: Pair)
    requires LegalPair(p)
    ensures Space(p.before) && LegalBody(p.name) && Space(p.mid) && Space(p.gap) && Space(p.after) && Legal(p.value)
  {
    hide Space, LegalBody, Legal;
  }

  function BodyText(body: seq<Piece>): seq<Byte> {
    if body == [] then []
    else (match body[0] case Plain(b) => [b] case Escaped(b) => [BACKSLASH, b]) + BodyText(body[1..])
  }

  function StringText(body: seq<Piece>): seq<Byte> {
    [QUOTE] + (BodyText(body) + [QUOTE])
  }

  function Render(t: Tree): seq<Byte>
    decreases t
  {
    match t
    case Word(w) => w
    case Text(body) => StringText(body)
    case Array(blank, elems) => [OPEN_BRACKET] + ((if elems == [] then blank else RenderElems(elems)) + [CLOSE_BRACKET])
    case Object(blank, pairs) => [OPEN_BRACE] + ((if pairs == [] then blank else RenderPairs(pairs)) + [CLOSE_BRACE])
  }

  function RenderElems(elems: seq<Elem>): seq<Byte>
    decreases elems
  {
    if elems == [] then []
    else elems[0].before + (Render(elems[0].value) + (elems[0].after
         + (if |elems| == 1 then [] else [COMMA] + RenderElems(elems[1..]))))
  }

  function RenderPairs(pairs: seq<Pair>): seq<Byte>
    decreases pairs
  {
    if pairs == [] then []
    else pairs[0].before + (StringText(pairs[0].name) + (pairs[0].mid + ([COLON] + (pairs[0].gap
         + (Render(pairs[0].value) + (pairs[0].after + (if |pairs| == 1 then [] else [COMMA] + RenderPairs(pairs[1..]))))))))
  }

  // ---------------------------------------------------------------- scanning rendered text

  lemma {:induction false} ScanInert(w: seq<Byte>, rest: seq<Byte>, st: State)
    requires Inert(w) && !st.inString && !st.escape
    ensures Scan(w + rest, st) == Scan(rest, st)
  {
    if w == [] {
      assert w + rest == rest;
    } else {
      assert (w + rest)[1..] == w[1..] + rest;
      ScanInert(w[1..], rest, st);
    }
  }

  lemma SpaceIsInert(ws: seq<Byte>)
    requires Space(ws)
    ensures Inert(ws)
  {
    forall i | 0 <= i < |ws| ensures ws[i] != QUOTE && !Opens(ws[i]) && !Closes(ws[i]) {
      assert Blank(ws[i]);
    }
  }

  lemma {:induction false} ScanBody(body: seq<Piece>, rest: seq<Byte>, st: State)
    requires LegalBody(body) && st.inString && !st.escape
    ensures Scan(BodyText(body) + ([QUOTE] + rest), st) == Scan(rest, st.(inString := false))
  {
    hide Scan;
    var s := BodyText(body) + ([QUOTE] + rest);
    if body == [] {
      assert s == [QUOTE] + rest;
      ScanClosingQuote(rest, st);
    } else {
      var tail := BodyText(body[1..]) + ([QUOTE] + rest);
      ScanBody(body[1..], rest, st);
      match body[0]
      case Plain(b) =>
        assert s == [b] + tail;
        ScanPlain(b, tail, st);
      case Escaped(b) =>
        assert s == [BACKSLASH, b] + tail;
        ScanEscaped(b, tail, st);
    }
  }

  lemma ScanClosingQuote(rest: seq<Byte>, st: State)
    requires st.inString && !st.escape
    ensures Scan([QUOTE] + rest, st) == Scan(rest, st.(inString := false))
  {
    assert ([QUOTE] + rest)[1..] == rest;
  }

  lemma ScanPlain(b: Byte, tail: seq<Byte>, st: State)
    requires st.inString && !st.escape && b != QUOTE && b != BACKSLASH
    ensures Scan([b] + tail, st) == Scan(tail, st)
  {
    assert ([b] + tail)[1..] == tail;
  }

  lemma ScanEscaped(b: Byte, tail: seq<Byte>, st: State)
    requires st.inString && !st.escape
    ensures Scan([BACKSLASH, b] + tail, st) == Scan(tail, st)
  {
    assert ([BACKSLASH, b] + tail)[1..] == [b] + tail;
    assert ([b] + tail)[1..] == tail;
    assert Scan([b] + tail, st.(escape := true)) == Scan(tail, st);
  }

  /** A string below the object: the scan passes over it. */
  lemma ScanNestedString(body: seq<Piece>, rest: seq<Byte>, st: State)
    requires LegalBody(body) && st.depth > 0 && !st.inString && !st.escape
    ensures Scan(StringText(body) + rest, st) == Scan(rest, st)
  {
    var s := StringText(body) + rest;
    assert s[1..] == BodyText(body) + ([QUOTE] + rest);
    ScanBody(body, rest, st.(inString := true));
  }

  /** A value nested in the object leaves the scan as it was. */
  lemma {:induction false} ScanNested(t: Tree, rest: seq<Byte>, st: State)
    requires Legal(t) && st.depth > 0 && !st.inString && !st.escape
    ensures Scan(Render(t) + rest, st) == Scan(rest, st)
    decreases t, 1
  {
    hide Scan;
    match t
    case Word(w) => ScanInert(w, rest, st);
    case Text(body) => ScanNestedString(body, rest, st);
    case Array(blank, elems) =>
      var inner := if elems == [] then blank else RenderElems(elems);
      forall tail ensures Scan(inner + tail, Deeper(st)) == Scan(tail, Deeper(st)) {
        if elems == [] { SpaceIsInert(blank); ScanInert(blank, tail, Deeper(st)); }
        else { ScanElems(elems, tail, Deeper(st)); }
      }
      ScanBracketed(OPEN_BRACKET, inner, CLOSE_BRACKET, rest, st);
    case Object(blank, pairs) =>
      var inner := if pairs == [] then blank else RenderPairs(pairs);
      forall tail ensures Scan(inner + tail, Deeper(st)) == Scan(tail, Deeper(st)) {
        if pairs == [] { SpaceIsInert(blank); ScanInert(blank, tail, Deeper(st)); }
        else { ScanNestedPairs(pairs, tail, Deeper(st)); }
      }
      ScanBracketed(OPEN_BRACE, inner, CLOSE_BRACE, rest, st);
  }

  function Deeper(st: State): State {
    st.(depth := st.depth + 1)
  }

  /** Brackets around something the scan passes over are themselves passed over, at any depth. */
  lemma ScanBracketed(open: Byte, inner: seq<Byte>, close: Byte, rest: seq<Byte>, st: State)
    requires Opens(open) && Closes(close) && !st.inString && !st.escape
    requires forall tail :: Scan(inner + tail, Deeper(st)) == Scan(tail, Deeper(st))
    ensures Scan([open] + (inner + [close]) + rest, st) == Scan(rest, st)
  {
    hide Scan, Opens, Closes;
    var s := [open] + (inner + [close]) + rest;
    assert s == [open] + (inner + ([close] + rest));
    ScanOpening(open, inner + ([close] + rest), st);
    assert Scan(inner + ([close] + rest), Deeper(st)) == Scan([close] + rest, Deeper(st));
    ScanClosing(close, rest, st);
  }

  lemma ScanOpening(open: Byte, tail: seq<Byte>, st: State)
    requires Opens(open) && !st.inString && !st.escape
    ensures Scan([open] + tail, st) == Scan(tail, Deeper(st))
  {
    assert ([open] + tail)[1..] == tail;
  }

  lemma ScanClosing(close: Byte, rest: seq<Byte>, st: State)
    requires Closes(close) && !st.inString && !st.escape
    ensures Scan([close] + rest, Deeper(st)) == Scan(rest, st)
  {
    assert ([close] + rest)[1..] == rest;
    assert Deeper(st).(depth := Deeper(st).depth - 1) == st;
  }

  lemma ScanSpace(ws: seq<Byte>, rest: seq<Byte>, st: State)
    requires Space(ws) && !st.inString && !st.escape
    ensures Scan(ws + rest, st) == Scan(rest, st)
  {
    SpaceIsInert(ws);
    ScanInert(ws, rest, st);
  }

  lemma {:induction false} ScanElems(elems: seq<Elem>, rest: seq<Byte>, st: State)
    requires st.depth > 0 && !st.inString && !st.escape
    requires forall i :: 0 <= i < |elems| ==>
               Space(elems[i].before) && Space(elems[i].after) && Legal(elems[i].value)
    ensures Scan(RenderElems(elems) + rest, st) == Scan(rest, st)
    decreases elems, 0
  {
    hide Scan, Render, Legal, Space;
    if elems == [] {
      assert RenderElems(elems) + rest == rest;
    } else {
      var e := elems[0];
      var more := if |elems| == 1 then [] else [COMMA] + RenderElems(elems[1..]);
      Regroup(e.before, Render(e.value) + (e.after + more), rest);
      Regroup(Render(e.value), e.after + more, rest);
      Regroup(e.after, more, rest);
      assert RenderElems(elems) == e.before + (Render(e.value) + (e.after + more));
      ScanSpace(e.before, Render(e.value) + (e.after + (more + rest)), st);
      ScanNested(e.value, e.after + (more + rest), st);
      ScanSpace(e.after, more + rest, st);
      if |elems| == 1 {
        assert more + rest == rest;
      } else {
        Regroup([COMMA], RenderElems(elems[1..]), rest);
        ScanInert([COMMA], RenderElems(elems[1..]) + rest, st);
        ScanElems(elems[1..], rest, st);
      }
    }
  }

  /** The text of members with more text behind it, taken apart at the first member. */
  lemma RenderPairsCons(pairs: seq<Pair>, rest: seq<Byte>)
    requires pairs != []
    ensures var p := pairs[0];
            RenderPairs(pairs) + rest ==
              p.before + (StringText(p.name) + (p.mid + ([COLON] + (p.gap + (Render(p.value) + (p.after + AfterPair(pairs, rest)))))))
  {
    hide Render, StringText;
    var p := pairs[0];
    var x7 := p.after + if |pairs| == 1 then [] else [COMMA] + RenderPairs(pairs[1..]);
    var x6 := Render(p.value) + x7;
    var x5 := p.gap + x6;
    var x4 := [COLON] + x5;
    var x3 := p.mid + x4;
    var x2 := StringText(p.name) + x3;
    assert RenderPairs(pairs) == p.before + x2;
    Regroup(p.before, x2, rest);
    Regroup(StringText(p.name), x3, rest);
    Regroup(p.mid, x4, rest);
    Regroup([COLON], x5, rest);
    Regroup(p.gap, x6, rest);
    Regroup(Render(p.value), x7, rest);
    Regroup(p.after, if |pairs| == 1 then [] else [COMMA] + RenderPairs(pairs[1..]), rest);
  }

  lemma Regroup(a: seq<Byte>, b: seq<Byte>, c: seq<Byte>)
    ensures (a + b) + c == a + (b + c)
  {
  }

  function AfterPair(pairs: seq<Pair>, rest: seq<Byte>): seq<Byte>
    requires pairs != []
  {
    (if |pairs| == 1 then [] else [COMMA] + RenderPairs(pairs[1..])) + rest
  }

  lemma {:induction false} ScanNestedPairs(pairs: seq<Pair>, rest: seq<Byte>, st: State)
    requires st.depth > 0 && !st.inString && !st.escape
    requires forall i :: 0 <= i < |pairs| ==> LegalPair(pairs[i])
    ensures Scan(RenderPairs(pairs) + rest, st) == Scan(rest, st)
    decreases pairs, 0
  {
    hide Scan, Render, StringText, LegalPair;
    if pairs == [] {
      assert RenderPairs(pairs) + rest == rest;
    } else {
      var p := pairs[0];
      LegalPairParts(p);
      var more := AfterPair(pairs, rest);
      var fromValue := Render(p.value) + (p.after + more);
      RenderPairsCons(pairs, rest);
      ScanSpace(p.before, StringText(p.name) + (p.mid + ([COLON] + (p.gap + fromValue))), st);
      ScanNestedString(p.name, p.mid + ([COLON] + (p.gap + fromValue)), st);
      ScanSpace(p.mid, [COLON] + (p.gap + fromValue), st);
      ScanInert([COLON], p.gap + fromValue, st);
      ScanSpace(p.gap, fromValue, st);
      ScanNested(p.value, p.after + more, st);
      ScanSpace(p.after, more, st);
      if |pairs| == 1 {
        assert more == rest;
      } else {
        Regroup([COMMA], RenderPairs(pairs[1..]), rest);
        ScanInert([COMMA], RenderPairs(pairs[1..]) + rest, st);
        ScanNestedPairs(pairs[1..], rest, st);
      }
    }
  }

  // ---------------------------------------------------------------- the outermost object

  lemma {:induction false} BodyEndOfText(body: seq<Piece>, rest: seq<Byte>)
    requires LegalBody(body)
    ensures BodyEnd(BodyText(body) + ([QUOTE] + rest)) == |BodyText(body)|
  {
    var s := BodyText(body) + ([QUOTE] + rest);
    if body == [] {
      assert s == [QUOTE] + rest;
    } else {
      var tail := BodyText(body[1..]) + ([QUOTE] + rest);
      BodyEndOfText(body[1..], rest);
      match body[0]
      case Plain(b) =>
        assert s == [b] + tail && s[1..] == tail;
      case Escaped(b) =>
        assert s == [BACKSLASH, b] + tail && s[2..] == tail;
    }
  }

  lemma {:induction false} ColonAfterSpace(ws: seq<Byte>, rest: seq<Byte>)
    requires Space(ws)
    ensures ColonNext(ws + rest) == ColonNext(rest)
  {
    if ws == [] {
      assert ws + rest == rest;
    } else {
      assert (ws + rest)[1..] == ws[1..] + rest;
      ColonAfterSpace(ws[1..], rest);
    }
  }

  /** A string in the outermost object: a key if a colon follows, and then new or a duplicate. */
  lemma ScanOuterString(body: seq<Piece>, rest: seq<Byte>, st: State)
    requires LegalBody(body) && st.depth == 0 && !st.inString && !st.escape
    ensures Scan(StringText(body) + rest, st)
         == if BodyText(body) != [] && ColonNext(rest) then
              if BodyText(body) in st.keys then Stopped(Duplicate)
              else Scan(rest, st.(keys := st.keys + {BodyText(body)}))
            else Scan(rest, st)
  {
    hide BodyText, BodyEnd, ColonNext;
    var s := StringText(body) + rest;
    var e := |BodyText(body)|;
    assert s[1..] == BodyText(body) + ([QUOTE] + rest);
    BodyEndOfText(body, rest);
    assert s[1..1 + e] == BodyText(body);
    assert s[e + 2..] == rest;
  }

  /** A member value of the outermost object, followed by no colon. */
  lemma ScanOuterValue(t: Tree, rest: seq<Byte>, st: State)
    requires Legal(t) && st.depth == 0 && !st.inString && !st.escape && !ColonNext(rest)
    ensures Scan(Render(t) + rest, st) == Scan(rest, st)
  {
    hide Scan, StringText;
    match t
    case Word(w) => ScanInert(w, rest, st);
    case Text(body) => ScanOuterString(body, rest, st);
    case Array(blank, elems) =>
      var inner := if elems == [] then blank else RenderElems(elems);
      forall tail ensures Scan(inner + tail, Deeper(st)) == Scan(tail, Deeper(st)) {
        if elems == [] { ScanSpace(blank, tail, Deeper(st)); } else { ScanElems(elems, tail, Deeper(st)); }
      }
      ScanBracketed(OPEN_BRACKET, inner, CLOSE_BRACKET, rest, st);
    case Object(blank, pairs) =>
      var inner := if pairs == [] then blank else RenderPairs(pairs);
      forall tail ensures Scan(inner + tail, Deeper(st)) == Scan(tail, Deeper(st)) {
        if pairs == [] { ScanSpace(blank, tail, Deeper(st)); } else { ScanNestedPairs(pairs, tail, Deeper(st)); }
      }
      ScanBracketed(OPEN_BRACE, inner, CLOSE_BRACE, rest, st);
  }

  /** Some name is non-empty and equals an earlier one or one of `keys`. */
  ghost predicate Repeats(pairs: seq<Pair>, keys: set<seq<Byte>>) {
    exists j :: 0 <= j < |pairs| && RepeatsAt(pairs, j, keys)
  }

  ghost predicate RepeatsAt(pairs: seq<Pair>, j: nat, keys: set<seq<Byte>>)
    requires j < |pairs|
  {
    var name := BodyText(pairs[j].name);
    name != [] && (name in keys || exists i :: 0 <= i < j && BodyText(pairs[i].name) == name)
  }

  lemma RepeatsCons(pairs: seq<Pair>, keys: set<seq<Byte>>)
    requires pairs != []
    ensures var name := BodyText(pairs[0].name);
            Repeats(pairs, keys) <==>
              (name != [] && name in keys) || Repeats(pairs[1..], if name == [] then keys else keys + {name})
  {
    var name := BodyText(pairs[0].name);
    var keys' := if name == [] then keys else keys + {name};
    if Repeats(pairs, keys) {
      var j :| 0 <= j < |pairs| && RepeatsAt(pairs, j, keys);
      if j > 0 {
        assert pairs[1..][j - 1] == pairs[j];
        if BodyText(pairs[j].name) !in keys {
          var i :| 0 <= i < j && BodyText(pairs[i].name) == BodyText(pairs[j].name);
          if i > 0 { assert pairs[1..][i - 1] == pairs[i]; }
        }
        assert RepeatsAt(pairs[1..], j - 1, keys');
      }
    }
    if name != [] && name in keys {
      assert RepeatsAt(pairs, 0, keys);
    }
    if Repeats(pairs[1..], keys') {
      var j :| 0 <= j < |pairs[1..]| && RepeatsAt(pairs[1..], j, keys');
      assert pairs[1..][j] == pairs[j + 1];
      if BodyText(pairs[j + 1].name) !in keys && BodyText(pairs[j + 1].name) != name {
        var i :| 0 <= i < j && BodyText(pairs[1..][i].name) == BodyText(pairs[j + 1].name);
        assert pairs[1..][i] == pairs[i + 1];
      }
      assert RepeatsAt(pairs, j + 1, keys);
    }
  }

  /** One member of the outermost object: its name is a duplicate, or joins the keys met. */
  lemma ScanOuterPair(pairs: seq<Pair>, rest: seq<Byte>, st: State)
    requires st.depth == 0 && !st.inString && !st.escape && pairs != [] && LegalPair(pairs[0])
    ensures Scan(RenderPairs(pairs) + ([CLOSE_BRACE] + rest), st)
         == if BodyText(pairs[0].name) != [] && BodyText(pairs[0].name) in st.keys then Stopped(Duplicate)
            else Scan(AfterPair(pairs, [CLOSE_BRACE] + rest), WithKey(st, BodyText(pairs[0].name)))
  {
    hide Scan, Render, StringText, BodyText, RenderPairs, AfterPair;
    var p := pairs[0];
    var name := BodyText(p.name);
    var more := AfterPair(pairs, [CLOSE_BRACE] + rest);
    var fromValue := Render(p.value) + (p.after + more);
    var afterName := p.mid + ([COLON] + (p.gap + fromValue));
    RenderPairsCons(pairs, [CLOSE_BRACE] + rest);
    ScanSpace(p.before, StringText(p.name) + afterName, st);
    ScanOuterString(p.name, afterName, st);
    ColonAfterSpace(p.mid, [COLON] + (p.gap + fromValue));
    var st' := WithKey(st, name);
    ScanSpace(p.mid, [COLON] + (p.gap + fromValue), st');
    ScanInert([COLON], p.gap + fromValue, st');
    ScanSpace(p.gap, fromValue, st');
    MoreHasNoColon(pairs, rest);
    ColonAfterSpace(p.after, more);
    ScanOuterValue(p.value, p.after + more, st');
    ScanSpace(p.after, more, st');
  }

  function WithKey(st: State, name: seq<Byte>): State {
    if name == [] then st else st.(keys := st.keys + {name})
  }

  /** The members of the outermost object and its closing brace. */
  lemma {:induction false} ScanOuterPairs(pairs: seq<Pair>, rest: seq<Byte>, st: State)
    requires st.depth == 0 && !st.inString && !st.escape && pairs != []
    requires forall i :: 0 <= i < |pairs| ==> LegalPair(pairs[i])
    ensures Scan(RenderPairs(pairs) + ([CLOSE_BRACE] + rest), st)
         == if Repeats(pairs, st.keys) then Stopped(Duplicate) else Left(rest)
    decreases pairs
  {
    hide Scan, Render, BodyText, Repeats, RepeatsAt, RenderPairs, LegalPair;
    var close := [CLOSE_BRACE] + rest;
    var st' := WithKey(st, BodyText(pairs[0].name));
    RepeatsCons(pairs, st.keys);
    ScanOuterPair(pairs, rest, st);
    var more := AfterPair(pairs, close);
    if |pairs| == 1 {
      assert more == close;
      ScanClose(rest, st');
      NoPairsRepeatNothing(pairs[1..], st'.keys);
    } else {
      assert more == [COMMA] + (RenderPairs(pairs[1..]) + close);
      ScanInert([COMMA], RenderPairs(pairs[1..]) + close, st');
      ScanOuterPairs(pairs[1..], rest, st');
    }
  }

  lemma MoreHasNoColon(pairs: seq<Pair>, rest: seq<Byte>)
    requires pairs != []
    ensures !ColonNext(AfterPair(pairs, [CLOSE_BRACE] + rest))
  {
    var more := AfterPair(pairs, [CLOSE_BRACE] + rest);
    assert more[0] == if |pairs| == 1 then CLOSE_BRACE else COMMA;
  }

  lemma ScanClose(rest: seq<Byte>, st: State)
    requires st.depth == 0 && !st.inString && !st.escape
    ensures Scan([CLOSE_BRACE] + rest, st) == Left(rest)
  {
  }

  lemma NoPairsRepeatNothing(pairs: seq<Pair>, keys: set<seq<Byte>>)
    requires pairs == []
    ensures !Repeats(pairs, keys)
  {
  }

  lemma {:induction false} SpaceIsFine(ws: seq<Byte>, rest: seq<Byte>)
    requires Space(ws)
    ensures ScanText(ws + rest) == ScanText(rest)
  {
    if ws == [] {
      assert ws + rest == rest;
    } else {
      assert Blank(ws[0]);
      assert (ws + rest)[1..] == ws[1..] + rest;
      SpaceIsFine(ws[1..], rest);
    }
  }

  /** Two members of the object have one non-empty name, compared as text. */
  ghost predicate TextualDuplicate(pairs: seq<Pair>) {
    exists i, j :: 0 <= i < j < |pairs| && SameName(pairs[i], pairs[j])
  }

  ghost predicate SameName(p: Pair, q: Pair) {
    BodyText(p.name) == BodyText(q.name) != []
  }

  lemma RepeatsIsTextualDuplicate(pairs: seq<Pair>)
    ensures Repeats(pairs, {}) <==> TextualDuplicate(pairs)
  {
    if Repeats(pairs, {}) {
      var j :| 0 <= j < |pairs| && RepeatsAt(pairs, j, {});
      var i :| 0 <= i < j && BodyText(pairs[i].name) == BodyText(pairs[j].name);
      assert SameName(pairs[i], pairs[j]);
    }
    if TextualDuplicate(pairs) {
      var i, j :| 0 <= i < j < |pairs| && SameName(pairs[i], pairs[j]);
      assert RepeatsAt(pairs, j, {});
    }
  }

  /**
    On every well-formed JSON object text the scanner rejects exactly when two members of the
    outermost object have textually equal non-empty names, and never runs off the text.
   */
  lemma ScannerDecidesOuterDuplicates(lead: seq<Byte>, blank: seq<Byte>, pairs: seq<Pair>, trail: seq<Byte>)
    requires Space(lead) && Space(trail) && Legal(Object(blank, pairs))
    ensures ScanText(lead + (Render(Object(blank, pairs)) + trail))
         == if TextualDuplicate(pairs) then Duplicate else Fine
  {
    hide Scan, Repeats, TextualDuplicate, RenderPairs;
    var text := Render(Object(blank, pairs));
    var inner := if pairs == [] then blank else RenderPairs(pairs);
    SpaceIsFine(lead, text + trail);
    assert (text + trail)[0] == OPEN_BRACE;
    assert (text + trail)[1..] == inner + ([CLOSE_BRACE] + trail);
    RepeatsIsTextualDuplicate(pairs);
    if pairs == [] {
      ScanSpace(blank, [CLOSE_BRACE] + trail, START);
      ScanClose(trail, START);
      NoPairsRepeatNothing(pairs, {});
    } else {
      ScanOuterPairs(pairs, trail, START);
    }
    SpaceIsFine(trail, []);
    assert trail + [] == trail;
  }

  /** Duplicates below the outermost object pass, whatever they are. */
  lemma NestedDuplicatesPass(name: seq<Piece>, inner: Tree)
    requires LegalBody(name) && Legal(inner)
    ensures ScanText(Render(Object([], [Pair([], name, [], [], inner, [])]))) == Fine
  {
    var pairs := [Pair([], name, [], [], inner, [])];
    assert LegalPair(pairs[0]);
    ScannerDecidesOuterDuplicates([], [], pairs, []);
    var text := Render(Object([], pairs));
    assert [] + (text + []) == text;
  }
}
