/** Exactly which bodies the KNOCK gate accepts, and why it refuses the others. */
module KnockExact {
  import opened Prelude
  import opened Json
  import opened Normalizer
  import opened Faults
  import opened K = Knock
  import KeyScan
  import Utf8

  // ---------------------------------------------------------------- number atoms

  /** A member of this name with this value. */
  ghost predicate HasField(ms: seq<Member>, k: string, v: Json) {
    exists i :: 0 <= i < |ms| && ms[i] == Member(k, v)
  }

  ghost predicate HasName(ms: seq<Member>, k: string) {
    exists i :: 0 <= i < |ms| && ms[i].key == k
  }

  ghost predicate DecimalDigits(s: string) {
    |s| > 0 && forall i :: 0 <= i < |s| ==> s[i] in "0123456789"
  }

  /** Decimal digits, a minus in front of them or not. */
  ghost predicate WholeNumber(s: string) {
    DecimalDigits(s) || exists t :: DecimalDigits(t) && s == "-" + t
  }

  ghost predicate HasNonzeroDigit(s: string) {
    exists i :: 0 <= i < |s| && s[i] in "123456789"
  }

  ghost predicate WholeNumberField(ms: seq<Member>, k: string) {
    exists s :: HasField(ms, k, Str(s)) && WholeNumber(s)
  }

  ghost predicate NonzeroField(ms: seq<Member>, k: string) {
    exists s :: HasField(ms, k, Str(s)) && WholeNumber(s) && HasNonzeroDigit(s)
  }

  ghost predicate ScaleField(ms: seq<Member>, k: string) {
    exists n :: 0 <= n < 0x1_0000_0000 && HasField(ms, k, Number(Integer(n)))
  }

  /** A unit, where there is one, is a text. */
  ghost predicate UnitIsText(ms: seq<Member>) {
    forall i :: 0 <= i < |ms| && ms[i].key == "u" ==> ms[i].value.Str?
  }

  ghost predicate NoOtherNames(ms: seq<Member>, names: set<string>) {
    forall i :: 0 <= i < |ms| ==> ms[i].key in names
  }

  /** A number atom: an integer, a decimal with its scale, a fraction with a denominator that is not zero, or bounds that are atoms. */
  ghost predicate LegalAtom(ms: seq<Member>)
    decreases ms
  {
    && UnitIsText(ms)
    && (|| (HasField(ms, "@num", Str("int/1")) && NoOtherNames(ms, {"@num", "u", "v"}) && WholeNumberField(ms, "v"))
        || (HasField(ms, "@num", Str("dec/1")) && NoOtherNames(ms, {"@num", "u", "m", "s"}) && WholeNumberField(ms, "m") && ScaleField(ms, "s"))
        || (HasField(ms, "@num", Str("rat/1")) && NoOtherNames(ms, {"@num", "u", "p", "q"}) && WholeNumberField(ms, "p") && NonzeroField(ms, "q"))
        || (HasField(ms, "@num", Str("bnd/1")) && NoOtherNames(ms, {"@num", "u", "lo", "hi"}) && HoldsAtom(ms, "lo") && HoldsAtom(ms, "hi")))
  }

  ghost predicate HoldsAtom(ms: seq<Member>, k: string)
    decreases ms, 0
  {
    exists i :: 0 <= i < |ms| && ms[i].key == k && ms[i].value.Object? && LegalAtom(ms[i].value.members)
  }

  lemma LookupFindsField(ms: seq<Member>, k: string)
    requires DistinctNames(ms)
    ensures forall v :: Lookup(ms, k) == Some(v) <==> HasField(ms, k, v)
    ensures Lookup(ms, k) == None <==> !HasName(ms, k)
  {
    hide Lookup;
    if Lookup(ms, k).Some? {
      var i :| 0 <= i < |ms| && ms[i].key == k && ms[i].value == Lookup(ms, k).value;
      assert ms[i] == Member(k, Lookup(ms, k).value);
    }
    forall v | HasField(ms, k, v) ensures Lookup(ms, k) == Some(v) {
      var i :| 0 <= i < |ms| && ms[i] == Member(k, v);
      LookupIsTheMember(ms, i);
    }
  }

  lemma DigitMeans(c: char)
    ensures '0' <= c <= '9' <==> c in "0123456789"
    ensures '1' <= c <= '9' <==> c in "123456789"
  {
    var all := "0123456789";
    if '0' <= c <= '9' {
      assert all[c as int - '0' as int] == c;
    }
    if '1' <= c <= '9' {
      assert "123456789"[c as int - '1' as int] == c;
    }
  }

  lemma DigitsMean(s: string)
    ensures Digits(s) <==> DecimalDigits(s)
  {
    forall i | 0 <= i < |s| ensures '0' <= s[i] <= '9' <==> s[i] in "0123456789" { DigitMeans(s[i]); }
  }

  lemma LiteralIsWholeNumber(s: string)
    ensures BigIntLiteral(s) <==> WholeNumber(s)
    ensures BigIntLiteral(s) ==> (ZeroBigInt(s) <==> !HasNonzeroDigit(s))
  {
    DigitsMean(s);
    if s != "" && s[0] == '-' {
      DigitsMean(s[1..]);
      assert s == "-" + s[1..];
      assert !DecimalDigits(s) by { MinusIsNoDigit(s); }
      if t :| DecimalDigits(t) && s == "-" + t { assert t == s[1..]; }
    }
    if BigIntLiteral(s) { ZeroMeans(s); }
  }

  lemma MinusIsNoDigit(s: string)
    requires s != "" && s[0] == '-'
    ensures !DecimalDigits(s)
  {
    DigitMeans(s[0]);
  }

  lemma ZeroMeans(s: string)
    requires BigIntLiteral(s)
    ensures ZeroBigInt(s) <==> !HasNonzeroDigit(s)
  {
    var t := if s[0] == '-' then s[1..] else s;
    forall i | 0 <= i < |s| ensures s[i] in "123456789" <==> '1' <= s[i] <= '9' { DigitMeans(s[i]); }
    if ZeroBigInt(s) {
      forall i | 0 <= i < |s| ensures !('1' <= s[i] <= '9') {
        if s[0] != '-' { assert t[i] == s[i] == '0'; } else if i > 0 { assert s[i] == t[i - 1] == '0'; }
      }
    } else {
      var i :| 0 <= i < |t| && t[i] != '0';
      assert '0' <= t[i] <= '9';
      var k := if s[0] == '-' then i + 1 else i;
      assert s[k] == t[i];
    }
  }

  lemma FieldsMean(ms: seq<Member>, k: string)
    requires DistinctNames(ms)
    ensures BigIntField(ms, k) <==> WholeNumberField(ms, k)
    ensures BigIntField(ms, k) ==> (!ZeroBigInt(Lookup(ms, k).value.s) <==> NonzeroField(ms, k))
    ensures U32Field(ms, k) <==> ScaleField(ms, k)
  {
    hide Lookup, BigIntLiteral, ZeroBigInt, WholeNumber, HasField, HasNonzeroDigit;
    LookupFindsField(ms, k);
    match Lookup(ms, k)
    case Some(Str(s)) => LiteralIsWholeNumber(s);
    case _ =>
      forall s: string ensures !HasField(ms, k, Str(s)) {}
  }

  lemma NonzeroMeans(ms: seq<Member>, k: string)
    requires DistinctNames(ms)
    ensures NonzeroField(ms, k) <==> BigIntField(ms, k) && !ZeroBigInt(Lookup(ms, k).value.s)
  {
    hide Lookup, BigIntLiteral, ZeroBigInt, WholeNumber, HasField, HasNonzeroDigit;
    FieldsMean(ms, k);
    if NonzeroField(ms, k) { assert WholeNumberField(ms, k); }
  }

  lemma UnitMeans(ms: seq<Member>)
    requires DistinctNames(ms)
    ensures OptionalUnit(ms) <==> UnitIsText(ms)
  {
    hide Lookup;
    LookupFindsField(ms, "u");
    forall i | 0 <= i < |ms| && ms[i].key == "u" ensures Lookup(ms, "u") == Some(ms[i].value) { LookupIsTheMember(ms, i); }
    if Lookup(ms, "u").Some? {
      var i :| 0 <= i < |ms| && ms[i].key == "u" && ms[i].value == Lookup(ms, "u").value;
    }
  }

  lemma TagMeans(ms: seq<Member>, tag: string)
    requires DistinctNames(ms)
    ensures Lookup(ms, "@num") == Some(Str(tag)) <==> HasField(ms, "@num", Str(tag))
  {
    LookupFindsField(ms, "@num");
  }

  lemma SimpleAtomsMean(ms: seq<Member>)
    requires DistinctNames(ms)
    ensures IntAtom(ms) <==> UnitIsText(ms) && NoOtherNames(ms, {"@num", "u", "v"}) && WholeNumberField(ms, "v")
    ensures DecAtom(ms) <==>
            UnitIsText(ms) && NoOtherNames(ms, {"@num", "u", "m", "s"}) && WholeNumberField(ms, "m") && ScaleField(ms, "s")
    ensures RatAtom(ms) <==>
            UnitIsText(ms) && NoOtherNames(ms, {"@num", "u", "p", "q"}) && WholeNumberField(ms, "p") && NonzeroField(ms, "q")
  {
    hide Lookup, BigIntField, U32Field, OptionalUnit, WholeNumberField, ScaleField, NonzeroField, UnitIsText, ZeroBigInt;
    UnitMeans(ms);
    FieldsMean(ms, "v");
    FieldsMean(ms, "m");
    FieldsMean(ms, "s");
    FieldsMean(ms, "p");
    NonzeroMeans(ms, "q");
    assert {"@num", "v", "u"} == {"@num", "u", "v"};
    assert {"@num", "m", "s", "u"} == {"@num", "u", "m", "s"} && {"@num", "p", "q", "u"} == {"@num", "u", "p", "q"};
  }

  /** The validator accepts exactly the legal atoms, nested bounds included. */
  lemma {:induction false} AtomCheckIsExact(ms: seq<Member>)
    requires NamesDistinct(Object(ms))
    ensures NumAtom(ms) <==> LegalAtom(ms)
    decreases ms
  {
    hide Lookup, IntAtom, DecAtom, RatAtom, UnitIsText, NoOtherNames, WholeNumberField, ScaleField, NonzeroField, HasField, OptionalUnit, OnlyKeys, NumAtomAt, HoldsAtom;
    SimpleAtomsMean(ms);
    UnitMeans(ms);
    TagMeans(ms, "int/1");
    TagMeans(ms, "dec/1");
    TagMeans(ms, "rat/1");
    TagMeans(ms, "bnd/1");
    BoundsMean(ms, "lo");
    BoundsMean(ms, "hi");
    assert OnlyKeys(ms, {"@num", "lo", "hi", "u"}) <==> NoOtherNames(ms, {"@num", "u", "lo", "hi"}) by { BoundNames(ms); }
    LookupOfTag(ms);
  }

  lemma BoundNames(ms: seq<Member>)
    ensures OnlyKeys(ms, {"@num", "lo", "hi", "u"}) <==> NoOtherNames(ms, {"@num", "u", "lo", "hi"})
  {
    assert {"@num", "lo", "hi", "u"} == {"@num", "u", "lo", "hi"};
  }

  lemma LookupOfTag(ms: seq<Member>)
    requires DistinctNames(ms)
    ensures Lookup(ms, "@num").Some? && Lookup(ms, "@num").value.Str? ==> HasField(ms, "@num", Lookup(ms, "@num").value)
  {
    hide Lookup;
    LookupFindsField(ms, "@num");
  }

  lemma {:induction false} BoundsMean(ms: seq<Member>, k: string)
    requires NamesDistinct(Object(ms))
    ensures NumAtomAt(ms, k) <==> HoldsAtom(ms, k)
    decreases ms, 0
  {
    hide Lookup, NumAtom, LegalAtom;
    forall i | 0 <= i < |ms| && ms[i].key == k
      ensures Lookup(ms, k) == Some(ms[i].value)
      ensures ms[i].value.Object? ==> (NumAtom(ms[i].value.members) <==> LegalAtom(ms[i].value.members))
    {
      LookupIsTheMember(ms, i);
      if ms[i].value.Object? {
        assert NamesDistinct(ms[i].value);
        AtomCheckIsExact(ms[i].value.members);
      }
    }
  }

  // ---------------------------------------------------------------- numbers

  /** Numbers outside atoms are 64-bit integers, or there are none where literals are refused; what names "@num" is an atom. */
  ghost predicate NumbersLegal(v: Json, requireUnc1: bool)
    decreases v
  {
    match v
    case Number(Integer(n)) => !requireUnc1 && -0x8000_0000_0000_0000 <= n <= 0x7fff_ffff_ffff_ffff
    case Number(Float(_)) => false
    case Array(items) => forall i :: 0 <= i < |items| ==> NumbersLegal(items[i], requireUnc1)
    case Object(ms) =>
      if HasName(ms, "@num") then LegalAtom(ms) else forall i :: 0 <= i < |ms| ==> NumbersLegal(ms[i].value, requireUnc1)
    case _ => true
  }

  lemma {:induction false} NumericCheckIsExact(v: Json, requireUnc1: bool)
    requires NamesDistinct(v)
    ensures CheckNumeric(v, requireUnc1) == None <==> NumbersLegal(v, requireUnc1)
    decreases v
  {
    hide NumAtom, LegalAtom;
    match v
    case Array(items) =>
      ItemNumbersAll(items, requireUnc1);
      forall i | 0 <= i < |items| ensures CheckNumeric(items[i], requireUnc1) == None <==> NumbersLegal(items[i], requireUnc1) {
        NumericCheckIsExact(items[i], requireUnc1);
      }
    case Object(ms) =>
      AtomCheckIsExact(ms);
      MemberNumbersAll(ms, requireUnc1);
      forall i | 0 <= i < |ms| ensures CheckNumeric(ms[i].value, requireUnc1) == None <==> NumbersLegal(ms[i].value, requireUnc1) {
        NumericCheckIsExact(ms[i].value, requireUnc1);
      }
    case _ =>
  }

  /** A part of the value that calls for this error. */
  ghost predicate Offends(v: Json, requireUnc1: bool, e: Error)
    decreases v
  {
    match v
    case Number(Integer(n)) =>
      if -0x8000_0000_0000_0000 <= n <= 0x7fff_ffff_ffff_ffff then requireUnc1 && e == NumericLiteralNotAllowed else e == InputNormalization
    case Number(Float(_)) => e == RawFloat
    case Array(items) => exists i :: 0 <= i < |items| && Offends(items[i], requireUnc1, e)
    case Object(ms) =>
      if HasName(ms, "@num") then !LegalAtom(ms) && e == MalformedNum
      else exists i :: 0 <= i < |ms| && Offends(ms[i].value, requireUnc1, e)
    case _ => false
  }

  lemma {:induction false} NumericErrorOffends(v: Json, requireUnc1: bool)
    requires NamesDistinct(v) && CheckNumeric(v, requireUnc1).Some?
    ensures Offends(v, requireUnc1, CheckNumeric(v, requireUnc1).value)
    decreases v
  {
    hide NumAtom, LegalAtom;
    match v
    case Array(items) => ItemErrorOffends(items, requireUnc1);
    case Object(ms) =>
      AtomCheckIsExact(ms);
      if !HasName(ms, "@num") { MemberErrorOffends(ms, requireUnc1); }
    case _ =>
  }

  lemma {:induction false} ItemErrorOffends(items: seq<Json>, requireUnc1: bool)
    requires (forall i :: 0 <= i < |items| ==> NamesDistinct(items[i])) && CheckItemNumbers(items, requireUnc1).Some?
    ensures exists i :: 0 <= i < |items| && Offends(items[i], requireUnc1, CheckItemNumbers(items, requireUnc1).value)
    decreases items
  {
    hide CheckNumeric, Offends, NamesDistinct;
    var e := CheckItemNumbers(items, requireUnc1).value;
    if CheckNumeric(items[0], requireUnc1).Some? {
      NumericErrorOffends(items[0], requireUnc1);
    } else {
      ItemErrorOffends(items[1..], requireUnc1);
      var i :| 0 <= i < |items[1..]| && Offends(items[1..][i], requireUnc1, e);
      assert Offends(items[i + 1], requireUnc1, e);
    }
  }

  lemma {:induction false} MemberErrorOffends(ms: seq<Member>, requireUnc1: bool)
    requires (forall i :: 0 <= i < |ms| ==> NamesDistinct(ms[i].value)) && CheckMemberNumbers(ms, requireUnc1).Some?
    ensures exists i :: 0 <= i < |ms| && Offends(ms[i].value, requireUnc1, CheckMemberNumbers(ms, requireUnc1).value)
    decreases ms
  {
    hide CheckNumeric, Offends, NamesDistinct;
    var e := CheckMemberNumbers(ms, requireUnc1).value;
    if CheckNumeric(ms[0].value, requireUnc1).Some? {
      NumericErrorOffends(ms[0].value, requireUnc1);
    } else {
      MemberErrorOffends(ms[1..], requireUnc1);
      var i :| 0 <= i < |ms[1..]| && Offends(ms[1..][i].value, requireUnc1, e);
      assert Offends(ms[i + 1].value, requireUnc1, e);
    }
  }

  // ---------------------------------------------------------------- the gate

  /** The body is short enough, is text, parses, and normalises to `v`. */
  ghost predicate Reads(g: Gate, bytes: seq<Byte>, v: Json) {
    |bytes| <= 1_048_576 && Utf8.Decode(bytes).Some? && g.parse(bytes).Some? && Normalize(g.rules, g.parse(bytes).value, None) == Some(v)
  }

  ghost predicate Anchored(v: Json) {
    v.Object? && HasName(v.members, "@type") && HasName(v.members, "@world")
  }

  ghost predicate Structured(v: Json, requireUnc1: bool) {
    Depth(v) <= 32 && ArraysShort(v) && NumbersLegal(v, requireUnc1)
  }

  /** The bytes are the text of an object whose own names are spelled differently. */
  ghost predicate NamesSpelledOnce(bytes: seq<Byte>) {
    exists lead, blank, pairs, trail :: SpellsObject(bytes, lead, blank, pairs, trail) && !KeyScan.TextualDuplicate(pairs)
  }

  lemma ChecksMean(g: Gate, v: Json)
    requires NamesDistinct(v)
    ensures CheckParsed(g, v) == None <==> Anchored(v) && Structured(v, g.requireUnc1) && g.schema(v) == None
    ensures !v.Object? ==> CheckParsed(g, v) == Some(NotObject)
    ensures v.Object? && !Anchored(v) ==> CheckParsed(g, v) == Some(MissingAnchor)
    ensures Anchored(v) && Depth(v) > 32 ==> CheckParsed(g, v) == Some(DepthExceeded)
    ensures Anchored(v) && Depth(v) <= 32 && !ArraysShort(v) ==> CheckParsed(g, v) == Some(ArrayTooLong)
    ensures Anchored(v) && Depth(v) <= 32 && ArraysShort(v) && !NumbersLegal(v, g.requireUnc1) ==>
              CheckParsed(g, v).Some? && Offends(v, g.requireUnc1, CheckParsed(g, v).value)
    ensures Anchored(v) && Structured(v, g.requireUnc1) ==> CheckParsed(g, v) == g.schema(v)
  {
    hide CheckDepth, CheckArrays, CheckNumeric, ArraysShort, NumbersLegal, Offends, Depth, NamesDistinct;
    DepthCheckIsExact(v, 0);
    ArrayCheckIsExact(v);
    NumericCheckIsExact(v, g.requireUnc1);
    if CheckNumeric(v, g.requireUnc1).Some? { NumericErrorOffends(v, g.requireUnc1); }
  }

  lemma ScannerMeans(g: Gate, bytes: seq<Byte>)
    requires ParsesJson(g) && g.parse(bytes).Some? && g.parse(bytes).value.Object?
    ensures KeyScan.ScanText(bytes) == if NamesSpelledOnce(bytes) then KeyScan.Fine else KeyScan.Duplicate
  {
    hide KeyScan.ScanText, KeyScan.TextualDuplicate, KeyScan.Render, KeyScan.Legal;
    assert IsObjectText(bytes);
    var lead, blank, pairs, trail :| SpellsObject(bytes, lead, blank, pairs, trail);
    KeyScan.ScannerDecidesOuterDuplicates(lead, blank, pairs, trail);
    if NamesSpelledOnce(bytes) {
      var lead', blank', pairs', trail' :| SpellsObject(bytes, lead', blank', pairs', trail') && !KeyScan.TextualDuplicate(pairs');
      KeyScan.ScannerDecidesOuterDuplicates(lead', blank', pairs', trail');
    }
  }

  /** What the gate comes to once the body reads as a value. */
  lemma GateOnValue(g: Gate, bytes: seq<Byte>, v: Json)
    requires ParsesJson(g) && Reads(g, bytes, v)
    ensures NamesDistinct(v)
    ensures Knock(g, bytes) ==
            if CheckParsed(g, v).Some? then Rejected(CheckParsed(g, v).value)
            else if NamesSpelledOnce(bytes) then Accepted(v) else Rejected(DuplicateKey)
  {
    hide CheckDepth, CheckArrays, CheckNumeric, KeyScan.ScanText, NamesSpelledOnce, Normalize, Utf8.Decode, NamesDistinct;
    var raw := g.parse(bytes).value;
    NormalizedNamesDistinct(g.rules, raw, None);
    if CheckParsed(g, v) == None {
      NormalizeKeepsKind(g.rules, raw);
      ScannerMeans(g, bytes);
    }
  }

  /**
    The gate accepts exactly the bodies of at most a megabyte of text that normalise to an object with its two
    anchors, nested at most 32 deep, with short arrays and legal numbers, to which the type's schema has no
    objection and whose own names are all spelled differently.
   */
  lemma AcceptsExactly(g: Gate, bytes: seq<Byte>, v: Json)
    requires ParsesJson(g)
    ensures Knock(g, bytes) == Accepted(v)
       <==> Reads(g, bytes, v) && Anchored(v) && Structured(v, g.requireUnc1) && g.schema(v) == None && NamesSpelledOnce(bytes)
  {
    hide CheckParsed, KeyScan.ScanText, NamesSpelledOnce, Normalize, Utf8.Decode, Anchored, Structured, ParsesJson;
    if Knock(g, bytes) == Accepted(v) { assert Reads(g, bytes, v); }
    if Reads(g, bytes, v) {
      GateOnValue(g, bytes, v);
      ChecksMean(g, v);
    }
  }

  /** Of the type's schema: it knows two complaints. */
  ghost predicate SchemaComplains(g: Gate) {
    forall v :: g.schema(v) == None || g.schema(v) == Some(SchemaValidation) || g.schema(v) == Some(MissingAnchor)
  }

  predicate NumberError(e: Error) {
    e == NumericLiteralNotAllowed || e == InputNormalization || e == RawFloat || e == MalformedNum
  }

  lemma NumberErrors(v: Json, requireUnc1: bool, e: Error)
    requires Offends(v, requireUnc1, e)
    ensures NumberError(e)
  {
  }

  /** A body that reads as a value is refused for the first thing that is wrong with it. */
  lemma RefusesValueExactly(g: Gate, bytes: seq<Byte>, v: Json)
    requires ParsesJson(g) && SchemaComplains(g) && Reads(g, bytes, v)
    ensures Knock(g, bytes) == Rejected(NotObject) <==> !v.Object?
    ensures Knock(g, bytes) == Rejected(MissingAnchor)
       <==> v.Object? && (!Anchored(v) || (Structured(v, g.requireUnc1) && g.schema(v) == Some(MissingAnchor)))
    ensures Knock(g, bytes) == Rejected(DepthExceeded) <==> Anchored(v) && Depth(v) > 32
    ensures Knock(g, bytes) == Rejected(ArrayTooLong) <==> Anchored(v) && Depth(v) <= 32 && !ArraysShort(v)
    ensures Knock(g, bytes) == Rejected(SchemaValidation)
       <==> Anchored(v) && Structured(v, g.requireUnc1) && g.schema(v) == Some(SchemaValidation)
    ensures Knock(g, bytes) == Rejected(DuplicateKey)
       <==> Anchored(v) && Structured(v, g.requireUnc1) && g.schema(v) == None && !NamesSpelledOnce(bytes)
    ensures Anchored(v) && Depth(v) <= 32 && ArraysShort(v) && !NumbersLegal(v, g.requireUnc1)
       <==> Knock(g, bytes).Rejected? && Offends(v, g.requireUnc1, Knock(g, bytes).error) && NumberError(Knock(g, bytes).error)
  {
    hide CheckParsed, KeyScan.ScanText, NamesSpelledOnce, Normalize, Utf8.Decode, NumbersLegal, Depth, ArraysShort, Offends, NamesDistinct, Reads, ParsesJson, Knock;
    GateOnValue(g, bytes, v);
    ChecksMean(g, v);
    if Anchored(v) && Depth(v) <= 32 && ArraysShort(v) && !NumbersLegal(v, g.requireUnc1) {
      NumberErrors(v, g.requireUnc1, CheckParsed(g, v).value);
    }
  }

  /** A body that does not is refused for its size, its encoding, its syntax or its normalisation, in this order. */
  lemma RefusesTextExactly(g: Gate, bytes: seq<Byte>)
    requires ParsesJson(g) && SchemaComplains(g)
    ensures Knock(g, bytes) == Rejected(BodyTooLarge) <==> |bytes| > 1_048_576
    ensures Knock(g, bytes) == Rejected(InvalidUtf8) <==> |bytes| <= 1_048_576 && Utf8.Decode(bytes) == None
    ensures |bytes| <= 1_048_576 && Utf8.Decode(bytes).Some? && g.parse(bytes) == None ==> Knock(g, bytes) == Rejected(InputNormalization)
    ensures |bytes| <= 1_048_576 && Utf8.Decode(bytes).Some? && g.parse(bytes).Some? && Normalize(g.rules, g.parse(bytes).value, None) == None ==>
              var f := FirstFault(g.rules, g.parse(bytes).value, None, []);
              f.Some? && Knock(g, bytes) == Rejected(if f.value.collision || PathMentions(f.value) then DuplicateKey else InputNormalization)
  {
    hide CheckParsed, KeyScan.ScanText, NamesSpelledOnce, Normalize, Utf8.Decode, FirstFault, PathMentions, ParsesJson;
    if |bytes| <= 1_048_576 && Utf8.Decode(bytes).Some? && g.parse(bytes).Some? && Normalize(g.rules, g.parse(bytes).value, None).Some? {
      var v := Normalize(g.rules, g.parse(bytes).value, None).value;
      GateOnValue(g, bytes, v);
      ErrorsOfChecks(g, v);
    }
  }

  lemma ErrorsOfChecks(g: Gate, v: Json)
    requires SchemaComplains(g)
    ensures CheckParsed(g, v) != Some(BodyTooLarge) && CheckParsed(g, v) != Some(InvalidUtf8)
  {
    hide CheckDepth, CheckArrays, CheckNumeric;
  }
}
