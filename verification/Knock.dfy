/** The KNOCK gate: raw checks, normalisation, structural checks, and what acceptance promises the encoder. */
module Knock {
  import opened Prelude
  import opened Json
  import opened Normalizer
  import opened Faults
  import KeyScan
  import N = Nrf
  import Utf8

  const MAX_BODY_BYTES: nat := 1_048_576
  const MAX_DEPTH: nat := 32
  const MAX_ARRAY_LEN: nat := 10_000

  datatype Error =
    | BodyTooLarge | DepthExceeded | ArrayTooLong | DuplicateKey | InvalidUtf8 | MissingAnchor | NotObject
    | RawFloat | MalformedNum | NumericLiteralNotAllowed | InputNormalization | SchemaValidation

  datatype Outcome = Accepted(value: Json) | Rejected(error: Error) | Crashed

  /**
    What the gate is built from: the normalisation rules, serde's JSON parser, the type-specific
    schema (which can only reject), and whether integer literals are refused.
   */
  datatype Gate = Gate(
    rules: Rules,
    parse: seq<Byte> -> Option<Json>,
    schema: Json -> Option<Error>,
    requireUnc1: bool)

  // ---------------------------------------------------------------- structural checks

  function CheckDepth(v: Json, depth: nat): (e: Option<Error>)
    ensures e == None || e == Some(DepthExceeded)
    decreases v
  {
    if depth > MAX_DEPTH then Some(DepthExceeded)
    else
      match v
      case Object(ms) => CheckMemberDepths(ms, depth + 1)
      case Array(items) => CheckItemDepths(items, depth + 1)
      case _ => None
  }

  function CheckMemberDepths(ms: seq<Member>, depth: nat): (e: Option<Error>)
    ensures e == None || e == Some(DepthExceeded)
    decreases ms
  {
    if ms == [] then None
    else
      var e := CheckDepth(ms[0].value, depth);
      if e.Some? then e else CheckMemberDepths(ms[1..], depth)
  }

  function CheckItemDepths(items: seq<Json>, depth: nat): (e: Option<Error>)
    ensures e == None || e == Some(DepthExceeded)
    decreases items
  {
    if items == [] then None
    else
      var e := CheckDepth(items[0], depth);
      if e.Some? then e else CheckItemDepths(items[1..], depth)
  }

  function CheckArrays(v: Json): (e: Option<Error>)
    ensures e == None || e == Some(ArrayTooLong)
    decreases v
  {
    match v
    case Array(items) => if |items| > MAX_ARRAY_LEN then Some(ArrayTooLong) else CheckItemArrays(items)
    case Object(ms) => CheckMemberArrays(ms)
    case _ => None
  }

  function CheckItemArrays(items: seq<Json>): (e: Option<Error>)
    ensures e == None || e == Some(ArrayTooLong)
    decreases items
  {
    if items == [] then None
    else
      var e := CheckArrays(items[0]);
      if e.Some? then e else CheckItemArrays(items[1..])
  }

  function CheckMemberArrays(ms: seq<Member>): (e: Option<Error>)
    ensures e == None || e == Some(ArrayTooLong)
    decreases ms
  {
    if ms == [] then None
    else
      var e := CheckArrays(ms[0].value);
      if e.Some? then e else CheckMemberArrays(ms[1..])
  }

  // ---------------------------------------------------------------- numbers

  function Lookup(ms: seq<Member>, k: string): (r: Option<Json>)
    ensures r.Some? <==> HasMember(ms, k)
    ensures r.Some? ==> exists i :: 0 <= i < |ms| && ms[i].key == k && ms[i].value == r.value
  {
    if ms == [] then None else if ms[0].key == k then Some(ms[0].value) else Lookup(ms[1..], k)
  }

  predicate Digits(s: string) {
    s != "" && forall i :: 0 <= i < |s| ==> '0' <= s[i] <= '9'
  }

  predicate BigIntLiteral(s: string) {
    s != "" && Digits(if s[0] == '-' then s[1..] else s)
  }

  predicate ZeroBigInt(s: string) {
    Zeros(if s != "" && s[0] == '-' then s[1..] else s)
  }

  predicate Zeros(t: string) {
    t != "" && forall i :: 0 <= i < |t| ==> t[i] == '0'
  }

  predicate OnlyKeys(ms: seq<Member>, allowed: set<string>) {
    forall i :: 0 <= i < |ms| ==> ms[i].key in allowed
  }

  predicate BigIntField(ms: seq<Member>, k: string) {
    match Lookup(ms, k)
    case Some(Str(s)) => BigIntLiteral(s)
    case _ => false
  }

  /** `as_u64` and then `u32::try_from`. */
  predicate U32Field(ms: seq<Member>, k: string) {
    match Lookup(ms, k)
    case Some(Number(Integer(n))) => 0 <= n < U32
    case _ => false
  }

  predicate OptionalUnit(ms: seq<Member>) {
    match Lookup(ms, "u")
    case None => true
    case Some(v) => v.Str?
  }

  predicate IntAtom(ms: seq<Member>) {
    OnlyKeys(ms, {"@num", "v", "u"}) && BigIntField(ms, "v") && OptionalUnit(ms)
  }

  predicate DecAtom(ms: seq<Member>) {
    OnlyKeys(ms, {"@num", "m", "s", "u"}) && BigIntField(ms, "m") && U32Field(ms, "s") && OptionalUnit(ms)
  }

  predicate RatAtom(ms: seq<Member>) {
    && OnlyKeys(ms, {"@num", "p", "q", "u"}) && BigIntField(ms, "p") && BigIntField(ms, "q")
    && !ZeroBigInt(Lookup(ms, "q").value.s) && OptionalUnit(ms)
  }

  predicate BndAtom(ms: seq<Member>)
    decreases ms, 1
  {
    OnlyKeys(ms, {"@num", "lo", "hi", "u"}) && NumAtomAt(ms, "lo") && NumAtomAt(ms, "hi") && OptionalUnit(ms)
  }

  /** `validate_num_atom`. */
  predicate NumAtom(ms: seq<Member>)
    decreases ms, 2
  {
    match Lookup(ms, "@num")
    case Some(Str(tag)) =>
      if tag == "int/1" then IntAtom(ms)
      else if tag == "dec/1" then DecAtom(ms)
      else if tag == "rat/1" then RatAtom(ms)
      else if tag == "bnd/1" then BndAtom(ms)
      else false
    case _ => false
  }

  /** The member `k` is itself a number atom. */
  predicate NumAtomAt(ms: seq<Member>, k: string)
    decreases ms, 0
  {
    exists i :: 0 <= i < |ms| && ms[i].key == k && Lookup(ms, k) == Some(ms[i].value)
                && ms[i].value.Object? && NumAtom(ms[i].value.members)
  }

  function CheckNumeric(v: Json, requireUnc1: bool): (e: Option<Error>)
    ensures e == None || e.value in {NumericLiteralNotAllowed, InputNormalization, RawFloat, MalformedNum}
    decreases v
  {
    match v
    case Number(n) =>
      if IsI64(n) then (if requireUnc1 then Some(NumericLiteralNotAllowed) else None)
      else if n.Integer? then Some(InputNormalization)
      else Some(RawFloat)
    case Array(items) => CheckItemNumbers(items, requireUnc1)
    case Object(ms) =>
      if HasMember(ms, "@num") then (if NumAtom(ms) then None else Some(MalformedNum))
      else CheckMemberNumbers(ms, requireUnc1)
    case _ => None
  }

  function CheckItemNumbers(items: seq<Json>, requireUnc1: bool): (e: Option<Error>)
    ensures e == None || e.value in {NumericLiteralNotAllowed, InputNormalization, RawFloat, MalformedNum}
    decreases items
  {
    if items == [] then None
    else
      var e := CheckNumeric(items[0], requireUnc1);
      if e.Some? then e else CheckItemNumbers(items[1..], requireUnc1)
  }

  function CheckMemberNumbers(ms: seq<Member>, requireUnc1: bool): (e: Option<Error>)
    ensures e == None || e.value in {NumericLiteralNotAllowed, InputNormalization, RawFloat, MalformedNum}
    decreases ms
  {
    if ms == [] then None
    else
      var e := CheckNumeric(ms[0].value, requireUnc1);
      if e.Some? then e else CheckMemberNumbers(ms[1..], requireUnc1)
  }

  // ---------------------------------------------------------------- the gate

  function CheckParsed(g: Gate, v: Json): Option<Error> {
    if !v.Object? then Some(NotObject)
    else if !HasMember(v.members, "@type") || !HasMember(v.members, "@world") then Some(MissingAnchor)
    else
      var depth := CheckDepth(v, 0);
      if depth.Some? then depth
      else
        var arrays := CheckArrays(v);
        if arrays.Some? then arrays
        else
          var numbers := CheckNumeric(v, g.requireUnc1);
          if numbers.Some? then numbers else g.schema(v)
  }

  /** `map_normalization_error`, which goes by the text of the message. */
  function MapNormalizationError(f: Fault): Error {
    if ReadsAsDuplicate(f) then DuplicateKey else InputNormalization
  }

  /** `knock_with_options` in Reject mode. */
  function Knock(g: Gate, bytes: seq<Byte>): Outcome {
    if |bytes| > MAX_BODY_BYTES then Rejected(BodyTooLarge)
    else if Utf8.Decode(bytes) == None then Rejected(InvalidUtf8)
    else
      match g.parse(bytes)
      case None => Rejected(InputNormalization)
      case Some(raw) =>
        match Normalize(g.rules, raw, None)
        case None => Rejected(MapNormalizationError(FirstFault(g.rules, raw, None, []).value))
        case Some(v) =>
          match CheckParsed(g, v)
          case Some(e) => Rejected(e)
          case None =>
            match KeyScan.ScanText(bytes)
            case Fine => Accepted(v)
            case Duplicate => Rejected(DuplicateKey)
            case Panics => Crashed
  }

  // ---------------------------------------------------------------- what the checks establish

  /** Containers around the innermost value. */
  ghost function Depth(v: Json): nat
    decreases v
  {
    match v
    case Array(items) => if items == [] then 0 else 1 + ItemsDepth(items)
    case Object(ms) => if ms == [] then 0 else 1 + MembersDepth(ms)
    case _ => 0
  }

  ghost function ItemsDepth(items: seq<Json>): nat
    decreases items
  {
    if items == [] then 0 else Max(Depth(items[0]), ItemsDepth(items[1..]))
  }

  ghost function MembersDepth(ms: seq<Member>): nat
    decreases ms
  {
    if ms == [] then 0 else Max(Depth(ms[0].value), MembersDepth(ms[1..]))
  }

  function Max(a: nat, b: nat): nat {
    if a < b then b else a
  }

  /** The depth check accepts exactly the values with at most 32 levels in all. */
  lemma {:induction false} DepthCheckIsExact(v: Json, depth: nat)
    ensures CheckDepth(v, depth) == None <==> depth + Depth(v) <= MAX_DEPTH
    decreases v
  {
    if depth <= MAX_DEPTH {
      match v
      case Array(items) => ItemDepthsExact(items, depth + 1);
      case Object(ms) => MemberDepthsExact(ms, depth + 1);
      case _ =>
    }
  }

  lemma {:induction false} ItemDepthsExact(items: seq<Json>, depth: nat)
    ensures CheckItemDepths(items, depth) == None <==> items == [] || depth + ItemsDepth(items) <= MAX_DEPTH
    decreases items
  {
    if items != [] {
      DepthCheckIsExact(items[0], depth);
      ItemDepthsExact(items[1..], depth);
    }
  }

  lemma {:induction false} MemberDepthsExact(ms: seq<Member>, depth: nat)
    ensures CheckMemberDepths(ms, depth) == None <==> ms == [] || depth + MembersDepth(ms) <= MAX_DEPTH
    decreases ms
  {
    if ms != [] {
      DepthCheckIsExact(ms[0].value, depth);
      MemberDepthsExact(ms[1..], depth);
    }
  }

  /** Every number, at every depth, is an i64. */
  ghost predicate AllI64(v: Json)
    decreases v
  {
    match v
    case Number(n) => IsI64(n)
    case Array(items) => forall i :: 0 <= i < |items| ==> AllI64(items[i])
    case Object(ms) => forall i :: 0 <= i < |ms| ==> AllI64(ms[i].value)
    case _ => true
  }

  /** Every array, at every depth, has at most 10 000 items. */
  ghost predicate ArraysShort(v: Json)
    decreases v
  {
    match v
    case Array(items) => |items| <= 10_000 && forall i :: 0 <= i < |items| ==> ArraysShort(items[i])
    case Object(ms) => forall i :: 0 <= i < |ms| ==> ArraysShort(ms[i].value)
    case _ => true
  }

  lemma {:induction false} ArrayCheckIsExact(v: Json)
    ensures CheckArrays(v) == None <==> ArraysShort(v)
    decreases v
  {
    match v
    case Array(items) =>
      forall i | 0 <= i < |items| ensures CheckArrays(items[i]) == None <==> ArraysShort(items[i]) {
        ArrayCheckIsExact(items[i]);
      }
      ItemArraysAll(items);
    case Object(ms) =>
      forall i | 0 <= i < |ms| ensures CheckArrays(ms[i].value) == None <==> ArraysShort(ms[i].value) {
        ArrayCheckIsExact(ms[i].value);
      }
      MemberArraysAll(ms);
    case _ =>
  }

  lemma {:induction false} ItemArraysAll(items: seq<Json>)
    ensures CheckItemArrays(items) == None <==> forall i :: 0 <= i < |items| ==> CheckArrays(items[i]) == None
  {
    hide CheckArrays;
    if items != [] {
      ItemArraysAll(items[1..]);
      assert items == [items[0]] + items[1..];
    }
  }

  lemma {:induction false} MemberArraysAll(ms: seq<Member>)
    ensures CheckMemberArrays(ms) == None <==> forall i :: 0 <= i < |ms| ==> CheckArrays(ms[i].value) == None
  {
    hide CheckArrays;
    if ms != [] {
      MemberArraysAll(ms[1..]);
      assert ms == [ms[0]] + ms[1..];
    }
  }

  lemma LookupIsTheMember(ms: seq<Member>, i: nat)
    requires DistinctNames(ms) && i < |ms|
    ensures Lookup(ms, ms[i].key) == Some(ms[i].value)
  {
    assert HasMember(ms, ms[i].key);
    var j :| 0 <= j < |ms| && ms[j].key == ms[i].key && ms[j].value == Lookup(ms, ms[i].key).value;
    assert i == j;
  }

  /** What a member of a number atom can be: text, a u32 scale, or a nested atom. */
  ghost predicate AtomPart(v: Json) {
    match v
    case Str(_) => true
    case Number(Integer(n)) => 0 <= n < U32
    case Object(ms) => NumAtom(ms)
    case _ => false
  }

  /** If every allowed field is a legal part, so is every member. */
  lemma PartsByKey(ms: seq<Member>, i: nat, allowed: set<string>)
    requires DistinctNames(ms) && i < |ms| && OnlyKeys(ms, allowed)
    requires forall k :: k in allowed && Lookup(ms, k).Some? ==> AtomPart(Lookup(ms, k).value)
    ensures AtomPart(ms[i].value)
  {
    hide Lookup, AtomPart;
    LookupIsTheMember(ms, i);
    assert ms[i].key in allowed;
  }

  lemma IntAtomParts(ms: seq<Member>, i: nat)
    requires IntAtom(ms) && Lookup(ms, "@num").Some? && Lookup(ms, "@num").value.Str? && DistinctNames(ms) && i < |ms|
    ensures AtomPart(ms[i].value)
  {
    hide BigIntLiteral, Lookup, OnlyKeys, NumAtom;
    PartsByKey(ms, i, {"@num", "v", "u"});
  }

  lemma DecAtomParts(ms: seq<Member>, i: nat)
    requires DecAtom(ms) && Lookup(ms, "@num").Some? && Lookup(ms, "@num").value.Str? && DistinctNames(ms) && i < |ms|
    ensures AtomPart(ms[i].value)
  {
    hide BigIntLiteral, Lookup, OnlyKeys, NumAtom;
    PartsByKey(ms, i, {"@num", "m", "s", "u"});
  }

  lemma RatAtomParts(ms: seq<Member>, i: nat)
    requires RatAtom(ms) && Lookup(ms, "@num").Some? && Lookup(ms, "@num").value.Str? && DistinctNames(ms) && i < |ms|
    ensures AtomPart(ms[i].value)
  {
    hide BigIntLiteral, Lookup, OnlyKeys, NumAtom, ZeroBigInt;
    PartsByKey(ms, i, {"@num", "p", "q", "u"});
  }

  lemma BndAtomParts(ms: seq<Member>, i: nat)
    requires BndAtom(ms) && Lookup(ms, "@num").Some? && Lookup(ms, "@num").value.Str? && DistinctNames(ms) && i < |ms|
    ensures AtomPart(ms[i].value)
  {
    hide Lookup, OnlyKeys, NumAtom;
    assert NumAtomAt(ms, "lo") && NumAtomAt(ms, "hi");
    PartsByKey(ms, i, {"@num", "lo", "hi", "u"});
  }

  lemma AtomParts(ms: seq<Member>, i: nat)
    requires NumAtom(ms) && DistinctNames(ms) && i < |ms|
    ensures AtomPart(ms[i].value)
  {
    hide AtomPart, IntAtom, DecAtom, RatAtom, BndAtom, Lookup;
    if IntAtom(ms) {
      IntAtomParts(ms, i);
    } else if DecAtom(ms) {
      DecAtomParts(ms, i);
    } else if RatAtom(ms) {
      RatAtomParts(ms, i);
    } else {
      BndAtomParts(ms, i);
    }
  }

  /** A legal number atom holds no number outside i64, its nested bounds included. */
  lemma {:induction false} NumAtomIsI64(ms: seq<Member>)
    requires NumAtom(ms) && NamesDistinct(Object(ms))
    ensures AllI64(Object(ms))
    decreases ms
  {
    hide NumAtom;
    forall i | 0 <= i < |ms| ensures AllI64(ms[i].value) {
      AtomParts(ms, i);
      if ms[i].value.Object? { NumAtomIsI64(ms[i].value.members); }
    }
  }

  lemma {:induction false} NumericCheckGivesI64(v: Json, requireUnc1: bool)
    requires NamesDistinct(v) && CheckNumeric(v, requireUnc1) == None
    ensures AllI64(v)
    decreases v
  {
    hide NumAtom;
    match v
    case Array(items) =>
      ItemNumbersAll(items, requireUnc1);
      forall i | 0 <= i < |items| ensures AllI64(items[i]) { NumericCheckGivesI64(items[i], requireUnc1); }
    case Object(ms) =>
      if HasMember(ms, "@num") {
        NumAtomIsI64(ms);
      } else {
        MemberNumbersAll(ms, requireUnc1);
        forall i | 0 <= i < |ms| ensures AllI64(ms[i].value) { NumericCheckGivesI64(ms[i].value, requireUnc1); }
      }
    case _ =>
  }

  lemma {:induction false} ItemNumbersAll(items: seq<Json>, requireUnc1: bool)
    ensures CheckItemNumbers(items, requireUnc1) == None
       <==> forall i :: 0 <= i < |items| ==> CheckNumeric(items[i], requireUnc1) == None
  {
    hide CheckNumeric;
    if items != [] {
      ItemNumbersAll(items[1..], requireUnc1);
      assert items == [items[0]] + items[1..];
    }
  }

  lemma {:induction false} MemberNumbersAll(ms: seq<Member>, requireUnc1: bool)
    ensures CheckMemberNumbers(ms, requireUnc1) == None
       <==> forall i :: 0 <= i < |ms| ==> CheckNumeric(ms[i].value, requireUnc1) == None
  {
    hide CheckNumeric;
    if ms != [] {
      MemberNumbersAll(ms[1..], requireUnc1);
      assert ms == [ms[0]] + ms[1..];
    }
  }

  // ---------------------------------------------------------------- encodability

  /** The part of a normal form that the encoder relies on. */
  ghost predicate RhoClean(nfc: string -> string, v: Json)
    decreases v
  {
    match v
    case Str(s) => RhoString(nfc, s)
    case Array(items) => forall i :: 0 <= i < |items| ==> RhoClean(nfc, items[i])
    case Object(ms) =>
      && DistinctNames(ms)
      && forall i :: 0 <= i < |ms| ==> RhoString(nfc, ms[i].key) && RhoClean(nfc, ms[i].value)
    case _ => true
  }

  lemma {:induction false} NormalFormIsClean(r: Rules, v: Json, parent: Option<string>)
    requires NormalForm(r, v, parent, false)
    ensures RhoClean(r.nfc, v) && NamesDistinct(v)
    decreases v
  {
    match v
    case Array(items) =>
      forall i | 0 <= i < |items| ensures RhoClean(r.nfc, items[i]) && NamesDistinct(items[i]) {
        NormalFormIsClean(r, items[i], None);
      }
    case Object(ms) =>
      forall i | 0 <= i < |ms| ensures RhoClean(r.nfc, ms[i].value) && NamesDistinct(ms[i].value) {
        NormalFormIsClean(r, ms[i].value, Some(ms[i].key));
      }
    case _ =>
  }

  /** The encoder accepts a value whose strings are clean, whose numbers are i64 and whose names are distinct. */
  lemma {:induction false} CleanConverts(nfc: string -> string, v: Json)
    requires RhoClean(nfc, v) && AllI64(v)
    ensures ToNrf(nfc, v).Some?
    decreases v
  {
    match v
    case Array(items) => CleanItemsConvert(nfc, items);
    case Object(ms) => CleanMembersConvert(nfc, ms);
    case _ =>
  }

  lemma {:induction false} CleanItemsConvert(nfc: string -> string, items: seq<Json>)
    requires forall i :: 0 <= i < |items| ==> RhoClean(nfc, items[i]) && AllI64(items[i])
    ensures ToNrfItems(nfc, items).Some?
    decreases items
  {
    hide ToNrf, RhoClean, AllI64;
    if items != [] {
      CleanItemsConvert(nfc, items[..|items| - 1]);
      CleanConverts(nfc, items[|items| - 1]);
    }
  }

  lemma {:induction false} CleanMembersConvert(nfc: string -> string, ms: seq<Member>)
    requires DistinctNames(ms)
    requires forall i :: 0 <= i < |ms| ==> RhoString(nfc, ms[i].key) && RhoClean(nfc, ms[i].value) && AllI64(ms[i].value)
    ensures ToNrfMembers(nfc, ms).Some?
    decreases ms
  {
    hide ToNrf, RhoClean, AllI64, RhoString;
    if ms != [] {
      var last := |ms| - 1;
      CleanMembersConvert(nfc, ms[..last]);
      CleanConverts(nfc, ms[last].value);
      MembersConvert(nfc, ms[..last]);
      var es := ToNrfMembers(nfc, ms[..last]).value;
      forall k | 0 <= k < |es| ensures es[k].key != ms[last].key {
        assert es[k] in es;
        var i :| 0 <= i < last && EntryFrom(nfc, es[k], ms[..last][i]);
      }
    }
  }

  /**
    Whatever KNOCK accepts passes every rho check, nests at most 32 deep, has short
    arrays only, and is accepted by the canonical encoder, number atoms included.
   */
  lemma AcceptanceImpliesEncodable(g: Gate, bytes: seq<Byte>)
    requires Lawful(g.rules)
    requires Knock(g, bytes).Accepted?
    ensures var v := Knock(g, bytes).value;
            && Depth(v) <= MAX_DEPTH && ArraysShort(v) && AllI64(v)
            && NormalForm(g.rules, v, None, false)
            && CanonicalBytes(g.rules.nfc, v).Some?
  {
    hide CheckDepth, CheckArrays, CheckNumeric, Lawful, Utf8.Decode, KeyScan.ScanText;
    var v := Knock(g, bytes).value;
    var raw := g.parse(bytes).value;
    NormalizeReachesNormalForm(g.rules, raw, None, false);
    NormalFormIsClean(g.rules, v, None);
    DepthCheckIsExact(v, 0);
    ArrayCheckIsExact(v);
    NumericCheckGivesI64(v, g.requireUnc1);
    CleanConverts(g.rules.nfc, v);
  }

  // ---------------------------------------------------------------- the gate on JSON text

  /** The text of a JSON object, white space around it included. */
  ghost predicate IsObjectText(bytes: seq<Byte>) {
    exists lead, blank, pairs, trail :: SpellsObject(bytes, lead, blank, pairs, trail)
  }

  ghost predicate SpellsObject(bytes: seq<Byte>, lead: seq<Byte>, blank: seq<Byte>, pairs: seq<KeyScan.Pair>, trail: seq<Byte>) {
    && KeyScan.Space(lead) && KeyScan.Space(trail) && KeyScan.Legal(KeyScan.Object(blank, pairs))
    && bytes == lead + (KeyScan.Render(KeyScan.Object(blank, pairs)) + trail)
  }

  /** On the text of an object the gate never crashes, and refuses it if the outermost object repeats a name. */
  lemma GateOnObjectText(g: Gate, bytes: seq<Byte>, lead: seq<Byte>, blank: seq<Byte>, pairs: seq<KeyScan.Pair>, trail: seq<Byte>)
    requires SpellsObject(bytes, lead, blank, pairs, trail)
    ensures Knock(g, bytes) != Crashed
    ensures KeyScan.TextualDuplicate(pairs) ==> Knock(g, bytes).Rejected?
  {
    hide KeyScan.ScanText, KeyScan.TextualDuplicate, KeyScan.Render, KeyScan.Legal, Utf8.Decode, CheckParsed, Normalize;
    KeyScan.ScannerDecidesOuterDuplicates(lead, blank, pairs, trail);
  }

  /**
    A repeated key is reported for one of three reasons: the scanner saw a repeated name in the text,
    two keys of one object normalise alike, or a key on the way to some other error spells the marker.
   */
  lemma DuplicateKeyHasReason(g: Gate, bytes: seq<Byte>)
    requires forall v :: g.schema(v) != Some(DuplicateKey)
    requires Knock(g, bytes) == Rejected(DuplicateKey)
    ensures var raw := g.parse(bytes).value;
            || KeyScan.ScanText(bytes) == KeyScan.Duplicate
            || KeysMeet(g.rules, raw)
            || (FirstFault(g.rules, raw, None, []).Some? && PathMentions(FirstFault(g.rules, raw, None, []).value))
  {
    hide KeyScan.ScanText, Utf8.Decode, Normalize, KeysMeet, FirstFault, PathMentions, CheckDepth, CheckArrays, CheckNumeric;
    var raw := g.parse(bytes).value;
    if Normalize(g.rules, raw, None).None? {
      var f := FirstFault(g.rules, raw, None, []).value;
      if f.collision { CollisionIsReal(g.rules, raw, None, []); }
    }
  }

  /** What serde's parser takes as an object is the text of one (sections 2 to 7 of RFC 8259). */
  ghost predicate ParsesJson(g: Gate) {
    forall bytes :: g.parse(bytes).Some? && g.parse(bytes).value.Object? ==> IsObjectText(bytes)
  }

  lemma NormalizeKeepsKind(r: Rules, v: Json)
    requires Normalize(r, v, None).Some? && Normalize(r, v, None).value.Object?
    ensures v.Object?
  {
    hide Scalar, AsSet;
  }

  /** So the gate crashes on no bytes at all, and what it accepts repeats no name in its outermost object. */
  lemma GateNeverCrashes(g: Gate, bytes: seq<Byte>)
    requires ParsesJson(g)
    ensures Knock(g, bytes) != Crashed
    ensures Knock(g, bytes).Accepted? ==>
              exists lead, blank, pairs, trail ::
                SpellsObject(bytes, lead, blank, pairs, trail) && !KeyScan.TextualDuplicate(pairs)
  {
    hide KeyScan.ScanText, KeyScan.TextualDuplicate, SpellsObject, Utf8.Decode, Normalize, CheckDepth, CheckArrays, CheckNumeric;
    if Knock(g, bytes).Accepted? || Knock(g, bytes).Crashed? {
      var raw := g.parse(bytes).value;
      NormalizeKeepsKind(g.rules, raw);
      var lead, blank, pairs, trail :| SpellsObject(bytes, lead, blank, pairs, trail);
      GateOnObjectText(g, bytes, lead, blank, pairs, trail);
    }
  }
}
