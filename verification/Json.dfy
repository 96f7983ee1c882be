/**
  JSON values and their conversion to NRF. An object is a list of members in insertion order:
  the workspace builds serde_json with `preserve_order`.
 */
module Json {
  import opened Prelude
  import opened VarInts
  import C = NrfCodec
  import N = Nrf

  /** serde_json's number: an integer that fits i64 or u64, or a float. */
  datatype Num = Integer(n: int) | Float(bits: nat)

  datatype Json =
    | Null
    | Bool(b: bool)
    | Number(num: Num)
    | Str(s: string)
    | Array(items: seq<Json>)
    | Object(members: seq<Member>)

  datatype Member = Member(key: string, value: Json)

  predicate IsI64(n: Num) {
    n.Integer? && I64_MIN <= n.n <= I64_MAX
  }

  predicate HasControl(s: string) {
    exists i :: 0 <= i < |s| && s[i] < ' '
  }

  /** The rho rule for strings and keys: no byte-order mark, no control character, NFC. */
  predicate RhoString(nfc: string -> string, s: string) {
    N.BOM !in s && !HasControl(s) && nfc(s) == s
  }

  /** A member that survives: null values are stripped from maps. */
  predicate Live(m: Member) {
    !m.value.Null?
  }

  function ToNrf(nfc: string -> string, j: Json): Option<N.Value>
    decreases j
  {
    match j
    case Null => Some(N.Null)
    case Bool(b) => Some(N.Bool(b))
    case Number(n) => if IsI64(n) then Some(N.Int(n.n)) else None
    case Str(s) => if RhoString(nfc, s) then Some(N.Str(s)) else None
    case Array(items) =>
      (match ToNrfItems(nfc, items)
       case None => None
       case Some(vs) => Some(N.Array(vs)))
    case Object(ms) =>
      (match ToNrfMembers(nfc, ms)
       case None => None
       case Some(es) => Some(N.Map(es)))
  }

  function ToNrfItems(nfc: string -> string, items: seq<Json>): Option<seq<N.Value>>
    decreases items
  {
    if items == [] then Some([])
    else
      var last := |items| - 1;
      match ToNrfItems(nfc, items[..last])
      case None => None
      case Some(vs) =>
        match ToNrf(nfc, items[last])
        case None => None
        case Some(v) => Some(vs + [v])
  }

  /** The members inserted into a `BTreeMap` one after another. */
  function ToNrfMembers(nfc: string -> string, ms: seq<Member>): Option<seq<N.Entry>>
    decreases ms
  {
    if ms == [] then Some([])
    else
      var last := |ms| - 1;
      match ToNrfMembers(nfc, ms[..last])
      case None => None
      case Some(es) =>
        if !RhoString(nfc, ms[last].key) then None
        else if !Live(ms[last]) then Some(es)
        else
          match ToNrf(nfc, ms[last].value)
          case None => None
          case Some(v) => if N.HasKey(es, ms[last].key) then None else Some(N.Insert(es, ms[last].key, v))
  }

  /** `to_nrf1_bytes`. */
  function CanonicalBytes(nfc: string -> string, j: Json): Option<seq<Byte>> {
    match ToNrf(nfc, j)
    case None => None
    case Some(v) => Some(N.EncodeToVec(v))
  }

  /** Equality up to the order of object members and up to null-valued members, at every depth. */
  ghost predicate Equiv(a: Json, b: Json)
    decreases a
  {
    match (a, b)
    case (Array(xs), Array(ys)) => |xs| == |ys| && forall i :: 0 <= i < |xs| ==> Equiv(xs[i], ys[i])
    case (Object(ms), Object(ns)) =>
      && (forall i :: 0 <= i < |ms| && Live(ms[i]) ==> EquivToSome(ms[i], ns))
      && (forall k :: 0 <= k < |ns| && Live(ns[k]) ==> SomeEquivTo(ms, ns[k]))
    case (_, _) => a == b
  }

  ghost predicate EquivToSome(m: Member, ns: seq<Member>)
    decreases m
  {
    exists k :: 0 <= k < |ns| && Live(ns[k]) && m.key == ns[k].key && Equiv(m.value, ns[k].value)
  }

  ghost predicate SomeEquivTo(ms: seq<Member>, n: Member)
    decreases ms
  {
    exists i :: 0 <= i < |ms| && Live(ms[i]) && ms[i].key == n.key && Equiv(ms[i].value, n.value)
  }

  // ---------------------------------------------------------------- what conversion yields

  lemma {:induction false} ItemsConvert(nfc: string -> string, items: seq<Json>)
    requires ToNrfItems(nfc, items).Some?
    ensures var vs := ToNrfItems(nfc, items).value;
            |vs| == |items| && forall i :: 0 <= i < |items| ==> ToNrf(nfc, items[i]) == Some(vs[i])
    decreases items
  {
    hide ToNrf;
    if items != [] {
      ItemsConvert(nfc, items[..|items| - 1]);
    }
  }

  /** An entry of the map that the members make. */
  ghost predicate EntryFrom(nfc: string -> string, e: N.Entry, m: Member) {
    Live(m) && m.key == e.key && ToNrf(nfc, m.value) == Some(e.value)
  }

  ghost predicate EntryOf(nfc: string -> string, e: N.Entry, ms: seq<Member>) {
    exists i :: 0 <= i < |ms| && EntryFrom(nfc, e, ms[i])
  }

  lemma {:induction false} MembersConvert(nfc: string -> string, ms: seq<Member>)
    requires ToNrfMembers(nfc, ms).Some?
    ensures var es := ToNrfMembers(nfc, ms).value;
            N.SortedKeys(es) && forall e :: e in es <==> EntryOf(nfc, e, ms)
    ensures forall i :: 0 <= i < |ms| ==> RhoString(nfc, ms[i].key)
    ensures forall i :: 0 <= i < |ms| && Live(ms[i]) ==> ToNrf(nfc, ms[i].value).Some?
    decreases ms
  {
    hide ToNrf, N.KeyLess, RhoString;
    var es := ToNrfMembers(nfc, ms).value;
    if ms != [] {
      var last := |ms| - 1;
      MembersConvert(nfc, ms[..last]);
      var front, m := ToNrfMembers(nfc, ms[..last]).value, ms[last];
      assert forall i :: 0 <= i < last ==> ms[..last][i] == ms[i];
      if Live(m) {
        var v := ToNrf(nfc, m.value).value;
        N.InsertProperties(front, m.key, v);
        forall e ensures e in es <==> EntryOf(nfc, e, ms) {
          if EntryOf(nfc, e, ms) {
            var i :| 0 <= i < |ms| && EntryFrom(nfc, e, ms[i]);
            if i < last { assert EntryFrom(nfc, e, ms[..last][i]); }
          }
          if e in es {
            if e == N.Entry(m.key, v) { assert EntryFrom(nfc, e, ms[last]); }
          }
        }
      } else {
        forall e ensures e in es <==> EntryOf(nfc, e, ms) {
          if EntryOf(nfc, e, ms) {
            var i :| 0 <= i < |ms| && EntryFrom(nfc, e, ms[i]);
            assert EntryFrom(nfc, e, ms[..last][i]);
          }
        }
      }
      assert forall i :: 0 <= i < last ==> ms[i] == ms[..last][i];
    }
  }

  /** Conversion yields canonical values whose strings the decoder accepts. */
  lemma {:induction false} ToNrfLegal(nfc: string -> string, j: Json)
    requires ToNrf(nfc, j).Some?
    ensures var v := ToNrf(nfc, j).value; N.Canonical(v) && N.Clean(nfc, v)
    decreases j
  {
    match j
    case Array(items) =>
      ItemsConvert(nfc, items);
      forall i | 0 <= i < |items|
        ensures var v := ToNrf(nfc, items[i]).value; N.Canonical(v) && N.Clean(nfc, v)
      {
        ToNrfLegal(nfc, items[i]);
      }
    case Object(ms) =>
      MembersConvert(nfc, ms);
      var es := ToNrfMembers(nfc, ms).value;
      forall i | 0 <= i < |es|
        ensures N.StringOk(nfc, es[i].key) && N.Canonical(es[i].value) && N.Clean(nfc, es[i].value)
      {
        assert es[i] in es;
        var k :| 0 <= k < |ms| && EntryFrom(nfc, es[i], ms[k]);
        ToNrfLegal(nfc, ms[k].value);
      }
      forall i, k | 0 <= i < k < |es| ensures es[i].key != es[k].key {
        N.KeyLessTotal(es[i].key, es[k].key);
      }
    case _ =>
  }

  /** Two key-ordered entry lists with the same entries are the same list. */
  lemma {:induction false} SortedUnique(xs: seq<N.Entry>, ys: seq<N.Entry>)
    requires N.SortedKeys(xs) && N.SortedKeys(ys)
    requires forall e :: e in xs <==> e in ys
    ensures xs == ys
  {
    hide N.KeyLess;
    assert xs != [] ==> xs[0] in ys;
    assert ys != [] ==> ys[0] in xs;
    if xs != [] && ys != [] {
      assert xs[0] in xs && ys[0] in ys;
      var i :| 0 <= i < |ys| && ys[i] == xs[0];
      var k :| 0 <= k < |xs| && xs[k] == ys[0];
      N.KeyLessTotal(xs[0].key, ys[0].key);
      assert xs[0] == ys[0];
      assert xs == [xs[0]] + xs[1..] && ys == [ys[0]] + ys[1..];
      forall e ensures e in xs[1..] <==> e in ys[1..] {
        N.KeyLessTotal(xs[0].key, xs[0].key);
        if e in xs[1..] {
          var m :| 0 <= m < |xs[1..]| && xs[1..][m] == e;
          assert N.KeyLess(xs[0].key, xs[m + 1].key);
          assert e in ys;
        }
        if e in ys[1..] {
          var m :| 0 <= m < |ys[1..]| && ys[1..][m] == e;
          assert N.KeyLess(ys[0].key, ys[m + 1].key);
          assert e in xs;
        }
      }
      SortedUnique(xs[1..], ys[1..]);
    }
  }

  // ---------------------------------------------------------------- when conversion succeeds

  /** What serde's map type guarantees of an object. */
  predicate DistinctNames(ms: seq<Member>) {
    forall i, j :: 0 <= i < j < |ms| ==> ms[i].key != ms[j].key
  }

  predicate MemberConverts(nfc: string -> string, m: Member) {
    RhoString(nfc, m.key) && (Live(m) ==> ToNrf(nfc, m.value).Some?)
  }

  /** Members with distinct names convert exactly when each of them does. */
  lemma {:induction false} DistinctMembersConvert(nfc: string -> string, ms: seq<Member>)
    requires DistinctNames(ms)
    ensures ToNrfMembers(nfc, ms).Some? <==> forall i :: 0 <= i < |ms| ==> MemberConverts(nfc, ms[i])
    decreases ms
  {
    hide ToNrf, RhoString, N.KeyLess, N.Insert;
    if ms != [] {
      var last := |ms| - 1;
      DistinctMembersConvert(nfc, ms[..last]);
      assert forall i :: 0 <= i < last ==> ms[..last][i] == ms[i];
      if ToNrfMembers(nfc, ms[..last]).Some? {
        MembersConvert(nfc, ms[..last]);
        var es := ToNrfMembers(nfc, ms[..last]).value;
        assert !N.HasKey(es, ms[last].key) by {
          forall k | 0 <= k < |es| ensures es[k].key != ms[last].key {
            assert es[k] in es;
            var i :| 0 <= i < last && EntryFrom(nfc, es[k], ms[..last][i]);
          }
        }
      }
    }
  }

  lemma {:induction false} ItemsConvertExactly(nfc: string -> string, items: seq<Json>)
    ensures ToNrfItems(nfc, items).Some? <==> forall i :: 0 <= i < |items| ==> ToNrf(nfc, items[i]).Some?
    decreases items
  {
    hide ToNrf;
    if items != [] {
      var last := |items| - 1;
      ItemsConvertExactly(nfc, items[..last]);
      assert forall i :: 0 <= i < last ==> items[..last][i] == items[i];
    }
  }

  /** Every text, array and object in the value is shorter than 2^32. */
  ghost predicate Short(j: Json)
    decreases j
  {
    match j
    case Str(s) => N.TextFits(s)
    case Array(items) => |items| < U32 && forall i :: 0 <= i < |items| ==> Short(items[i])
    case Object(ms) => |ms| < U32 && forall i :: 0 <= i < |ms| ==> N.TextFits(ms[i].key) && Short(ms[i].value)
    case _ => true
  }

  lemma {:induction false} EntriesAtMostMembers(nfc: string -> string, ms: seq<Member>)
    requires ToNrfMembers(nfc, ms).Some?
    ensures |ToNrfMembers(nfc, ms).value| <= |ms|
    decreases ms
  {
    hide ToNrf, RhoString;
    if ms != [] { EntriesAtMostMembers(nfc, ms[..|ms| - 1]); }
  }

  /** Short values convert to values whose lengths fit the 32-bit prefixes. */
  lemma {:induction false} ShortFits(nfc: string -> string, j: Json)
    requires Short(j) && ToNrf(nfc, j).Some?
    ensures N.Fits(ToNrf(nfc, j).value)
    decreases j
  {
    hide ToNrfItems, ToNrfMembers, RhoString, N.TextFits;
    match j
    case Array(items) =>
      ItemsConvert(nfc, items);
      forall i | 0 <= i < |items| ensures N.Fits(ToNrf(nfc, items[i]).value) { ShortFits(nfc, items[i]); }
    case Object(ms) =>
      MembersConvert(nfc, ms);
      EntriesAtMostMembers(nfc, ms);
      var es := ToNrfMembers(nfc, ms).value;
      forall k | 0 <= k < |es| ensures N.TextFits(es[k].key) && N.Fits(es[k].value) {
        assert es[k] in es;
        var i :| 0 <= i < |ms| && EntryFrom(nfc, es[k], ms[i]);
        ShortFits(nfc, ms[i].value);
      }
    case _ =>
  }

  // ---------------------------------------------------------------- the loops of the converter

  lemma {:induction false} ItemsFailEarly(nfc: string -> string, items: seq<Json>, k: nat)
    requires k <= |items| && ToNrfItems(nfc, items[..k]) == None
    ensures ToNrfItems(nfc, items) == None
    decreases |items| - k
  {
    hide ToNrf;
    if k == |items| {
      assert items[..k] == items;
    } else {
      assert items[..k + 1][..k] == items[..k];
      ItemsFailEarly(nfc, items, k + 1);
    }
  }

  lemma {:induction false} MembersFailEarly(nfc: string -> string, ms: seq<Member>, k: nat)
    requires k <= |ms| && ToNrfMembers(nfc, ms[..k]) == None
    ensures ToNrfMembers(nfc, ms) == None
    decreases |ms| - k
  {
    hide ToNrf, N.Insert;
    if k == |ms| {
      assert ms[..k] == ms;
    } else {
      assert ms[..k + 1][..k] == ms[..k];
      MembersFailEarly(nfc, ms, k + 1);
    }
  }

  /** `json_to_nrf_with_path`, without the path that its errors carry. */
  method JsonToNrf(nfc: string -> string, j: Json) returns (r: Option<N.Value>)
    ensures r == ToNrf(nfc, j)
    decreases j
  {
    match j
    case Null => return Some(N.Null);
    case Bool(b) => return Some(N.Bool(b));
    case Number(n) =>
      if IsI64(n) { return Some(N.Int(n.n)); }
      return None;
    case Str(s) =>
      if RhoString(nfc, s) { return Some(N.Str(s)); }
      return None;
    case Array(items) =>
      var out := [];
      for k := 0 to |items|
        invariant ToNrfItems(nfc, items[..k]) == Some(out)
      {
        var v := JsonToNrf(nfc, items[k]);
        assert items[..k + 1][..k] == items[..k];
        if v == None {
          ItemsFailEarly(nfc, items, k + 1);
          return None;
        }
        out := out + [v.value];
      }
      assert items[..|items|] == items;
      return Some(N.Array(out));
    case Object(ms) =>
      var bt := ConvertMembers(nfc, ms);
      if bt == None { return None; }
      return Some(N.Map(bt.value));
  }

  method ConvertMembers(nfc: string -> string, ms: seq<Member>) returns (r: Option<seq<N.Entry>>)
    ensures r == ToNrfMembers(nfc, ms)
    decreases ms
  {
    hide ToNrf, RhoString, N.Insert;
    var bt: seq<N.Entry> := [];
    for k := 0 to |ms|
      invariant ToNrfMembers(nfc, ms[..k]) == Some(bt)
    {
      assert ms[..k + 1][..k] == ms[..k];
      if !RhoString(nfc, ms[k].key) {
        MembersFailEarly(nfc, ms, k + 1);
        return None;
      }
      if ms[k].value.Null? { continue; }
      var v := JsonToNrf(nfc, ms[k].value);
      if v == None || N.HasKey(bt, ms[k].key) {
        MembersFailEarly(nfc, ms, k + 1);
        return None;
      }
      bt := N.Insert(bt, ms[k].key, v.value);
    }
    assert ms[..|ms|] == ms;
    return Some(bt);
  }

  // ---------------------------------------------------------------- equal conversions

  lemma {:induction false} EqualConversionsAreEquivalent(nfc: string -> string, a: Json, b: Json)
    requires ToNrf(nfc, a).Some? && ToNrf(nfc, a) == ToNrf(nfc, b)
    ensures Equiv(a, b)
    decreases a, 1
  {
    hide ToNrfItems, ToNrfMembers, RhoString;
    match (a, b)
    case (Array(xs), Array(ys)) =>
      ItemsConvert(nfc, xs);
      ItemsConvert(nfc, ys);
      forall i | 0 <= i < |xs| ensures Equiv(xs[i], ys[i]) {
        EqualConversionsAreEquivalent(nfc, xs[i], ys[i]);
      }
    case (Object(ms), Object(ns)) =>
      forall i | 0 <= i < |ms| && Live(ms[i]) ensures EquivToSome(ms[i], ns) {
        var k := EqualConversionPartner(nfc, ms, ns, i);
        EqualConversionsAreEquivalent(nfc, ms[i].value, ns[k].value);
      }
      forall k | 0 <= k < |ns| && Live(ns[k]) ensures SomeEquivTo(ms, ns[k]) {
        var i := EqualConversionPartner(nfc, ns, ms, k);
        EqualConversionsAreEquivalent(nfc, ms[i].value, ns[k].value);
      }
    case (_, _) =>
  }

  /** Under equal conversions every live member has a partner of its key and conversion. */
  lemma EqualConversionPartner(nfc: string -> string, ms: seq<Member>, ns: seq<Member>, i: nat) returns (k: nat)
    requires ToNrfMembers(nfc, ms).Some? && ToNrfMembers(nfc, ms) == ToNrfMembers(nfc, ns)
    requires i < |ms| && Live(ms[i])
    ensures k < |ns| && Live(ns[k]) && ms[i].key == ns[k].key
    ensures ToNrf(nfc, ms[i].value).Some? && ToNrf(nfc, ms[i].value) == ToNrf(nfc, ns[k].value)
  {
    hide ToNrf, ToNrfMembers, RhoString;
    MembersConvert(nfc, ms);
    MembersConvert(nfc, ns);
    var e := N.Entry(ms[i].key, ToNrf(nfc, ms[i].value).value);
    assert EntryFrom(nfc, e, ms[i]);
    assert EntryOf(nfc, e, ns);
    k :| 0 <= k < |ns| && EntryFrom(nfc, e, ns[k]);
  }

  /** The partners that equivalence gives a member of either object. */
  lemma EquivLeft(ms: seq<Member>, ns: seq<Member>, i: nat) returns (k: nat)
    requires Equiv(Object(ms), Object(ns)) && i < |ms| && Live(ms[i])
    ensures k < |ns| && Live(ns[k]) && ms[i].key == ns[k].key && Equiv(ms[i].value, ns[k].value)
  {
    assert EquivToSome(ms[i], ns);
    k :| 0 <= k < |ns| && Live(ns[k]) && ms[i].key == ns[k].key && Equiv(ms[i].value, ns[k].value);
  }

  lemma EquivRight(ms: seq<Member>, ns: seq<Member>, k: nat) returns (i: nat)
    requires Equiv(Object(ms), Object(ns)) && k < |ns| && Live(ns[k])
    ensures i < |ms| && Live(ms[i]) && ms[i].key == ns[k].key && Equiv(ms[i].value, ns[k].value)
  {
    assert SomeEquivTo(ms, ns[k]);
    i :| 0 <= i < |ms| && Live(ms[i]) && ms[i].key == ns[k].key && Equiv(ms[i].value, ns[k].value);
  }

  lemma EquivShape(a: Json, b: Json)
    requires Equiv(a, b)
    ensures match (a, b)
            case (Array(xs), Array(ys)) => |xs| == |ys| && forall i :: 0 <= i < |xs| ==> Equiv(xs[i], ys[i])
            case (Object(_), Object(_)) => true
            case (_, _) => a == b
  {
  }

  lemma {:induction false} EquivalentConversionsAreEqual(nfc: string -> string, a: Json, b: Json)
    requires ToNrf(nfc, a).Some? && ToNrf(nfc, b).Some? && Equiv(a, b)
    ensures ToNrf(nfc, a) == ToNrf(nfc, b)
    decreases a
  {
    hide ToNrfItems, ToNrfMembers, RhoString, Equiv;
    EquivShape(a, b);
    match (a, b)
    case (Array(xs), Array(ys)) =>
      ItemsConvert(nfc, xs);
      ItemsConvert(nfc, ys);
      forall i | 0 <= i < |xs| ensures ToNrf(nfc, xs[i]) == ToNrf(nfc, ys[i]) {
        EquivalentConversionsAreEqual(nfc, xs[i], ys[i]);
      }
      assert ToNrfItems(nfc, xs).value == ToNrfItems(nfc, ys).value;
    case (Object(ms), Object(ns)) =>
      MembersConvert(nfc, ms);
      MembersConvert(nfc, ns);
      forall i | 0 <= i < |ms| && Live(ms[i]) ensures HasPartner(nfc, ms[i], ns) {
        var k := EquivLeft(ms, ns, i);
        EquivalentConversionsAreEqual(nfc, ms[i].value, ns[k].value);
        assert Partners(nfc, ms[i], ns[k]);
      }
      forall k | 0 <= k < |ns| && Live(ns[k]) ensures HasPartner(nfc, ns[k], ms) {
        var i := EquivRight(ms, ns, k);
        EquivalentConversionsAreEqual(nfc, ms[i].value, ns[k].value);
        assert Partners(nfc, ns[k], ms[i]);
      }
      PartnersInclude(nfc, ms, ns);
      PartnersInclude(nfc, ns, ms);
      SortedUnique(ToNrfMembers(nfc, ms).value, ToNrfMembers(nfc, ns).value);
    case (_, _) =>
  }

  /** Two live members of one key and one conversion. */
  ghost predicate Partners(nfc: string -> string, m: Member, n: Member) {
    Live(n) && m.key == n.key && ToNrf(nfc, m.value) == ToNrf(nfc, n.value)
  }

  ghost predicate HasPartner(nfc: string -> string, m: Member, ns: seq<Member>) {
    exists k :: 0 <= k < |ns| && Partners(nfc, m, ns[k])
  }

  lemma PartnersInclude(nfc: string -> string, ms: seq<Member>, ns: seq<Member>)
    requires ToNrfMembers(nfc, ms).Some? && ToNrfMembers(nfc, ns).Some?
    requires forall i :: 0 <= i < |ms| && Live(ms[i]) ==> HasPartner(nfc, ms[i], ns)
    ensures forall e :: e in ToNrfMembers(nfc, ms).value ==> e in ToNrfMembers(nfc, ns).value
  {
    hide ToNrf, ToNrfMembers, RhoString;
    MembersConvert(nfc, ms);
    MembersConvert(nfc, ns);
    forall e | EntryOf(nfc, e, ms) ensures EntryOf(nfc, e, ns) {
      var i :| 0 <= i < |ms| && EntryFrom(nfc, e, ms[i]);
      var k :| 0 <= k < |ns| && Partners(nfc, ms[i], ns[k]);
      assert EntryFrom(nfc, e, ns[k]);
    }
  }

  /** Canonical bytes decide equivalence, for values whose lengths fit the 32-bit prefixes. */
  lemma BytesDecideEquivalence(nfc: string -> string, a: Json, b: Json)
    requires ToNrf(nfc, a).Some? && N.Fits(ToNrf(nfc, a).value)
    requires ToNrf(nfc, b).Some? && N.Fits(ToNrf(nfc, b).value)
    ensures CanonicalBytes(nfc, a) == CanonicalBytes(nfc, b) <==> Equiv(a, b)
  {
    var x, y := ToNrf(nfc, a).value, ToNrf(nfc, b).value;
    if Equiv(a, b) {
      EquivalentConversionsAreEqual(nfc, a, b);
    }
    if CanonicalBytes(nfc, a) == CanonicalBytes(nfc, b) {
      assert N.Encode(x) == N.EncodeToVec(x)[4..] == N.EncodeToVec(y)[4..] == N.Encode(y);
      N.PrefixFree(x, [], y, []);
      EqualConversionsAreEquivalent(nfc, a, b);
    }
  }

  /** The same for values that are short as they stand. */
  lemma ShortBytesDecideEquivalence(nfc: string -> string, a: Json, b: Json)
    requires ToNrf(nfc, a).Some? && ToNrf(nfc, b).Some? && Short(a) && Short(b)
    ensures CanonicalBytes(nfc, a) == CanonicalBytes(nfc, b) <==> Equiv(a, b)
  {
    hide ToNrf, Short, Equiv, CanonicalBytes;
    ShortFits(nfc, a);
    ShortFits(nfc, b);
    BytesDecideEquivalence(nfc, a, b);
  }

  // ---------------------------------------------------------------- the collision past 32 bits

  function Nulls(n: nat): (r: seq<Json>)
    ensures |r| == n
  {
    if n == 0 then [] else Nulls(n - 1) + [Null]
  }

  function NrfNulls(n: nat): (r: seq<N.Value>)
    ensures |r| == n
  {
    if n == 0 then [] else NrfNulls(n - 1) + [N.Null]
  }

  function Zeros(n: nat): (r: seq<Byte>)
    ensures |r| == n
  {
    if n == 0 then [] else Zeros(n - 1) + [0]
  }

  lemma ItemsSnoc(nfc: string -> string, front: seq<Json>, vs: seq<N.Value>, j: Json, v: N.Value)
    requires ToNrfItems(nfc, front) == Some(vs) && ToNrf(nfc, j) == Some(v)
    ensures ToNrfItems(nfc, front + [j]) == Some(vs + [v])
  {
    hide ToNrf;
    assert (front + [j])[..|front|] == front;
  }

  lemma {:induction false} NullsConvert(nfc: string -> string, front: seq<Json>, vs: seq<N.Value>, n: nat)
    requires ToNrfItems(nfc, front) == Some(vs)
    ensures ToNrfItems(nfc, front + Nulls(n)) == Some(vs + NrfNulls(n))
  {
    hide ToNrfItems;
    if n == 0 {
      assert front + Nulls(n) == front && vs + NrfNulls(n) == vs;
    } else {
      NullsConvert(nfc, front, vs, n - 1);
      ItemsSnoc(nfc, front + Nulls(n - 1), vs + NrfNulls(n - 1), Null, N.Null);
      assert front + Nulls(n) == front + Nulls(n - 1) + [Null];
      assert vs + NrfNulls(n) == vs + NrfNulls(n - 1) + [N.Null];
    }
  }

  lemma {:induction false} NullsEncode(n: nat)
    ensures N.EncodeItems(NrfNulls(n)) == Zeros(n)
  {
    if n > 0 {
      NullsEncode(n - 1);
      C.EncodeItemsSnoc(NrfNulls(n - 1), N.Null);
    }
  }

  /** Two arrays that differ, one holding an array of 2^32 nulls. */
  function LongInner(): Json {
    Array([Array(Nulls(U32))] + Nulls(1))
  }

  function LongOuter(): Json {
    Array([Array([])] + Nulls(U32 + 1))
  }

  /** An array of `n` nulls, then `m` more values, all nulls, in one array. */
  lemma NestedNulls(nfc: string -> string, n: nat, m: nat)
    ensures CanonicalBytes(nfc, Array([Array(Nulls(n))] + Nulls(m)))
         == Some(N.MAGIC + ([0x06] + (Varint((m + 1) % U32) + ([0x06] + (Varint(n % U32) + Zeros(n)) + Zeros(m)))))
  {
    hide Varint, Zeros, Nulls, NrfNulls, N.EncodeItems, ToNrfItems;
    NoItems(nfc);
    NullsConvert(nfc, [], [], n);
    assert [] + Nulls(n) == Nulls(n) && [] + NrfNulls(n) == NrfNulls(n);
    var x := N.Array(NrfNulls(n));
    assert ToNrf(nfc, Array(Nulls(n))) == Some(x);
    ItemsSnoc(nfc, [], [], Array(Nulls(n)), x);
    assert [] + [Array(Nulls(n))] == [Array(Nulls(n))] && [] + [x] == [x];
    NullsConvert(nfc, [Array(Nulls(n))], [x], m);
    NullsEncode(n);
    NullsEncode(m);
    ItemsCons(x, NrfNulls(m));
  }

  lemma NoItems(nfc: string -> string)
    ensures ToNrfItems(nfc, []) == Some([])
  {
  }

  lemma ItemsCons(v: N.Value, vs: seq<N.Value>)
    ensures N.EncodeItems([v] + vs) == N.Encode(v) + N.EncodeItems(vs)
  {
    assert ([v] + vs)[1..] == vs;
  }

  /** Without that bound two different values can share their canonical bytes. */
  lemma BytesCollidePast32Bits(nfc: string -> string)
    ensures CanonicalBytes(nfc, LongInner()).Some?
    ensures CanonicalBytes(nfc, LongInner()) == CanonicalBytes(nfc, LongOuter())
    ensures !Equiv(LongInner(), LongOuter())
  {
    hide Varint, Nulls;
    NestedNulls(nfc, U32, 1);
    NestedNulls(nfc, 0, U32 + 1);
    assert Nulls(0) == [];
    assert Zeros(0) == [] && Zeros(1) == [0];
    ZerosSplit(U32);
    var head := [0x06 as Byte] + Varint(0);
    assert [0x06 as Byte] + (Varint(0) + Zeros(U32)) + Zeros(1) == head + Zeros(U32 + 1);
    assert [0x06 as Byte] + (Varint(0) + Zeros(0)) + Zeros(U32 + 1) == head + Zeros(U32 + 1);
  }

  lemma ZerosSplit(n: nat)
    ensures Zeros(n + 1) == Zeros(n) + [0]
  {
  }
}
