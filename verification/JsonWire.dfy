/** What canonical bytes stand for: the JSON value read back from them, and the bytes of each kind of value. */
module JsonWire {
  import opened Prelude
  import opened VarInts
  import opened Json
  import N = Nrf
  import Utf8

  // ---------------------------------------------------------------- reading back

  /** JSON has no byte strings. */
  ghost predicate BytesFree(v: N.Value)
    decreases v
  {
    match v
    case Bytes(_) => false
    case Array(items) => forall i :: 0 <= i < |items| ==> BytesFree(items[i])
    case Map(es) => forall i :: 0 <= i < |es| ==> BytesFree(es[i].value)
    case _ => true
  }

  /** The JSON value that an NRF value stands for. */
  ghost function FromNrf(v: N.Value): Json
    requires BytesFree(v)
    decreases v
  {
    match v
    case Null => Null
    case Bool(b) => Bool(b)
    case Int(i) => Number(Integer(i))
    case Str(s) => Str(s)
    case Array(items) => Array(seq(|items|, i requires 0 <= i < |items| => FromNrf(items[i])))
    case Map(es) => Object(seq(|es|, i requires 0 <= i < |es| => Member(es[i].key, FromNrf(es[i].value))))
  }

  lemma OnlyNullReadsNull(v: N.Value)
    requires BytesFree(v)
    ensures FromNrf(v).Null? <==> v.Null?
  {
  }

  lemma {:induction false} LiveValuesConvertToLive(nfc: string -> string, j: Json)
    requires ToNrf(nfc, j).Some? && !j.Null?
    ensures !ToNrf(nfc, j).value.Null?
  {
    hide ToNrfItems, ToNrfMembers, RhoString;
  }

  lemma {:induction false} ConversionIsBytesFree(nfc: string -> string, j: Json)
    requires ToNrf(nfc, j).Some?
    ensures BytesFree(ToNrf(nfc, j).value)
    decreases j
  {
    hide ToNrfItems, ToNrfMembers, RhoString;
    match j
    case Array(items) =>
      ItemsConvert(nfc, items);
      forall i | 0 <= i < |items| ensures BytesFree(ToNrf(nfc, items[i]).value) { ConversionIsBytesFree(nfc, items[i]); }
    case Object(ms) =>
      MembersConvert(nfc, ms);
      var es := ToNrfMembers(nfc, ms).value;
      forall k | 0 <= k < |es| ensures BytesFree(es[k].value) {
        assert es[k] in es;
        var i :| 0 <= i < |ms| && EntryFrom(nfc, es[k], ms[i]);
        ConversionIsBytesFree(nfc, ms[i].value);
      }
    case _ =>
  }

  /** Conversion keeps the value, up to the order of members and null members. */
  lemma {:induction false} ConversionReadsBack(nfc: string -> string, j: Json)
    requires ToNrf(nfc, j).Some?
    ensures BytesFree(ToNrf(nfc, j).value) && Equiv(FromNrf(ToNrf(nfc, j).value), j)
    decreases j
  {
    hide ToNrfItems, ToNrfMembers, RhoString;
    ConversionIsBytesFree(nfc, j);
    match j
    case Array(items) =>
      ItemsConvert(nfc, items);
      forall i | 0 <= i < |items| ensures Equiv(FromNrf(ToNrf(nfc, items[i]).value), items[i]) { ConversionReadsBack(nfc, items[i]); }
    case Object(ms) =>
      var es := ToNrfMembers(nfc, ms).value;
      var back := FromNrf(N.Map(es)).members;
      forall k | 0 <= k < |back| && Live(back[k]) ensures EquivToSome(back[k], ms) {
        var i := EntryHasMember(nfc, ms, k);
        ConversionReadsBack(nfc, ms[i].value);
      }
      forall i | 0 <= i < |ms| && Live(ms[i]) ensures SomeEquivTo(back, ms[i]) {
        var k := MemberHasEntry(nfc, ms, i);
        ConversionReadsBack(nfc, ms[i].value);
        LiveValuesConvertToLive(nfc, ms[i].value);
        OnlyNullReadsNull(es[k].value);
        assert Live(back[k]) && back[k].key == ms[i].key && Equiv(back[k].value, ms[i].value);
      }
    case _ =>
  }

  lemma EntryHasMember(nfc: string -> string, ms: seq<Member>, k: nat) returns (i: nat)
    requires ToNrfMembers(nfc, ms).Some? && k < |ToNrfMembers(nfc, ms).value|
    ensures i < |ms| && EntryFrom(nfc, ToNrfMembers(nfc, ms).value[k], ms[i])
  {
    hide ToNrf, ToNrfMembers, RhoString;
    MembersConvert(nfc, ms);
    var e := ToNrfMembers(nfc, ms).value[k];
    assert e in ToNrfMembers(nfc, ms).value;
    i :| 0 <= i < |ms| && EntryFrom(nfc, e, ms[i]);
  }

  lemma MemberHasEntry(nfc: string -> string, ms: seq<Member>, i: nat) returns (k: nat)
    requires ToNrfMembers(nfc, ms).Some? && i < |ms| && Live(ms[i])
    ensures k < |ToNrfMembers(nfc, ms).value| && EntryFrom(nfc, ToNrfMembers(nfc, ms).value[k], ms[i])
  {
    hide ToNrf, ToNrfMembers, RhoString;
    MembersConvert(nfc, ms);
    var es := ToNrfMembers(nfc, ms).value;
    var e := N.Entry(ms[i].key, ToNrf(nfc, ms[i].value).value);
    assert EntryFrom(nfc, e, ms[i]);
    assert e in es;
    k :| 0 <= k < |es| && es[k] == e;
  }

  /** Decoding the canonical bytes of a value gives the value back, up to the order of members and null members. */
  lemma CanonicalBytesDecode(nfc: string -> string, j: Json)
    requires ToNrf(nfc, j).Some? && N.Fits(ToNrf(nfc, j).value)
    ensures var back := N.DecodeFromSlice(nfc, CanonicalBytes(nfc, j).value);
            back.Some? && BytesFree(back.value) && Equiv(FromNrf(back.value), j)
  {
    hide ToNrf, N.DecodeFromSlice, N.EncodeToVec, Equiv;
    ToNrfLegal(nfc, j);
    N.DecodeUndoesEncode(nfc, ToNrf(nfc, j).value);
    ConversionReadsBack(nfc, j);
  }

  // ---------------------------------------------------------------- which values convert

  /** Numbers are i64, strings and keys are clean, null members' keys too, and no two live members share a key. */
  ghost predicate Convertible(nfc: string -> string, j: Json)
    decreases j
  {
    match j
    case Null => true
    case Bool(_) => true
    case Number(Integer(n)) => -0x8000_0000_0000_0000 <= n <= 0x7fff_ffff_ffff_ffff
    case Number(Float(_)) => false
    case Str(s) => CleanText(nfc, s)
    case Array(items) => forall i :: 0 <= i < |items| ==> Convertible(nfc, items[i])
    case Object(ms) =>
      && (forall i :: 0 <= i < |ms| ==> CleanText(nfc, ms[i].key))
      && (forall i :: 0 <= i < |ms| && !ms[i].value.Null? ==> Convertible(nfc, ms[i].value))
      && LiveNamesDistinct(ms)
  }

  ghost predicate CleanText(nfc: string -> string, s: string) {
    nfc(s) == s && forall i :: 0 <= i < |s| ==> s[i] as int >= 32 && s[i] as int != 0xFEFF
  }

  ghost predicate LiveNamesDistinct(ms: seq<Member>) {
    forall i, k :: 0 <= i < k < |ms| && !ms[i].value.Null? && !ms[k].value.Null? ==> ms[i].key != ms[k].key
  }

  lemma CleanTextIsRho(nfc: string -> string, s: string)
    ensures CleanText(nfc, s) <==> RhoString(nfc, s)
  {
    if CleanText(nfc, s) {
      assert N.BOM as int == 0xFEFF;
    }
  }

  /** A value has canonical bytes exactly when every part of it is legal. */
  lemma {:induction false} ConvertsExactly(nfc: string -> string, j: Json)
    ensures CanonicalBytes(nfc, j).Some? <==> Convertible(nfc, j)
    ensures ToNrf(nfc, j).Some? <==> Convertible(nfc, j)
    decreases j
  {
    hide ToNrfItems, ToNrfMembers, RhoString, CleanText, N.EncodeToVec;
    match j
    case Str(s) => CleanTextIsRho(nfc, s);
    case Array(items) =>
      ItemsConvertExactly(nfc, items);
      forall i | 0 <= i < |items| ensures ToNrf(nfc, items[i]).Some? <==> Convertible(nfc, items[i]) { ConvertsExactly(nfc, items[i]); }
    case Object(ms) =>
      forall i | 0 <= i < |ms|
        ensures (ToNrf(nfc, ms[i].value).Some? <==> Convertible(nfc, ms[i].value)) && (CleanText(nfc, ms[i].key) <==> RhoString(nfc, ms[i].key))
      {
        ConvertsExactly(nfc, ms[i].value);
        CleanTextIsRho(nfc, ms[i].key);
      }
      MembersConvertExactly(nfc, ms);
    case _ =>
  }

  lemma {:induction false} MembersConvertExactly(nfc: string -> string, ms: seq<Member>)
    ensures ToNrfMembers(nfc, ms).Some?
       <==> LiveNamesDistinct(ms) && forall i :: 0 <= i < |ms| ==> MemberConverts(nfc, ms[i])
    decreases ms
  {
    hide ToNrf, RhoString, N.Insert, N.KeyLess;
    if ms != [] {
      var last := |ms| - 1;
      var front := ms[..last];
      MembersConvertExactly(nfc, front);
      assert forall i :: 0 <= i < last ==> front[i] == ms[i];
      if ToNrfMembers(nfc, front).Some? && Live(ms[last]) {
        TakenExactly(nfc, front, ms[last].key);
      }
    }
  }

  lemma TakenExactly(nfc: string -> string, ms: seq<Member>, key: string)
    requires ToNrfMembers(nfc, ms).Some?
    ensures N.HasKey(ToNrfMembers(nfc, ms).value, key) <==> exists i :: 0 <= i < |ms| && Live(ms[i]) && ms[i].key == key
  {
    hide ToNrf, ToNrfMembers, RhoString;
    var es := ToNrfMembers(nfc, ms).value;
    if k :| 0 <= k < |es| && es[k].key == key {
      var i := EntryHasMember(nfc, ms, k);
    }
    if i :| 0 <= i < |ms| && Live(ms[i]) && ms[i].key == key {
      var k := MemberHasEntry(nfc, ms, i);
    }
  }

  // ---------------------------------------------------------------- the bytes of each kind

  /** The number that bytes spell, the most significant first. */
  ghost function Unsigned(bs: seq<Byte>): nat {
    if bs == [] then 0 else bs[0] * N.Pow256(|bs| - 1) + Unsigned(bs[1..])
  }

  /** Two's complement: the top bit weighs against the number. */
  ghost function Signed(bs: seq<Byte>): int
    requires |bs| == 8
  {
    if bs[0] < 128 then Unsigned(bs) else Unsigned(bs) - 0x1_0000_0000_0000_0000
  }

  lemma {:induction false} UnsignedSnoc(bs: seq<Byte>, b: Byte)
    ensures Unsigned(bs + [b]) == Unsigned(bs) * 256 + b
  {
    if bs == [] {
      assert bs + [b] == [b] && [b][1..] == [] && N.Pow256(0) == 1;
    } else {
      UnsignedSnoc(bs[1..], b);
      assert (bs + [b])[1..] == bs[1..] + [b];
      assert N.Pow256(|bs|) == 256 * N.Pow256(|bs| - 1);
      assert bs[0] * N.Pow256(|bs|) == bs[0] * N.Pow256(|bs| - 1) * 256;
    }
  }

  lemma {:induction false} UnsignedIsBigEndian(bs: seq<Byte>)
    ensures Unsigned(bs) == N.FromBigEndian(bs)
  {
    if bs != [] {
      var last := |bs| - 1;
      UnsignedIsBigEndian(bs[..last]);
      UnsignedSnoc(bs[..last], bs[last]);
      assert bs == bs[..last] + [bs[last]];
    }
  }

  lemma TopBitIsSign(bs: seq<Byte>)
    requires |bs| == 8
    ensures Signed(bs) == N.IntOf(bs)
  {
    UnsignedIsBigEndian(bs);
    UnsignedIsBigEndian(bs[1..]);
    N.BigEndianUndoesFrom(bs[1..]);
    assert N.Pow256(7) == 0x100_0000_0000_0000 by { assert N.Pow256(3) == 0x100_0000; }
    assert Unsigned(bs) == bs[0] * 0x100_0000_0000_0000 + Unsigned(bs[1..]);
  }

  /** The eight bytes of an integer spell it. */
  lemma IntBytesSpell(i: int64)
    ensures Signed(N.IntBytes(i)) == i
  {
    TopBitIsSign(N.IntBytes(i));
    N.IntRoundTrip(i, []);
  }

  /** Behind the four magic bytes: null 00, false 01, true 02, and 03 with eight big-endian bytes for an integer. */
  lemma ScalarBytes(nfc: string -> string, i: int64)
    ensures CanonicalBytes(nfc, Null) == Some([0x6e, 0x72, 0x66, 0x31, 0x00])
    ensures CanonicalBytes(nfc, Bool(false)) == Some([0x6e, 0x72, 0x66, 0x31, 0x01])
    ensures CanonicalBytes(nfc, Bool(true)) == Some([0x6e, 0x72, 0x66, 0x31, 0x02])
    ensures var r := CanonicalBytes(nfc, Number(Integer(i)));
            r.Some? && |r.value| == 13 && r.value[..5] == [0x6e, 0x72, 0x66, 0x31, 0x03] && Signed(r.value[5..]) == i
  {
    FourAndOne(0x00);
    FourAndOne(0x01);
    FourAndOne(0x02);
    IntBytesSpell(i);
    var r := CanonicalBytes(nfc, Number(Integer(i))).value;
    assert r == N.MAGIC + ([0x03] + N.IntBytes(i));
    assert r[5..] == N.IntBytes(i);
  }

  lemma FourAndOne(b: Byte)
    ensures N.MAGIC + [b] == [0x6e, 0x72, 0x66, 0x31, b]
  {
  }

  /** A text is 04, its length in bytes, and its UTF-8. */
  lemma TextBytes(nfc: string -> string, s: string)
    requires CleanText(nfc, s) && |Utf8.Encode(s)| < 0x1_0000_0000
    ensures CanonicalBytes(nfc, Str(s)) == Some([0x6e, 0x72, 0x66, 0x31, 0x04] + (Varint(|Utf8.Encode(s)|) + Utf8.Encode(s)))
  {
    hide Varint, Utf8.Encode, CleanText, RhoString;
    CleanTextIsRho(nfc, s);
    FourAndOne(0x04);
    var body := Varint(|Utf8.Encode(s)|) + Utf8.Encode(s);
    assert N.MAGIC + ([0x04] + body) == N.MAGIC + [0x04] + body;
  }

  /** Byte strings are 05, arrays 06 and maps 07, each with its count; a map writes a key in front of its value. */
  lemma ContainerBytes(bs: seq<Byte>, items: seq<N.Value>, item: N.Value, es: seq<N.Entry>, e: N.Entry)
    requires |bs| < U32 && |items| < U32 - 1 && |es| < U32 - 1
    ensures N.Encode(N.Bytes(bs)) == [0x05] + (Varint(|bs|) + bs)
    ensures N.Encode(N.Array([item] + items)) == [0x06] + (Varint(|items| + 1) + (N.Encode(item) + N.EncodeItems(items)))
    ensures N.Encode(N.Map([e] + es)) == [0x07] + (Varint(|es| + 1) + (N.Encode(N.Str(e.key)) + (N.Encode(e.value) + N.EncodeEntries(es))))
  {
    hide Varint, Utf8.Encode;
    assert ([item] + items)[1..] == items && ([e] + es)[1..] == es;
  }
}
