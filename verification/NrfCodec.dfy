/** The buffer-filling encoder and the cursor-driven decoder, against the functions of module Nrf. */
module NrfCodec {
  import opened Prelude
  import opened VarInts
  import opened Nrf
  import Utf8

  lemma {:induction false} EncodeItemsSnoc(items: seq<Value>, v: Value)
    ensures EncodeItems(items + [v]) == EncodeItems(items) + Encode(v)
  {
    hide Encode;
    if items == [] {
      assert [v][1..] == [];
    } else {
      assert (items + [v])[1..] == items[1..] + [v];
      EncodeItemsSnoc(items[1..], v);
    }
  }

  lemma {:induction false} EncodeEntriesSnoc(es: seq<Entry>, e: Entry)
    ensures EncodeEntries(es + [e]) == EncodeEntries(es) + (EncodeString(e.key) + Encode(e.value))
  {
    hide Encode, EncodeString;
    if es == [] {
      assert [e][1..] == [];
    } else {
      assert (es + [e])[1..] == es[1..] + [e];
      EncodeEntriesSnoc(es[1..], e);
    }
  }

  method EncodeText(s: string, buf: Buffer)
    modifies buf
    ensures buf.data == old(buf.data) + EncodeString(s)
  {
    var raw := Utf8.Encode(s);
    buf.Push(0x04);
    EncodeVarint32(|raw| % U32, buf);
    buf.Extend(raw);
  }

  method EncodeArray(items: seq<Value>, buf: Buffer)
    modifies buf
    ensures buf.data == old(buf.data) + EncodeItems(items)
    decreases items, 0
  {
    hide Encode;
    for k := 0 to |items|
      invariant buf.data == old(buf.data) + EncodeItems(items[..k])
    {
      EncodeValue(items[k], buf);
      EncodeItemsSnoc(items[..k], items[k]);
      assert items[..k + 1] == items[..k] + [items[k]];
    }
    assert items[..|items|] == items;
  }

  method EncodeMap(es: seq<Entry>, buf: Buffer)
    modifies buf
    ensures buf.data == old(buf.data) + EncodeEntries(es)
    decreases es, 0
  {
    hide Encode, EncodeString;
    for k := 0 to |es|
      invariant buf.data == old(buf.data) + EncodeEntries(es[..k])
    {
      EncodeText(es[k].key, buf);
      EncodeValue(es[k].value, buf);
      EncodeEntriesSnoc(es[..k], es[k]);
      assert es[..k + 1] == es[..k] + [es[k]];
    }
    assert es[..|es|] == es;
  }

  method EncodeValue(v: Value, buf: Buffer)
    modifies buf
    ensures buf.data == old(buf.data) + Encode(v)
    decreases v, 1
  {
    hide Varint, EncodeString, EncodeItems, EncodeEntries, IntBytes;
    ghost var was := buf.data;
    match v
    case Null => buf.Push(0x00);
    case Bool(b) => buf.Push(if b then 0x02 else 0x01);
    case Int(i) =>
      buf.Push(0x03);
      buf.Extend(IntBytes(i));
      Regroup(was, [0x03], [], IntBytes(i));
    case Str(s) => EncodeText(s, buf);
    case Bytes(bs) =>
      EncodeTagAndCount(0x05, |bs|, buf);
      buf.Extend(bs);
      Regroup(was, [0x05], Varint(|bs| % U32), bs);
    case Array(items) =>
      EncodeTagAndCount(0x06, |items|, buf);
      EncodeArray(items, buf);
      Regroup(was, [0x06], Varint(|items| % U32), EncodeItems(items));
    case Map(es) =>
      EncodeTagAndCount(0x07, |es|, buf);
      EncodeMap(es, buf);
      Regroup(was, [0x07], Varint(|es| % U32), EncodeEntries(es));
  }

  lemma Regroup(was: seq<Byte>, tag: seq<Byte>, count: seq<Byte>, body: seq<Byte>)
    ensures was + (tag + count) + body == was + (tag + (count + body))
    ensures was + tag + body == was + (tag + body)
  {
  }

  /** A tag and a length, cut to 32 bits as the source's cast does. */
  method EncodeTagAndCount(tag: Byte, n: nat, buf: Buffer)
    modifies buf
    ensures buf.data == old(buf.data) + ([tag] + Varint(n % U32))
  {
    hide Varint;
    buf.Push(tag);
    EncodeVarint32(n % U32, buf);
  }

  /** `encode_to_vec`. */
  method EncodeToVector(v: Value) returns (bytes: seq<Byte>)
    ensures bytes == EncodeToVec(v)
  {
    var buf := new Buffer();
    buf.Extend(MAGIC);
    EncodeValue(v, buf);
    bytes := buf.data;
  }

  // ---------------------------------------------------------------- decoding

  /** The items already read in front of those still to come. */
  ghost function AfterItems(done: seq<Value>, r: Option<(seq<Value>, seq<Byte>)>): Option<(seq<Value>, seq<Byte>)> {
    match r
    case None => None
    case Some((vs, rest)) => Some((done + vs, rest))
  }

  ghost function AfterEntries(done: seq<Entry>, r: Option<(seq<Entry>, seq<Byte>)>): Option<(seq<Entry>, seq<Byte>)> {
    match r
    case None => None
    case Some((es, rest)) => Some((done + es, rest))
  }

  ghost function KeySet(es: seq<Entry>): set<string> {
    set i | 0 <= i < |es| :: es[i].key
  }

  /** How a decoding step answers: as the parse of the bytes left, its value put in key order. */
  ghost predicate Answers(expected: Option<(Value, seq<Byte>)>, got: Option<Value>, rest: seq<Byte>) {
    match expected
    case None => got == None
    case Some((v, tail)) => got == Some(Canon(v)) && rest == tail
  }

  lemma ParseItemsStep(nfc: string -> string, start: seq<Byte>, n: nat, done: seq<Value>, bs: seq<Byte>, left: nat)
    requires left > 0
    requires ParseItems(nfc, start, n) == AfterItems(done, ParseItems(nfc, bs, left))
    ensures match Parse(nfc, bs)
            case None => ParseItems(nfc, start, n) == None
            case Some((v, rest)) => ParseItems(nfc, start, n) == AfterItems(done + [v], ParseItems(nfc, rest, left - 1))
  {
    hide Parse;
    match Parse(nfc, bs)
    case None =>
    case Some((v, rest)) =>
      if ParseItems(nfc, rest, left - 1).Some? {
        var vs := ParseItems(nfc, rest, left - 1).value.0;
        assert done + ([v] + vs) == done + [v] + vs;
      }
  }

  lemma ParseEntriesStep(nfc: string -> string, start: seq<Byte>, n: nat, done: seq<Entry>, bs: seq<Byte>, left: nat,
                         key: string, middle: seq<Byte>, v: Value, rest: seq<Byte>)
    requires left > 0 && DistinctKeys(done) && key !in KeySet(done)
    requires ParseEntries(nfc, start, n, {}) == AfterEntries(done, ParseEntries(nfc, bs, left, KeySet(done)))
    requires Parse(nfc, bs) == Some((Str(key), middle)) && Parse(nfc, middle) == Some((v, rest))
    ensures var done' := done + [Entry(key, v)];
            && DistinctKeys(done')
            && ParseEntries(nfc, start, n, {}) == AfterEntries(done', ParseEntries(nfc, rest, left - 1, KeySet(done')))
  {
    hide Parse;
    var done' := done + [Entry(key, v)];
    assert KeySet(done') == KeySet(done) + {key} by {
      assert forall i :: 0 <= i < |done| ==> done'[i] == done[i];
      assert done'[|done|].key == key;
      assert forall i :: 0 <= i < |done| ==> done[i].key in KeySet(done);
    }
    forall i | 0 <= i < |done| ensures done[i].key != key {
      assert done[i].key in KeySet(done);
    }
    if ParseEntries(nfc, rest, left - 1, KeySet(done')).Some? {
      var es := ParseEntries(nfc, rest, left - 1, KeySet(done')).value.0;
      assert done + ([Entry(key, v)] + es) == done' + es;
    }
  }

  lemma CanonItemsSnoc(items: seq<Value>, v: Value)
    ensures CanonItems(items + [v]) == CanonItems(items) + [Canon(v)]
  {
  }

  lemma CanonEntriesSnoc(es: seq<Entry>, e: Entry)
    ensures CanonEntries(es + [e]) == Insert(CanonEntries(es), e.key, Canon(e.value))
  {
    assert (es + [e])[..|es|] == es;
  }

  /** A length and that many bytes. */
  method ReadBlock(r: Cursor) returns (res: Option<seq<Byte>>)
    requires r.Valid()
    modifies r
    ensures r.Valid()
    ensures match ReadCounted(old(r.Rest()))
            case None => res == None
            case Some((raw, rest)) => res == Some(raw) && r.Rest() == rest
  {
    hide Varint, ReadFrom;
    var len := DecodeVarint32(r);
    if len == None { return None; }
    res := r.ReadExact(len.value);
  }

  method DecodeItems(nfc: string -> string, r: Cursor, count: nat) returns (res: Option<seq<Value>>)
    requires r.Valid()
    modifies r
    ensures r.Valid()
    ensures match ParseItems(nfc, old(r.Rest()), count)
            case None => res == None
            case Some((items, rest)) => res == Some(CanonItems(items)) && r.Rest() == rest
    decreases |r.bytes| - r.pos, 1
  {
    hide Parse, Canon;
    ghost var start, before := r.Rest(), r.pos;
    var arr: seq<Value> := [];
    ghost var done: seq<Value> := [];
    EmptyItems(nfc, start, count);
    for k := 0 to count
      invariant r.Valid() && r.pos >= before
      invariant arr == CanonItems(done)
      invariant ParseItems(nfc, start, count) == AfterItems(done, ParseItems(nfc, r.Rest(), count - k))
    {
      ghost var bs := r.Rest();
      ParseItemsStep(nfc, start, count, done, bs, count - k);
      var item := DecodeValue(nfc, r);
      if item == None { return None; }
      ghost var v := Parse(nfc, bs).value.0;
      CanonItemsSnoc(done, v);
      arr := arr + [item.value];
      done := done + [v];
    }
    assert done + [] == done;
    return Some(arr);
  }

  method DecodeEntries(nfc: string -> string, r: Cursor, count: nat) returns (res: Option<seq<Entry>>)
    requires r.Valid()
    modifies r
    ensures r.Valid()
    ensures match ParseEntries(nfc, old(r.Rest()), count, {})
            case None => res == None
            case Some((es, rest)) => res == Some(CanonEntries(es)) && r.Rest() == rest
    decreases |r.bytes| - r.pos, 1
  {
    hide Parse, Insert, KeyLess, CanonEntries;
    ghost var start, before := r.Rest(), r.pos;
    var map' : seq<Entry> := [];
    ghost var done: seq<Entry> := [];
    EmptyEntries(nfc, start, count);
    for k := 0 to count
      invariant r.Valid() && r.pos >= before
      invariant map' == CanonEntries(done) && DistinctKeys(done)
      invariant ParseEntries(nfc, start, count, {}) == AfterEntries(done, ParseEntries(nfc, r.Rest(), count - k, KeySet(done)))
    {
      ghost var bs := r.Rest();
      var key := DecodeValue(nfc, r);
      if key == None || !key.value.Str? {
        ParseEntriesBadKey(nfc, bs, count - k, KeySet(done));
        return None;
      }
      ghost var middle := r.Rest();
      CanonString(Parse(nfc, bs).value.0);
      SameKeys(done, key.value.s);
      assert HasKey(done, key.value.s) <==> key.value.s in KeySet(done);
      if HasKey(map', key.value.s) { return None; }
      var value := DecodeValue(nfc, r);
      if value == None { return None; }
      ghost var v := Parse(nfc, middle).value.0;
      ParseEntriesStep(nfc, start, count, done, bs, count - k, key.value.s, middle, v, r.Rest());
      CanonEntriesSnoc(done, Entry(key.value.s, v));
      map' := Insert(map', key.value.s, value.value);
      done := done + [Entry(key.value.s, v)];
    }
    assert done + [] == done;
    return Some(map');
  }

  lemma EmptyEntries(nfc: string -> string, bs: seq<Byte>, n: nat)
    ensures CanonEntries([]) == [] && KeySet([]) == {}
    ensures ParseEntries(nfc, bs, n, {}) == AfterEntries([], ParseEntries(nfc, bs, n, {}))
  {
    hide Parse;
    if ParseEntries(nfc, bs, n, {}).Some? {
      var es := ParseEntries(nfc, bs, n, {}).value.0;
      assert [] + es == es;
    }
  }

  lemma EmptyItems(nfc: string -> string, bs: seq<Byte>, n: nat)
    ensures ParseItems(nfc, bs, n) == AfterItems([], ParseItems(nfc, bs, n))
  {
    hide Parse;
    if ParseItems(nfc, bs, n).Some? {
      var vs := ParseItems(nfc, bs, n).value.0;
      assert [] + vs == vs;
    }
  }

  lemma ParseEntriesBadKey(nfc: string -> string, bs: seq<Byte>, n: nat, seen: set<string>)
    requires n > 0 && (Parse(nfc, bs) == None || !Canon(Parse(nfc, bs).value.0).Str?)
    ensures ParseEntries(nfc, bs, n, seen) == None
  {
  }

  /** Only a string canonicalises to a string, and to itself. */
  lemma CanonString(v: Value)
    ensures Canon(v).Str? <==> v.Str?
    ensures v.Str? ==> Canon(v) == v
  {
  }

  method DecodeValue(nfc: string -> string, r: Cursor) returns (res: Option<Value>)
    requires r.Valid()
    modifies r
    ensures r.Valid()
    ensures Answers(Parse(nfc, old(r.Rest())), res, r.Rest())
    decreases |r.bytes| - r.pos, 0
  {
    hide Varint, Utf8.Decode, ParseItems, ParseEntries, CanonItems, CanonEntries, ReadFrom;
    ghost var bs := r.Rest();
    var tag := r.ReadExact(1);
    if tag == None { return None; }
    assert tag.value[0] == bs[0] && r.Rest() == bs[1..];
    match tag.value[0]
    case 0x00 => res := Some(Null);
    case 0x01 => res := Some(Bool(false));
    case 0x02 => res := Some(Bool(true));
    case 0x03 =>
      var raw := r.ReadExact(8);
      if raw == None { return None; }
      res := Some(Int(IntOf(raw.value)));
    case 0x04 =>
      var raw := ReadBlock(r);
      if raw == None { return None; }
      var s := Utf8.Decode(raw.value);
      if s == None || !StringOk(nfc, s.value) { return None; }
      res := Some(Str(s.value));
    case 0x05 =>
      var raw := ReadBlock(r);
      if raw == None { return None; }
      res := Some(Bytes(raw.value));
    case 0x06 =>
      var count := DecodeVarint32(r);
      if count == None { return None; }
      var items := DecodeItems(nfc, r, count.value);
      if items == None { return None; }
      res := Some(Array(items.value));
    case 0x07 =>
      var count := DecodeVarint32(r);
      if count == None { return None; }
      var entries := DecodeEntries(nfc, r, count.value);
      if entries == None { return None; }
      res := Some(Map(entries.value));
    case _ => res := None;
  }

  /** `decode_from_slice`. */
  method DecodeSlice(nfc: string -> string, bytes: seq<Byte>) returns (res: Option<Value>)
    ensures res == DecodeFromSlice(nfc, bytes)
  {
    hide Parse, Canon;
    var cursor := new Cursor(bytes);
    var magic := cursor.ReadExact(4);
    if magic == None || magic.value != MAGIC { return None; }
    assert cursor.Rest() == bytes[4..];
    res := DecodeValue(nfc, cursor);
    if res.Some? && cursor.pos != |bytes| { return None; }
  }
}
