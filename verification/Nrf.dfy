/** NRF-1.1, the canonical binary form of a value: the codec of crates/ubl_nrf/src/nrf.rs. */
module Nrf {
  import opened Prelude
  import opened VarInts
  import Utf8

  /**
    A value as it stands on the wire. Rust's `NrfValue` holds a map as a `BTreeMap`, that is, with
    its entries in key order: those values are the `Canonical` ones.
   */
  datatype Value =
    | Null
    | Bool(b: bool)
    | Int(i: int64)
    | Str(s: string)
    | Bytes(bs: seq<Byte>)
    | Array(items: seq<Value>)
    | Map(entries: seq<Entry>)

  datatype Entry = Entry(key: string, value: Value)

  const MAGIC: seq<Byte> := [0x6e, 0x72, 0x66, 0x31]
  const BOM: char := '\U{FEFF}'

  /** What the decoder demands of a string; `nfc` is Unicode normalisation form C. */
  predicate StringOk(nfc: string -> string, s: string) {
    BOM !in s && nfc(s) == s
  }

  lemma StringOkMeans(nfc: string -> string, s: string)
    ensures StringOk(nfc, s) <==> nfc(s) == s && forall i :: 0 <= i < |s| ==> s[i] as int != 0xFEFF
  {
    if StringOk(nfc, s) {
      forall i | 0 <= i < |s| ensures s[i] as int != 0xFEFF { assert s[i] in s; }
    } else if BOM in s {
      var i :| 0 <= i < |s| && s[i] == BOM;
      assert s[i] as int == 0xFEFF;
    }
  }

  // ---------------------------------------------------------------- big-endian integers

  const U64: nat := 0x1_0000_0000_0000_0000

  function BigEndian(n: nat, width: nat): (r: seq<Byte>)
    ensures |r| == width
  {
    if width == 0 then [] else BigEndian(n / 256, width - 1) + [n % 256]
  }

  function FromBigEndian(bs: seq<Byte>): nat {
    if bs == [] then 0 else FromBigEndian(bs[..|bs| - 1]) * 256 + bs[|bs| - 1]
  }

  function Pow256(k: nat): nat {
    if k == 0 then 1 else 256 * Pow256(k - 1)
  }

  lemma {:induction false} FromUndoesBigEndian(n: nat, width: nat)
    requires n < Pow256(width)
    ensures FromBigEndian(BigEndian(n, width)) == n
  {
    if width > 0 {
      FromUndoesBigEndian(n / 256, width - 1);
      assert BigEndian(n, width)[..width - 1] == BigEndian(n / 256, width - 1);
    }
  }

  lemma {:induction false} BigEndianUndoesFrom(bs: seq<Byte>)
    ensures BigEndian(FromBigEndian(bs), |bs|) == bs
    ensures FromBigEndian(bs) < Pow256(|bs|)
  {
    if bs != [] {
      BigEndianUndoesFrom(bs[..|bs| - 1]);
      var high, low := FromBigEndian(bs[..|bs| - 1]), bs[|bs| - 1];
      assert (high * 256 + low) / 256 == high && (high * 256 + low) % 256 == low;
      assert bs == bs[..|bs| - 1] + [low];
    }
  }

  /** `i64::to_be_bytes`: two's complement. */
  function IntBytes(i: int64): (r: seq<Byte>)
    ensures |r| == 8
  {
    BigEndian(if i < 0 then i + U64 else i, 8)
  }

  /** `i64::from_be_bytes`. */
  function IntOf(bs: seq<Byte>): int64
    requires |bs| == 8
  {
    BigEndianUndoesFrom(bs);
    Pow256Of8();
    var n := FromBigEndian(bs);
    if n <= I64_MAX then n else n - U64
  }

  lemma Pow256Of8()
    ensures Pow256(8) == U64
  {
    assert Pow256(4) == U32;
  }

  lemma IntRoundTrip(i: int64, bs: seq<Byte>)
    ensures IntOf(IntBytes(i)) == i
    ensures |bs| == 8 ==> IntBytes(IntOf(bs)) == bs
  {
    Pow256Of8();
    FromUndoesBigEndian(if i < 0 then i + U64 else i, 8);
    BigEndianUndoesFrom(bs);
  }

  // ---------------------------------------------------------------- encoding

  /** A byte block behind its length, which `len() as u32` truncates. */
  function Counted(bs: seq<Byte>): seq<Byte> {
    Varint(|bs| % U32) + bs
  }

  function EncodeString(s: string): seq<Byte> {
    [0x04] + Counted(Utf8.Encode(s))
  }

  function Encode(v: Value): (r: seq<Byte>)
    ensures r != []
    decreases v
  {
    match v
    case Null => [0x00]
    case Bool(b) => [if b then 0x02 else 0x01]
    case Int(i) => [0x03] + IntBytes(i)
    case Str(s) => EncodeString(s)
    case Bytes(bs) => [0x05] + Counted(bs)
    case Array(items) => [0x06] + (Varint(|items| % U32) + EncodeItems(items))
    case Map(entries) => [0x07] + (Varint(|entries| % U32) + EncodeEntries(entries))
  }

  function EncodeItems(items: seq<Value>): seq<Byte>
    decreases items
  {
    if items == [] then [] else Encode(items[0]) + EncodeItems(items[1..])
  }

  function EncodeEntries(entries: seq<Entry>): seq<Byte>
    decreases entries
  {
    if entries == [] then []
    else EncodeString(entries[0].key) + (Encode(entries[0].value) + EncodeEntries(entries[1..]))
  }

  function EncodeToVec(v: Value): seq<Byte> {
    MAGIC + Encode(v)
  }

  // ---------------------------------------------------------------- decoding

  function ReadCounted(bs: seq<Byte>): (r: Option<(seq<Byte>, seq<Byte>)>)
    ensures r.Some? ==> |r.value.1| < |bs|
  {
    match Read(bs)
    case None => None
    case Some((n, rest)) => if n <= |rest| then Some((rest[..n], rest[n..])) else None
  }

  /** What the tag byte announces: a whole scalar, or a container of so many parts; or nothing legal. */
  datatype Head =
    | Bad
    | Scalar(v: Value, rest: seq<Byte>)
    | ArrayOf(count: nat, rest: seq<Byte>)
    | MapOf(count: nat, rest: seq<Byte>)

  function ReadInt(body: seq<Byte>): Head {
    if |body| < 8 then Bad else Scalar(Int(IntOf(body[..8])), body[8..])
  }

  function ReadString(nfc: string -> string, body: seq<Byte>): Head {
    match ReadCounted(body)
    case None => Bad
    case Some((raw, rest)) =>
      match Utf8.Decode(raw)
      case None => Bad
      case Some(s) => if StringOk(nfc, s) then Scalar(Str(s), rest) else Bad
  }

  function ReadBytes(body: seq<Byte>): Head {
    match ReadCounted(body)
    case None => Bad
    case Some((raw, rest)) => Scalar(Bytes(raw), rest)
  }

  function ReadCount(body: seq<Byte>, map': bool): Head {
    match Read(body)
    case None => Bad
    case Some((n, rest)) => if map' then MapOf(n, rest) else ArrayOf(n, rest)
  }

  function ReadHead(nfc: string -> string, bs: seq<Byte>): (h: Head)
    ensures h.Bad? || |h.rest| < |bs|
  {
    if bs == [] then Bad
    else
      var body := bs[1..];
      match bs[0]
      case 0x00 => Scalar(Null, body)
      case 0x01 => Scalar(Bool(false), body)
      case 0x02 => Scalar(Bool(true), body)
      case 0x03 => ReadInt(body)
      case 0x04 => ReadString(nfc, body)
      case 0x05 => ReadBytes(body)
      case 0x06 => ReadCount(body, false)
      case 0x07 => ReadCount(body, true)
      case _ => Bad
  }

  /** One value off the front, its maps in wire order, and what follows it. */
  function Parse(nfc: string -> string, bs: seq<Byte>): (r: Option<(Value, seq<Byte>)>)
    ensures r.Some? ==> |r.value.1| < |bs|
    decreases |bs|, 0
  {
    match ReadHead(nfc, bs)
    case Bad => None
    case Scalar(v, rest) => Some((v, rest))
    case ArrayOf(n, rest) =>
      (match ParseItems(nfc, rest, n)
       case None => None
       case Some((items, rest')) => Some((Array(items), rest')))
    case MapOf(n, rest) =>
      (match ParseEntries(nfc, rest, n, {})
       case None => None
       case Some((entries, rest')) => Some((Map(entries), rest')))
  }

  function ParseItems(nfc: string -> string, bs: seq<Byte>, n: nat): (r: Option<(seq<Value>, seq<Byte>)>)
    ensures r.Some? ==> |r.value.1| <= |bs|
    decreases |bs|, n
  {
    if n == 0 then Some(([], bs))
    else
      match Parse(nfc, bs)
      case None => None
      case Some((v, rest)) =>
        match ParseItems(nfc, rest, n - 1)
        case None => None
        case Some((vs, rest')) => Some(([v] + vs, rest'))
  }

  function ParseEntries(nfc: string -> string, bs: seq<Byte>, n: nat, seen: set<string>): (r: Option<(seq<Entry>, seq<Byte>)>)
    ensures r.Some? ==> |r.value.1| <= |bs|
    decreases |bs|, n
  {
    if n == 0 then Some(([], bs))
    else
      match Parse(nfc, bs)
      case None => None
      case Some((key, rest)) =>
        if !key.Str? || key.s in seen then None
        else
          match Parse(nfc, rest)
          case None => None
          case Some((v, rest')) =>
            match ParseEntries(nfc, rest', n - 1, seen + {key.s})
            case None => None
            case Some((es, rest'')) => Some(([Entry(key.s, v)] + es, rest''))
  }

  /** The tree a byte string spells, its maps in wire order. */
  function ParseSlice(nfc: string -> string, bs: seq<Byte>): Option<Value> {
    if |bs| < 4 || bs[..4] != MAGIC then None
    else
      match Parse(nfc, bs[4..])
      case None => None
      case Some((v, rest)) => if rest == [] then Some(v) else None
  }

  /** `decode_from_slice`: the tree with every map put in key order by its `BTreeMap`. */
  function DecodeFromSlice(nfc: string -> string, bs: seq<Byte>): Option<Value> {
    match ParseSlice(nfc, bs)
    case None => None
    case Some(v) => Some(Canon(v))
  }

  // ---------------------------------------------------------------- key order

  predicate KeyLess(a: string, b: string) {
    Less(Utf8.Encode(a), Utf8.Encode(b))
  }

  lemma KeyLessTotal(a: string, b: string)
    ensures KeyLess(a, b) || a == b || KeyLess(b, a)
    ensures !(KeyLess(a, b) && KeyLess(b, a))
    ensures !KeyLess(a, a)
  {
    LessTrichotomy(Utf8.Encode(a), Utf8.Encode(b));
    LessTrichotomy(Utf8.Encode(a), Utf8.Encode(a));
    if Utf8.Encode(a) == Utf8.Encode(b) { Utf8.EncodeInjective(a, b); }
  }

  ghost predicate SortedKeys(es: seq<Entry>) {
    forall i, j :: 0 <= i < j < |es| ==> KeyLess(es[i].key, es[j].key)
  }

  ghost predicate DistinctKeys(es: seq<Entry>) {
    forall i, j :: 0 <= i < j < |es| ==> es[i].key != es[j].key
  }

  predicate HasKey(es: seq<Entry>, k: string) {
    exists i :: 0 <= i < |es| && es[i].key == k
  }

  /** `BTreeMap::insert` of a new key. */
  function Insert(es: seq<Entry>, k: string, v: Value): (r: seq<Entry>)
    ensures |r| == |es| + 1
  {
    if es == [] || KeyLess(k, es[0].key) then [Entry(k, v)] + es
    else [es[0]] + Insert(es[1..], k, v)
  }

  /** The value with every map in key order, its entries inserted one after another. */
  function Canon(v: Value): Value
    decreases v
  {
    match v
    case Array(items) => Array(CanonItems(items))
    case Map(entries) => Map(CanonEntries(entries))
    case _ => v
  }

  function CanonItems(items: seq<Value>): (r: seq<Value>)
    ensures |r| == |items|
    ensures forall i :: 0 <= i < |items| ==> r[i] == Canon(items[i])
    decreases items
  {
    if items == [] then [] else [Canon(items[0])] + CanonItems(items[1..])
  }

  function CanonEntries(es: seq<Entry>): (r: seq<Entry>)
    ensures |r| == |es|
    decreases es
  {
    if es == [] then []
    else
      var last := es[|es| - 1];
      Insert(CanonEntries(es[..|es| - 1]), last.key, Canon(last.value))
  }

  /** Every map lists its keys in increasing order. */
  ghost predicate Canonical(v: Value)
    decreases v
  {
    match v
    case Array(items) => forall i :: 0 <= i < |items| ==> Canonical(items[i])
    case Map(es) => SortedKeys(es) && forall i :: 0 <= i < |es| ==> Canonical(es[i].value)
    case _ => true
  }

  ghost predicate TextFits(s: string) {
    |Utf8.Encode(s)| < U32
  }

  /** Every length, of text, bytes, array or map, fits the 32-bit prefix. */
  ghost predicate Fits(v: Value)
    decreases v
  {
    match v
    case Str(s) => TextFits(s)
    case Bytes(bs) => |bs| < U32
    case Array(items) => |items| < U32 && forall i :: 0 <= i < |items| ==> Fits(items[i])
    case Map(es) => |es| < U32 && forall i :: 0 <= i < |es| ==> TextFits(es[i].key) && Fits(es[i].value)
    case _ => true
  }

  /** Every string, keys included, is one the decoder accepts, and no map repeats a key. */
  ghost predicate Clean(nfc: string -> string, v: Value)
    decreases v
  {
    match v
    case Str(s) => StringOk(nfc, s)
    case Array(items) => forall i :: 0 <= i < |items| ==> Clean(nfc, items[i])
    case Map(es) =>
      && DistinctKeys(es)
      && forall i :: 0 <= i < |es| ==> StringOk(nfc, es[i].key) && Clean(nfc, es[i].value)
    case _ => true
  }

  lemma {:induction false} InsertProperties(es: seq<Entry>, k: string, v: Value)
    requires SortedKeys(es) && !HasKey(es, k)
    ensures SortedKeys(Insert(es, k, v))
    ensures forall e :: e in Insert(es, k, v) <==> e in es || e == Entry(k, v)
  {
    var r := Insert(es, k, v);
    if es == [] {
    } else if KeyLess(k, es[0].key) {
      forall j | 0 <= j < |es| ensures KeyLess(k, es[j].key) {
        if j > 0 { LessTransitive(Utf8.Encode(k), Utf8.Encode(es[0].key), Utf8.Encode(es[j].key)); }
      }
      assert forall j :: 0 < j < |r| ==> r[j] == es[j - 1];
    } else {
      var tail := Insert(es[1..], k, v);
      forall i | 0 <= i < |es[1..]| ensures es[1..][i].key != k { assert es[1..][i] == es[i + 1]; }
      InsertProperties(es[1..], k, v);
      assert es[0].key != k;
      KeyLessTotal(k, es[0].key);
      forall j | 0 <= j < |tail| ensures KeyLess(es[0].key, tail[j].key) {
        assert tail[j] in tail;
        if tail[j] in es[1..] {
          var m :| 0 <= m < |es[1..]| && es[1..][m] == tail[j];
          assert es[m + 1] == tail[j];
        }
      }
      assert forall j :: 0 < j < |r| ==> r[j] == tail[j - 1];
      assert forall e :: e in es <==> e == es[0] || e in es[1..];
    }
  }

  /** Inserting past the end is appending. */
  lemma {:induction false} InsertLast(es: seq<Entry>, k: string, v: Value)
    requires forall i :: 0 <= i < |es| ==> KeyLess(es[i].key, k)
    ensures Insert(es, k, v) == es + [Entry(k, v)]
  {
    if es != [] {
      KeyLessTotal(es[0].key, k);
      InsertLast(es[1..], k, v);
      assert es == [es[0]] + es[1..];
    }
  }

  /** The entries of a key-ordered copy: the same keys with their own canonical values. */
  lemma {:induction false} CanonEntriesProperties(es: seq<Entry>)
    requires DistinctKeys(es)
    ensures SortedKeys(CanonEntries(es))
    ensures forall e :: e in CanonEntries(es) <==> exists i :: 0 <= i < |es| && e == Entry(es[i].key, Canon(es[i].value))
    decreases es
  {
    if es != [] {
      var n := |es| - 1;
      var front, r := CanonEntries(es[..n]), CanonEntries(es);
      CanonEntriesProperties(es[..n]);
      var added := Entry(es[n].key, Canon(es[n].value));
      forall i | 0 <= i < |front| ensures front[i].key != es[n].key {
        assert front[i] in front;
      }
      InsertProperties(front, es[n].key, Canon(es[n].value));
      forall e
        ensures e in r <==> exists i :: 0 <= i < |es| && e == Entry(es[i].key, Canon(es[i].value))
      {
        if e in front {
          var i :| 0 <= i < |es[..n]| && e == Entry(es[..n][i].key, Canon(es[..n][i].value));
          assert e == Entry(es[i].key, Canon(es[i].value));
        }
        if i :| 0 <= i < |es| && e == Entry(es[i].key, Canon(es[i].value)) {
          if i < n { assert e == Entry(es[..n][i].key, Canon(es[..n][i].value)); }
        }
      }
    }
  }

  lemma SameKeys(es: seq<Entry>, k: string)
    requires DistinctKeys(es)
    ensures HasKey(CanonEntries(es), k) <==> HasKey(es, k)
  {
    CanonEntriesProperties(es);
    var r := CanonEntries(es);
    if i :| 0 <= i < |r| && r[i].key == k {
      assert r[i] in r;
    }
    if i :| 0 <= i < |es| && es[i].key == k {
      assert Entry(es[i].key, Canon(es[i].value)) in r;
    }
  }

  /** Putting maps in key order keeps lengths, strings and keys legal. */
  lemma {:induction false} CanonKeeps(nfc: string -> string, v: Value)
    requires Fits(v) && Clean(nfc, v)
    ensures Canonical(Canon(v)) && Fits(Canon(v)) && Clean(nfc, Canon(v))
    decreases v
  {
    hide KeyLess, Utf8.Encode;
    match v
    case Array(items) =>
      forall i | 0 <= i < |items|
        ensures Canonical(Canon(items[i])) && Fits(Canon(items[i])) && Clean(nfc, Canon(items[i]))
      {
        CanonKeeps(nfc, items[i]);
      }
    case Map(es) =>
      var r := CanonEntries(es);
      CanonEntriesProperties(es);
      forall i | 0 <= i < |r|
        ensures Canonical(r[i].value) && Fits(r[i].value) && Clean(nfc, r[i].value)
        ensures TextFits(r[i].key) && StringOk(nfc, r[i].key)
      {
        assert r[i] in r;
        var j :| 0 <= j < |es| && r[i] == Entry(es[j].key, Canon(es[j].value));
        CanonKeeps(nfc, es[j].value);
      }
      forall i, j | 0 <= i < j < |r| ensures r[i].key != r[j].key {
        KeyLessTotal(r[i].key, r[j].key);
      }
    case _ =>
  }

  /** A canonical value is its own canonical form. */
  lemma {:induction false} CanonFixed(v: Value)
    requires Canonical(v)
    ensures Canon(v) == v
    decreases v
  {
    match v
    case Array(items) =>
      forall i | 0 <= i < |items| ensures Canon(items[i]) == items[i] { CanonFixed(items[i]); }
      assert CanonItems(items) == items;
    case Map(es) => CanonEntriesFixed(es);
    case _ =>
  }

  lemma {:induction false} CanonEntriesFixed(es: seq<Entry>)
    requires SortedKeys(es) && forall i :: 0 <= i < |es| ==> Canonical(es[i].value)
    ensures CanonEntries(es) == es
    decreases es
  {
    hide KeyLess, Insert;
    if es != [] {
      var n := |es| - 1;
      CanonEntriesFixed(es[..n]);
      CanonFixed(es[n].value);
      InsertLast(es[..n], es[n].key, es[n].value);
      assert es == es[..n] + [es[n]];
    }
  }

  // ---------------------------------------------------------------- parsing undoes printing

  lemma ReadCountedUndoes(bs: seq<Byte>, rest: seq<Byte>)
    requires |bs| < U32
    ensures ReadCounted(Counted(bs) + rest) == Some((bs, rest))
  {
    hide Varint, Read;
    ReadUndoesVarint(|bs|, bs + rest);
    assert Counted(bs) + rest == Varint(|bs|) + (bs + rest);
  }

  lemma CountedUndoesRead(bs: seq<Byte>)
    requires ReadCounted(bs).Some?
    ensures var (raw, rest) := ReadCounted(bs).value; |raw| < U32 && bs == Counted(raw) + rest
  {
    hide Varint, Read;
    VarintUndoesRead(bs);
    var (n, tail) := Read(bs).value;
    assert tail == tail[..n] + tail[n..];
  }

  /** The head that the encoding of a value starts with. */
  ghost function HeadOf(v: Value, rest: seq<Byte>): Head {
    match v
    case Array(items) => ArrayOf(|items|, EncodeItems(items) + rest)
    case Map(es) => MapOf(|es|, EncodeEntries(es) + rest)
    case _ => Scalar(v, rest)
  }

  lemma ReadIntUndoes(i: int64, rest: seq<Byte>)
    ensures ReadInt(IntBytes(i) + rest) == Scalar(Int(i), rest)
  {
    IntRoundTrip(i, []);
    var body := IntBytes(i) + rest;
    assert body[..8] == IntBytes(i) && body[8..] == rest;
  }

  lemma ReadStringUndoes(nfc: string -> string, s: string, rest: seq<Byte>)
    requires TextFits(s) && StringOk(nfc, s)
    ensures ReadHead(nfc, EncodeString(s) + rest) == Scalar(Str(s), rest)
  {
    hide Varint, Read, Utf8.Encode, Utf8.Decode;
    ReadCountedUndoes(Utf8.Encode(s), rest);
    Utf8.DecodeUndoesEncode(s);
    assert (EncodeString(s) + rest)[1..] == Counted(Utf8.Encode(s)) + rest;
  }

  lemma ReadCountUndoes(n: nat, body: seq<Byte>, rest: seq<Byte>)
    requires n < U32
    ensures Read((Varint(n % U32) + body) + rest) == Some((n, body + rest))
  {
    assert (Varint(n % U32) + body) + rest == Varint(n) + (body + rest);
    ReadUndoesVarint(n, body + rest);
  }

  lemma ReadHeadUndoes(nfc: string -> string, v: Value, rest: seq<Byte>)
    requires Fits(v) && Clean(nfc, v)
    ensures ReadHead(nfc, Encode(v) + rest) == HeadOf(v, rest)
  {
    hide Varint, Read;
    assert (Encode(v) + rest)[1..] == Encode(v)[1..] + rest;
    match v
    case Null =>
    case Bool(b) =>
    case Int(i) => ReadIntUndoes(i, rest);
    case Str(s) => ReadStringUndoes(nfc, s, rest);
    case Bytes(raw) => ReadCountedUndoes(raw, rest);
    case Array(items) => ReadCountUndoes(|items|, EncodeItems(items), rest);
    case Map(es) => ReadCountUndoes(|es|, EncodeEntries(es), rest);
  }

  lemma {:induction false} ParseUndoesEncode(nfc: string -> string, v: Value, rest: seq<Byte>)
    requires Fits(v) && Clean(nfc, v)
    ensures Parse(nfc, Encode(v) + rest) == Some((v, rest))
    decreases v, 0
  {
    ReadHeadUndoes(nfc, v, rest);
    match v
    case Array(items) => ParseItemsUndoesEncode(nfc, items, rest);
    case Map(es) => ParseEntriesUndoesEncode(nfc, es, {}, rest);
    case _ =>
  }

  lemma {:induction false} ParseItemsUndoesEncode(nfc: string -> string, items: seq<Value>, rest: seq<Byte>)
    requires forall i :: 0 <= i < |items| ==> Fits(items[i]) && Clean(nfc, items[i])
    ensures ParseItems(nfc, EncodeItems(items) + rest, |items|) == Some((items, rest))
    decreases items, 0
  {
    hide Fits, Clean, Encode, Parse;
    if items == [] {
      assert EncodeItems(items) + rest == rest;
    } else {
      var tail := EncodeItems(items[1..]) + rest;
      assert EncodeItems(items) + rest == Encode(items[0]) + tail;
      ParseUndoesEncode(nfc, items[0], tail);
      ParseItemsUndoesEncode(nfc, items[1..], rest);
      assert items == [items[0]] + items[1..];
    }
  }

  lemma ParseKeyUndoes(nfc: string -> string, s: string, rest: seq<Byte>)
    requires TextFits(s) && StringOk(nfc, s)
    ensures Parse(nfc, EncodeString(s) + rest) == Some((Str(s), rest))
  {
    hide ReadHead, EncodeString, ParseItems, ParseEntries;
    ReadStringUndoes(nfc, s, rest);
  }

  lemma EncodeEntriesCons(e: Entry, es: seq<Entry>, rest: seq<Byte>)
    ensures EncodeEntries([e] + es) + rest == EncodeString(e.key) + (Encode(e.value) + (EncodeEntries(es) + rest))
  {
    assert ([e] + es)[1..] == es;
  }

  /** The entries of a legal map whose keys are none of `seen`. */
  ghost predicate LegalEntries(nfc: string -> string, es: seq<Entry>, seen: set<string>) {
    && DistinctKeys(es)
    && forall i :: 0 <= i < |es| ==> es[i].key !in seen && LegalEntry(nfc, es[i])
  }

  ghost predicate LegalEntry(nfc: string -> string, e: Entry) {
    TextFits(e.key) && StringOk(nfc, e.key) && Fits(e.value) && Clean(nfc, e.value)
  }

  lemma LegalEntriesRest(nfc: string -> string, es: seq<Entry>, seen: set<string>)
    requires es != [] && LegalEntries(nfc, es, seen)
    ensures es[0].key !in seen && LegalEntry(nfc, es[0]) && LegalEntries(nfc, es[1..], seen + {es[0].key})
  {
    hide LegalEntry;
  }

  /** One member off the front of a map's members. */
  lemma ParseMember(nfc: string -> string, e: Entry, tail: seq<Byte>, n: nat, seen: set<string>)
    requires LegalEntry(nfc, e) && e.key !in seen
    requires Parse(nfc, Encode(e.value) + tail) == Some((e.value, tail))
    ensures var r := ParseEntries(nfc, tail, n, seen + {e.key});
            r.Some? ==>
              ParseEntries(nfc, EncodeString(e.key) + (Encode(e.value) + tail), n + 1, seen) == Some(([e] + r.value.0, r.value.1))
  {
    hide Fits, Clean, Encode, EncodeString, TextFits, StringOk, Parse;
    ParseKeyUndoes(nfc, e.key, Encode(e.value) + tail);
  }

  lemma {:induction false} ParseEntriesUndoesEncode(nfc: string -> string, es: seq<Entry>, seen: set<string>, rest: seq<Byte>)
    requires LegalEntries(nfc, es, seen)
    ensures ParseEntries(nfc, EncodeEntries(es) + rest, |es|, seen) == Some((es, rest))
    decreases es, 0
  {
    hide LegalEntries, Fits, Clean, Encode, EncodeString, TextFits, StringOk, Parse;
    if es == [] {
      assert EncodeEntries(es) + rest == rest;
    } else {
      hide EncodeEntries, ParseEntries;
      var e, more := es[0], es[1..];
      var tail := EncodeEntries(more) + rest;
      assert es == [e] + more;
      EncodeEntriesCons(e, more, rest);
      LegalEntriesRest(nfc, es, seen);
      ParseUndoesEncode(nfc, e.value, tail);
      ParseEntriesUndoesEncode(nfc, more, seen + {e.key}, rest);
      ParseMember(nfc, e, tail, |more|, seen);
    }
  }

  // ---------------------------------------------------------------- printing undoes parsing

  /** The bytes in front of the contents that a head announces. */
  ghost predicate Heads(nfc: string -> string, bs: seq<Byte>, h: Head) {
    match h
    case Bad => false
    case Scalar(v, rest) => Fits(v) && Clean(nfc, v) && bs == Encode(v) + rest
    case ArrayOf(n, rest) => n < U32 && bs == [0x06] + (Varint(n) + rest)
    case MapOf(n, rest) => n < U32 && bs == [0x07] + (Varint(n) + rest)
  }

  lemma HeadIsSpelled(nfc: string -> string, bs: seq<Byte>)
    requires !ReadHead(nfc, bs).Bad?
    ensures Heads(nfc, bs, ReadHead(nfc, bs))
  {
    hide Varint, Utf8.Encode, Utf8.Decode, Read;
    var body := bs[1..];
    assert bs == [bs[0]] + body;
    if bs[0] == 0x03 {
      IntRoundTrip(0, body[..8]);
      assert bs == [0x03] + body[..8] + body[8..];
    } else if bs[0] == 0x04 {
      CountedUndoesRead(body);
      var (raw, rest) := ReadCounted(body).value;
      Utf8.EncodeUndoesDecode(raw);
      assert bs == [0x04] + Counted(raw) + rest;
    } else if bs[0] == 0x05 {
      CountedUndoesRead(body);
      var (raw, rest) := ReadCounted(body).value;
      assert bs == [0x05] + Counted(raw) + rest;
    } else if bs[0] == 0x06 || bs[0] == 0x07 {
      VarintUndoesRead(body);
    }
  }

  lemma {:induction false} EncodeUndoesParse(nfc: string -> string, bs: seq<Byte>)
    requires Parse(nfc, bs).Some?
    ensures var (v, rest) := Parse(nfc, bs).value;
            Fits(v) && Clean(nfc, v) && bs == Encode(v) + rest
    decreases |bs|, 0
  {
    hide Varint, ReadHead, Utf8.Encode, ParseItems, ParseEntries, EncodeItems, EncodeEntries;
    HeadIsSpelled(nfc, bs);
    match ReadHead(nfc, bs)
    case Scalar(v, rest) =>
    case ArrayOf(n, tail) =>
      EncodeUndoesParseItems(nfc, tail, n);
      var (items, rest) := ParseItems(nfc, tail, n).value;
      assert bs == [0x06] + (Varint(n) + EncodeItems(items)) + rest;
    case MapOf(n, tail) =>
      EncodeUndoesParseEntries(nfc, tail, n, {});
      var (es, rest) := ParseEntries(nfc, tail, n, {}).value;
      LegalMap(nfc, es);
      assert bs == [0x07] + (Varint(n) + EncodeEntries(es)) + rest;
  }

  lemma {:induction false} EncodeUndoesParseItems(nfc: string -> string, bs: seq<Byte>, n: nat)
    requires ParseItems(nfc, bs, n).Some?
    ensures var (vs, rest) := ParseItems(nfc, bs, n).value;
            && |vs| == n && bs == EncodeItems(vs) + rest
            && forall i :: 0 <= i < n ==> Fits(vs[i]) && Clean(nfc, vs[i])
    decreases |bs|, n + 1
  {
    hide Parse, Varint, Fits, Clean;
    if n > 0 {
      EncodeUndoesParse(nfc, bs);
      var (v, tail) := Parse(nfc, bs).value;
      EncodeUndoesParseItems(nfc, tail, n - 1);
      var (vs, rest) := ParseItems(nfc, tail, n - 1).value;
      assert EncodeItems([v] + vs) == Encode(v) + EncodeItems(vs) by { assert ([v] + vs)[1..] == vs; }
    }
  }

  lemma LegalKey(nfc: string -> string, k: string)
    requires Fits(Str(k)) && Clean(nfc, Str(k))
    ensures TextFits(k) && StringOk(nfc, k)
  {
  }

  lemma LegalEntriesCons(nfc: string -> string, e: Entry, es: seq<Entry>, seen: set<string>)
    requires LegalEntry(nfc, e) && e.key !in seen && LegalEntries(nfc, es, seen + {e.key})
    ensures LegalEntries(nfc, [e] + es, seen)
  {
  }

  lemma LegalMap(nfc: string -> string, es: seq<Entry>)
    requires LegalEntries(nfc, es, {}) && |es| < U32
    ensures Fits(Map(es)) && Clean(nfc, Map(es))
  {
    assert forall i :: 0 <= i < |es| ==> LegalEntry(nfc, es[i]);
  }

  lemma {:induction false} EncodeUndoesParseEntries(nfc: string -> string, bs: seq<Byte>, n: nat, seen: set<string>)
    requires ParseEntries(nfc, bs, n, seen).Some?
    ensures var (es, rest) := ParseEntries(nfc, bs, n, seen).value;
            |es| == n && bs == EncodeEntries(es) + rest && LegalEntries(nfc, es, seen)
    decreases |bs|, n + 1
  {
    hide Parse, Varint, Fits, Clean;
    if n > 0 {
      EncodeUndoesParse(nfc, bs);
      var (key, middle) := Parse(nfc, bs).value;
      EncodeUndoesParse(nfc, middle);
      var (v, tail) := Parse(nfc, middle).value;
      EncodeUndoesParseEntries(nfc, tail, n - 1, seen + {key.s});
      var (es, rest) := ParseEntries(nfc, tail, n - 1, seen + {key.s}).value;
      EncodeEntriesCons(Entry(key.s, v), es, rest);
      LegalKey(nfc, key.s);
      LegalEntriesCons(nfc, Entry(key.s, v), es, seen);
    }
  }

  // ---------------------------------------------------------------- no encoding begins another

  lemma CountedPrefixFree(a: seq<Byte>, x: seq<Byte>, b: seq<Byte>, y: seq<Byte>)
    requires |a| < U32 && |b| < U32 && Counted(a) + x == Counted(b) + y
    ensures a == b && x == y
  {
    ReadCountedUndoes(a, x);
    ReadCountedUndoes(b, y);
  }

  lemma StringPrefixFree(a: string, x: seq<Byte>, b: string, y: seq<Byte>)
    requires TextFits(a) && TextFits(b) && EncodeString(a) + x == EncodeString(b) + y
    ensures a == b && x == y
  {
    hide Counted, Utf8.Encode;
    var one, other := Counted(Utf8.Encode(a)) + x, Counted(Utf8.Encode(b)) + y;
    assert EncodeString(a) + x == [0x04] + one && EncodeString(b) + y == [0x04] + other;
    assert one == ([0x04] + one)[1..] == ([0x04] + other)[1..] == other;
    CountedPrefixFree(Utf8.Encode(a), x, Utf8.Encode(b), y);
    Utf8.EncodeInjective(a, b);
  }

  lemma CountPrefixFree(m: nat, a: seq<Byte>, x: seq<Byte>, n: nat, b: seq<Byte>, y: seq<Byte>)
    requires m < U32 && n < U32 && (Varint(m % U32) + a) + x == (Varint(n % U32) + b) + y
    ensures m == n && a + x == b + y
  {
    ReadCountUndoes(m, a, x);
    ReadCountUndoes(n, b, y);
  }

  lemma IntPrefixFree(i: int64, x: seq<Byte>, j: int64, y: seq<Byte>)
    requires IntBytes(i) + x == IntBytes(j) + y
    ensures i == j && x == y
  {
    ReadIntUndoes(i, x);
    ReadIntUndoes(j, y);
  }

  /** The first byte tells the kind of value, and for booleans the value. */
  lemma TagsTell(a: Value, x: seq<Byte>, b: Value, y: seq<Byte>)
    requires Encode(a) + x == Encode(b) + y
    ensures Encode(a)[0] == Encode(b)[0] && Encode(a)[1..] + x == Encode(b)[1..] + y
  {
    hide Encode;
    assert Encode(a)[0] == (Encode(a) + x)[0] && Encode(b)[0] == (Encode(b) + y)[0];
    assert Encode(a)[1..] + x == (Encode(a) + x)[1..] && Encode(b)[1..] + y == (Encode(b) + y)[1..];
  }

  /**
    No encoding is a proper prefix of another, and different values encode differently, whatever
    strings and keys they hold.
   */
  lemma {:induction false} PrefixFree(a: Value, x: seq<Byte>, b: Value, y: seq<Byte>)
    requires Fits(a) && Fits(b)
    requires Encode(a) + x == Encode(b) + y
    ensures a == b && x == y
    decreases a
  {
    hide Varint, Counted, IntBytes, EncodeItems, EncodeEntries, Utf8.Encode;
    TagsTell(a, x, b, y);
    match a
    case Null => assert x == [] + x == [] + y == y;
    case Bool(_) => assert x == [] + x == [] + y == y;
    case Int(i) => IntPrefixFree(i, x, b.i, y);
    case Str(s) => StringPrefixFree(s, x, b.s, y);
    case Bytes(bs) => CountedPrefixFree(bs, x, b.bs, y);
    case Array(items) =>
      CountPrefixFree(|items|, EncodeItems(items), x, |b.items|, EncodeItems(b.items), y);
      ItemsPrefixFree(items, x, b.items, y);
    case Map(es) =>
      CountPrefixFree(|es|, EncodeEntries(es), x, |b.entries|, EncodeEntries(b.entries), y);
      EntriesPrefixFree(es, x, b.entries, y);
  }

  lemma {:induction false} ItemsPrefixFree(a: seq<Value>, x: seq<Byte>, b: seq<Value>, y: seq<Byte>)
    requires |a| == |b| && forall i :: 0 <= i < |a| ==> Fits(a[i]) && Fits(b[i])
    requires EncodeItems(a) + x == EncodeItems(b) + y
    ensures a == b && x == y
    decreases a
  {
    hide Fits, Encode;
    if a == [] {
      assert [] + x == x && [] + y == y;
    } else {
      var one, other := EncodeItems(a[1..]) + x, EncodeItems(b[1..]) + y;
      assert EncodeItems(a) + x == Encode(a[0]) + one && EncodeItems(b) + y == Encode(b[0]) + other;
      PrefixFree(a[0], one, b[0], other);
      ItemsPrefixFree(a[1..], x, b[1..], y);
      assert a == [a[0]] + a[1..] && b == [b[0]] + b[1..];
    }
  }

  lemma {:induction false} EntriesPrefixFree(a: seq<Entry>, x: seq<Byte>, b: seq<Entry>, y: seq<Byte>)
    requires |a| == |b|
    requires forall i :: 0 <= i < |a| ==>
               TextFits(a[i].key) && TextFits(b[i].key) && Fits(a[i].value) && Fits(b[i].value)
    requires EncodeEntries(a) + x == EncodeEntries(b) + y
    ensures a == b && x == y
    decreases a
  {
    hide Fits, TextFits, Encode, EncodeString;
    if a == [] {
      assert [] + x == x && [] + y == y;
    } else {
      EncodeEntriesCons(a[0], a[1..], x);
      EncodeEntriesCons(b[0], b[1..], y);
      assert a == [a[0]] + a[1..] && b == [b[0]] + b[1..];
      hide EncodeEntries;
      var one, other := EncodeEntries(a[1..]) + x, EncodeEntries(b[1..]) + y;
      StringPrefixFree(a[0].key, Encode(a[0].value) + one, b[0].key, Encode(b[0].value) + other);
      PrefixFree(a[0].value, one, b[0].value, other);
      EntriesPrefixFree(a[1..], x, b[1..], y);
    }
  }

  // ---------------------------------------------------------------- theorems

  lemma ParseSliceOfEncoding(nfc: string -> string, v: Value)
    requires Fits(v) && Clean(nfc, v)
    ensures ParseSlice(nfc, EncodeToVec(v)) == Some(v)
  {
    var bs := EncodeToVec(v);
    assert bs[..4] == MAGIC && bs[4..] == Encode(v) + [];
    ParseUndoesEncode(nfc, v, []);
  }

  lemma EncodingOfParseSlice(nfc: string -> string, bs: seq<Byte>)
    requires ParseSlice(nfc, bs).Some?
    ensures var v := ParseSlice(nfc, bs).value;
            Fits(v) && Clean(nfc, v) && EncodeToVec(v) == bs
  {
    EncodeUndoesParse(nfc, bs[4..]);
    var v := ParseSlice(nfc, bs).value;
    assert bs == bs[..4] + bs[4..] && Encode(v) + [] == Encode(v);
  }

  /**
    Decoding undoes encoding for exactly those values whose lengths fit 32 bits and whose strings
    are NFC and free of a byte-order mark.
   */
  lemma DecodeUndoesEncode(nfc: string -> string, v: Value)
    requires Canonical(v)
    ensures DecodeFromSlice(nfc, EncodeToVec(v)) == Some(v) <==> Fits(v) && Clean(nfc, v)
  {
    if Fits(v) && Clean(nfc, v) {
      ParseSliceOfEncoding(nfc, v);
      CanonFixed(v);
    }
    if DecodeFromSlice(nfc, EncodeToVec(v)) == Some(v) {
      EncodingOfParseSlice(nfc, EncodeToVec(v));
      CanonKeeps(nfc, ParseSlice(nfc, EncodeToVec(v)).value);
    }
  }

  /** Accepted bytes re-encode to themselves exactly when every map on the wire lists its keys in order. */
  lemma ReencodeExactlyWhenOrdered(nfc: string -> string, bs: seq<Byte>)
    requires DecodeFromSlice(nfc, bs).Some?
    ensures EncodeToVec(DecodeFromSlice(nfc, bs).value) == bs <==> Canonical(ParseSlice(nfc, bs).value)
  {
    var wire := ParseSlice(nfc, bs).value;
    EncodingOfParseSlice(nfc, bs);
    CanonKeeps(nfc, wire);
    if Canonical(wire) { CanonFixed(wire); }
    if EncodeToVec(Canon(wire)) == bs {
      assert Encode(Canon(wire)) == EncodeToVec(Canon(wire))[4..] == EncodeToVec(wire)[4..] == Encode(wire);
      PrefixFree(Canon(wire), [], wire, []);
    }
  }
}
