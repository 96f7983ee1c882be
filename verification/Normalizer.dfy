/**
  The rho input normaliser: NFC and BOM stripping, null stripping, timestamps, set-like arrays.
  Unicode normalisation and the RFC 3339 canonicaliser are parameters.
 */
module Normalizer {
  import opened Prelude
  import opened Json
  import N = Nrf

  datatype Rules = Rules(nfc: string -> string, stamp: string -> Option<string>)

  predicate Ascii(s: string) {
    forall i :: 0 <= i < |s| ==> s[i] < 128 as char
  }

  /** What UAX #15 promises of NFC, and that a canonical timestamp is plain text. */
  ghost predicate Lawful(r: Rules) {
    && (forall s :: r.nfc(r.nfc(s)) == r.nfc(s))
    && (forall s :: N.BOM !in s ==> N.BOM !in r.nfc(s))
    && (forall s :: !HasControl(s) ==> !HasControl(r.nfc(s)))
    && (forall s :: Ascii(s) ==> r.nfc(s) == s)
    && (forall s :: r.stamp(s).Some? ==> RhoString(r.nfc, r.stamp(s).value))
  }

  // ---------------------------------------------------------------- scalars and keys

  function StripBom(s: string): (r: string)
    ensures N.BOM !in r
    ensures N.BOM !in s ==> r == s
  {
    if s == [] then []
    else if s[0] == N.BOM then StripBom(s[1..])
    else [s[0]] + StripBom(s[1..])
  }

  function Scalar(r: Rules, s: string): Option<string> {
    var plain := StripBom(s);
    if HasControl(plain) then None else Some(r.nfc(plain))
  }

  function Key(r: Rules, k: string): Option<string> {
    match Scalar(r, k)
    case None => None
    case Some(n) => if n == "" then None else Some(n)
  }

  function Lower(s: string): (r: string)
    ensures |r| == |s|
  {
    seq(|s|, i requires 0 <= i < |s| => if 'A' <= s[i] <= 'Z' then (s[i] as int + 32) as char else s[i])
  }

  predicate EndsWith(s: string, t: string) {
    |t| <= |s| && s[|s| - |t|..] == t
  }

  predicate TimestampKey(k: string) {
    var l := Lower(k);
    || EndsWith(l, "_at") || EndsWith(l, "_time") || EndsWith(l, "created")
    || EndsWith(l, "expires") || EndsWith(l, "issued")
  }

  predicate SetLikeKey(k: string) {
    k == "chip_types" || k == "policy_refs" || k == "evidence_cids" || k == "audience"
  }

  /** A string under a timestamp key: canonical if it parses, itself otherwise. */
  function Restamp(r: Rules, s: string): string {
    match r.stamp(s)
    case None => s
    case Some(t) => t
  }

  predicate StampedUnder(parent: Option<string>) {
    parent.Some? && TimestampKey(parent.value)
  }

  predicate SetUnder(parent: Option<string>) {
    parent.Some? && SetLikeKey(parent.value)
  }

  // ---------------------------------------------------------------- arrays as sets

  /** An element beside its canonical bytes. */
  datatype Keyed = Keyed(bytes: seq<Byte>, item: Json)

  function KeyAll(nfc: string -> string, items: seq<Json>): (r: Option<seq<Keyed>>)
    ensures r.Some? ==> |r.value| == |items| && forall i :: 0 <= i < |items| ==>
              r.value[i].item == items[i] && CanonicalBytes(nfc, items[i]) == Some(r.value[i].bytes)
    ensures r.None? ==> exists i :: 0 <= i < |items| && CanonicalBytes(nfc, items[i]) == None
  {
    if items == [] then Some([])
    else
      var last := |items| - 1;
      match KeyAll(nfc, items[..last])
      case None => None
      case Some(ps) =>
        match CanonicalBytes(nfc, items[last])
        case None => None
        case Some(b) => Some(ps + [Keyed(b, items[last])])
  }

  /** One step of a stable sort: behind everything not greater. */
  function StableInsert(ps: seq<Keyed>, p: Keyed): (r: seq<Keyed>)
    ensures multiset(r) == multiset(ps) + multiset{p}
  {
    if ps == [] || Less(p.bytes, ps[0].bytes) then [p] + ps
    else
      assert ps == [ps[0]] + ps[1..];
      [ps[0]] + StableInsert(ps[1..], p)
  }

  function StableSort(ps: seq<Keyed>): (r: seq<Keyed>)
    ensures multiset(r) == multiset(ps)
  {
    if ps == [] then []
    else
      assert ps == ps[..|ps| - 1] + [ps[|ps| - 1]];
      StableInsert(StableSort(ps[..|ps| - 1]), ps[|ps| - 1])
  }

  /** `dedup_by`: an element equal to the one kept before it goes. */
  function Dedup(ps: seq<Keyed>): seq<Keyed>
    decreases |ps|
  {
    if |ps| < 2 then ps
    else if ps[0].bytes == ps[1].bytes then Dedup([ps[0]] + ps[2..])
    else [ps[0]] + Dedup(ps[1..])
  }

  function Items(ps: seq<Keyed>): (r: seq<Json>)
    ensures |r| == |ps|
  {
    seq(|ps|, i requires 0 <= i < |ps| => ps[i].item)
  }

  /** `normalize_as_set_with_path`. */
  function AsSet(nfc: string -> string, items: seq<Json>): Option<seq<Json>> {
    match KeyAll(nfc, items)
    case None => None
    case Some(ps) => Some(Items(Dedup(StableSort(ps))))
  }

  // ---------------------------------------------------------------- the normaliser

  function Normalize(r: Rules, v: Json, parent: Option<string>): Option<Json>
    decreases v
  {
    match v
    case Str(s) =>
      (match Scalar(r, s)
       case None => None
       case Some(n) => Some(Str(if StampedUnder(parent) then Restamp(r, n) else n)))
    case Array(items) =>
      (match NormalizeItems(r, items)
       case None => None
       case Some(out) =>
         if !SetUnder(parent) then Some(Array(out))
         else
           match AsSet(r.nfc, out)
           case None => None
           case Some(elements) => Some(Array(elements)))
    case Object(ms) =>
      (match NormalizeMembers(r, ms)
       case None => None
       case Some(out) => Some(Object(out)))
    case _ => Some(v)
  }

  function NormalizeItems(r: Rules, items: seq<Json>): Option<seq<Json>>
    decreases items
  {
    if items == [] then Some([])
    else
      var last := |items| - 1;
      match NormalizeItems(r, items[..last])
      case None => None
      case Some(out) =>
        match Normalize(r, items[last], None)
        case None => None
        case Some(v) => Some(out + [v])
  }

  predicate HasMember(ms: seq<Member>, k: string) {
    exists i :: 0 <= i < |ms| && ms[i].key == k
  }

  function NormalizeMembers(r: Rules, ms: seq<Member>): Option<seq<Member>>
    decreases ms
  {
    if ms == [] then Some([])
    else
      var last := |ms| - 1;
      match NormalizeMembers(r, ms[..last])
      case None => None
      case Some(out) =>
        match Key(r, ms[last].key)
        case None => None
        case Some(k) =>
          match Normalize(r, ms[last].value, Some(k))
          case None => None
          case Some(v) =>
            if v.Null? then Some(out)
            else if HasMember(out, k) then None
            else Some(out + [Member(k, v)])
  }

  // ---------------------------------------------------------------- the loops of the normaliser

  lemma {:induction false} ItemsFailEarly(r: Rules, items: seq<Json>, k: nat)
    requires k <= |items| && NormalizeItems(r, items[..k]) == None
    ensures NormalizeItems(r, items) == None
    decreases |items| - k
  {
    hide Normalize;
    if k == |items| {
      assert items[..k] == items;
    } else {
      assert items[..k + 1][..k] == items[..k];
      ItemsFailEarly(r, items, k + 1);
    }
  }

  lemma {:induction false} MembersFailEarly(r: Rules, ms: seq<Member>, k: nat)
    requires k <= |ms| && NormalizeMembers(r, ms[..k]) == None
    ensures NormalizeMembers(r, ms) == None
    decreases |ms| - k
  {
    hide Normalize, Key;
    if k == |ms| {
      assert ms[..k] == ms;
    } else {
      assert ms[..k + 1][..k] == ms[..k];
      MembersFailEarly(r, ms, k + 1);
    }
  }

  /** `normalize_value_for_input`, without the path that its errors carry. */
  method NormalizeValue(r: Rules, v: Json, parent: Option<string>) returns (res: Option<Json>)
    ensures res == Normalize(r, v, parent)
    decreases v, 1
  {
    hide NormalizeItems, NormalizeMembers, AsSet, StampedUnder, SetUnder;
    match v
    case Null => return Some(Null);
    case Bool(b) => return Some(v);
    case Number(n) => return Some(v);
    case Str(s) =>
      var normalized := Scalar(r, s);
      if normalized == None { return None; }
      if StampedUnder(parent) { return Some(Str(Restamp(r, normalized.value))); }
      return Some(Str(normalized.value));
    case Array(items) =>
      var out := NormalizeArray(r, items);
      if out == None { return None; }
      if SetUnder(parent) {
        var elements := AsSet(r.nfc, out.value);
        if elements == None { return None; }
        return Some(Array(elements.value));
      }
      return Some(Array(out.value));
    case Object(ms) =>
      var out := NormalizeObject(r, ms);
      if out == None { return None; }
      return Some(Object(out.value));
  }

  method NormalizeArray(r: Rules, items: seq<Json>) returns (res: Option<seq<Json>>)
    ensures res == NormalizeItems(r, items)
    decreases items, 0
  {
    hide Normalize;
    var out := [];
    for k := 0 to |items|
      invariant NormalizeItems(r, items[..k]) == Some(out)
    {
      var item := NormalizeValue(r, items[k], None);
      assert items[..k + 1][..k] == items[..k];
      if item == None {
        ItemsFailEarly(r, items, k + 1);
        return None;
      }
      out := out + [item.value];
    }
    assert items[..|items|] == items;
    return Some(out);
  }

  method NormalizeObject(r: Rules, ms: seq<Member>) returns (res: Option<seq<Member>>)
    ensures res == NormalizeMembers(r, ms)
    decreases ms, 0
  {
    hide Normalize, Scalar;
    var out: seq<Member> := [];
    for k := 0 to |ms|
      invariant NormalizeMembers(r, ms[..k]) == Some(out)
    {
      assert ms[..k + 1][..k] == ms[..k];
      var key := Key(r, ms[k].key);
      if key == None {
        MembersFailEarly(r, ms, k + 1);
        return None;
      }
      var value := NormalizeValue(r, ms[k].value, Some(key.value));
      if value == None {
        MembersFailEarly(r, ms, k + 1);
        return None;
      }
      if value.value.Null? { continue; }
      if HasMember(out, key.value) {
        MembersFailEarly(r, ms, k + 1);
        return None;
      }
      out := out + [Member(key.value, value.value)];
    }
    assert ms[..|ms|] == ms;
    return Some(out);
  }

  // ---------------------------------------------------------------- what a set-like array becomes

  ghost predicate Ascending(ps: seq<Keyed>) {
    forall i, j :: 0 <= i < j < |ps| ==> AtMost(ps[i].bytes, ps[j].bytes)
  }

  ghost predicate StrictlyAscending(ps: seq<Keyed>) {
    forall i, j :: 0 <= i < j < |ps| ==> Less(ps[i].bytes, ps[j].bytes)
  }

  lemma AtMostTransitive(a: seq<Byte>, b: seq<Byte>, c: seq<Byte>)
    requires AtMost(a, b) && AtMost(b, c)
    ensures AtMost(a, c)
  {
    if Less(a, b) && Less(b, c) { LessTransitive(a, b, c); }
  }

  lemma {:induction false} StableInsertAscending(ps: seq<Keyed>, p: Keyed)
    requires Ascending(ps)
    ensures Ascending(StableInsert(ps, p))
  {
    hide Less;
    var out := StableInsert(ps, p);
    if ps != [] && !Less(p.bytes, ps[0].bytes) {
      LessTrichotomy(p.bytes, ps[0].bytes);
      var tail := StableInsert(ps[1..], p);
      StableInsertAscending(ps[1..], p);
      forall j | 0 <= j < |tail| ensures AtMost(ps[0].bytes, tail[j].bytes) {
        assert tail[j] in multiset(tail);
        if tail[j] in ps[1..] {
          var m :| 0 <= m < |ps[1..]| && ps[1..][m] == tail[j];
          assert ps[m + 1] == tail[j];
        }
      }
      assert forall j :: 0 < j < |out| ==> out[j] == tail[j - 1];
    } else if ps != [] {
      forall j | 0 <= j < |ps| ensures AtMost(p.bytes, ps[j].bytes) {
        AtMostTransitive(p.bytes, ps[0].bytes, ps[j].bytes);
      }
      assert forall j :: 0 < j < |out| ==> out[j] == ps[j - 1];
    }
  }

  lemma {:induction false} StableSortAscending(ps: seq<Keyed>)
    ensures Ascending(StableSort(ps))
  {
    if ps != [] {
      StableSortAscending(ps[..|ps| - 1]);
      StableInsertAscending(StableSort(ps[..|ps| - 1]), ps[|ps| - 1]);
    }
  }

  ghost predicate SameBytes(ps: seq<Keyed>, qs: seq<Keyed>) {
    && (forall i :: 0 <= i < |ps| ==> HasBytes(qs, ps[i].bytes))
    && (forall i :: 0 <= i < |qs| ==> HasBytes(ps, qs[i].bytes))
  }

  ghost predicate HasBytes(ps: seq<Keyed>, b: seq<Byte>) {
    exists i :: 0 <= i < |ps| && ps[i].bytes == b
  }

  lemma HasBytesCons(p: Keyed, ps: seq<Keyed>, b: seq<Byte>)
    ensures HasBytes([p] + ps, b) <==> p.bytes == b || HasBytes(ps, b)
  {
    var qs := [p] + ps;
    if i :| 0 <= i < |qs| && qs[i].bytes == b {
      if i > 0 { assert ps[i - 1].bytes == b; }
    }
    if i :| 0 <= i < |ps| && ps[i].bytes == b { assert qs[i + 1].bytes == b; }
    if p.bytes == b { assert qs[0].bytes == b; }
  }

  lemma AscendingTail(ps: seq<Keyed>)
    requires ps != [] && Ascending(ps)
    ensures Ascending(ps[1..])
  {
    hide Less;
  }

  lemma AscendingWithout(ps: seq<Keyed>)
    requires |ps| >= 2 && Ascending(ps)
    ensures Ascending([ps[0]] + ps[2..])
  {
    hide Less;
    var qs := [ps[0]] + ps[2..];
    assert forall i :: 0 < i < |qs| ==> qs[i] == ps[i + 1];
  }

  lemma StrictCons(p: Keyed, ds: seq<Keyed>)
    requires StrictlyAscending(ds) && (ds == [] || Less(p.bytes, ds[0].bytes))
    ensures StrictlyAscending([p] + ds)
  {
    hide Less;
    var out := [p] + ds;
    forall j | 0 <= j < |ds| ensures Less(p.bytes, ds[j].bytes) {
      if j > 0 { LessTransitive(p.bytes, ds[0].bytes, ds[j].bytes); }
    }
    assert forall j :: 0 < j < |out| ==> out[j] == ds[j - 1];
  }

  lemma NextIsGreater(ps: seq<Keyed>)
    requires |ps| >= 2 && Ascending(ps) && ps[0].bytes != ps[1].bytes
    ensures Less(ps[0].bytes, ps[1].bytes)
  {
    hide Less;
    assert AtMost(ps[0].bytes, ps[1].bytes);
  }

  /** Removing repeats from an ascending list leaves one element for each bytes value. */
  lemma {:induction false} DedupProperties(ps: seq<Keyed>)
    requires Ascending(ps)
    ensures StrictlyAscending(Dedup(ps))
    ensures forall b :: HasBytes(Dedup(ps), b) <==> HasBytes(ps, b)
    ensures forall p :: p in Dedup(ps) ==> p in ps
    ensures ps != [] ==> Dedup(ps) != [] && Dedup(ps)[0] == ps[0]
    decreases |ps|
  {
    hide Less, Ascending, HasBytes;
    if |ps| < 2 {
    } else {
      hide StrictlyAscending;
      var p, tail := ps[0], ps[1..];
      assert ps == [p] + tail && tail == [ps[1]] + ps[2..];
      if p.bytes == ps[1].bytes {
        AscendingWithout(ps);
        DedupProperties([p] + ps[2..]);
        forall b ensures HasBytes([p] + ps[2..], b) <==> HasBytes(ps, b) {
          HasBytesCons(p, ps[2..], b);
          HasBytesCons(p, tail, b);
          HasBytesCons(ps[1], ps[2..], b);
        }
      } else {
        AscendingTail(ps);
        DedupProperties(tail);
        NextIsGreater(ps);
        StrictCons(p, Dedup(tail));
        forall b ensures HasBytes([p] + Dedup(tail), b) <==> HasBytes(ps, b) {
          HasBytesCons(p, Dedup(tail), b);
          HasBytesCons(p, tail, b);
        }
      }
    }
  }

  /** A strictly ascending list is already a sorted set. */
  lemma {:induction false} SortFixed(ps: seq<Keyed>)
    requires StrictlyAscending(ps)
    ensures StableSort(ps) == ps
  {
    hide Less, StableInsert;
    if ps != [] {
      var n := |ps| - 1;
      SortFixed(ps[..n]);
      forall i | 0 <= i < n ensures !Less(ps[n].bytes, ps[i].bytes) {
        LessTrichotomy(ps[i].bytes, ps[n].bytes);
      }
      StableInsertLast(ps[..n], ps[n]);
      assert ps == ps[..n] + [ps[n]];
    }
  }

  lemma {:induction false} StableInsertLast(ps: seq<Keyed>, p: Keyed)
    requires forall i :: 0 <= i < |ps| ==> !Less(p.bytes, ps[i].bytes)
    ensures StableInsert(ps, p) == ps + [p]
  {
    if ps != [] {
      StableInsertLast(ps[1..], p);
      assert ps == [ps[0]] + ps[1..];
    }
  }

  lemma {:induction false} DedupFixed(ps: seq<Keyed>)
    requires StrictlyAscending(ps)
    ensures Dedup(ps) == ps
  {
    if |ps| >= 2 {
      LessTrichotomy(ps[0].bytes, ps[1].bytes);
      DedupFixed(ps[1..]);
      assert ps == [ps[0]] + ps[1..];
    }
  }

  /** The canonical bytes of the elements, strictly increasing. */
  ghost predicate SetForm(nfc: string -> string, items: seq<Json>) {
    KeyAll(nfc, items).Some? && StrictlyAscending(KeyAll(nfc, items).value)
  }

  lemma {:induction false} KeyAllOf(nfc: string -> string, ps: seq<Keyed>)
    requires forall i :: 0 <= i < |ps| ==> CanonicalBytes(nfc, ps[i].item) == Some(ps[i].bytes)
    ensures KeyAll(nfc, Items(ps)) == Some(ps)
  {
    hide CanonicalBytes;
    if ps != [] {
      var n := |ps| - 1;
      KeyAllOf(nfc, ps[..n]);
      assert Items(ps)[..n] == Items(ps[..n]);
      assert ps == ps[..n] + [ps[n]];
    }
  }

  /**
    A set-like array comes out with strictly increasing canonical bytes, one element for each
    canonical bytes value that went in, every element one that went in.
   */
  lemma AsSetProperties(nfc: string -> string, items: seq<Json>)
    requires AsSet(nfc, items).Some?
    ensures var out := AsSet(nfc, items).value;
            && SetForm(nfc, out)
            && KeyAll(nfc, items).Some? && SameBytes(KeyAll(nfc, items).value, KeyAll(nfc, out).value)
            && forall v :: v in out ==> v in items
  {
    hide CanonicalBytes, StableSort, Dedup, SameBytes, StrictlyAscending;
    var ps := KeyAll(nfc, items).value;
    var ds := Dedup(StableSort(ps));
    SortDedupProperties(ps);
    forall i | 0 <= i < |ds| ensures CanonicalBytes(nfc, ds[i].item) == Some(ds[i].bytes) {
      assert ds[i] in ps;
      var m :| 0 <= m < |ps| && ps[m] == ds[i];
    }
    KeyAllOf(nfc, ds);
    forall v | v in Items(ds) ensures v in items {
      var i :| 0 <= i < |ds| && Items(ds)[i] == v;
      assert ds[i] in ps;
      var m :| 0 <= m < |ps| && ps[m] == ds[i];
      assert items[m] == v;
    }
  }

  lemma SortDedupProperties(ps: seq<Keyed>)
    ensures var ds := Dedup(StableSort(ps));
            && StrictlyAscending(ds) && SameBytes(ps, ds)
            && forall i :: 0 <= i < |ds| ==> ds[i] in ps
  {
    hide StableSort, Dedup, Less;
    var sorted := StableSort(ps);
    var ds := Dedup(sorted);
    StableSortAscending(ps);
    DedupProperties(sorted);
    forall i | 0 <= i < |ds| ensures ds[i] in ps && HasBytes(ps, ds[i].bytes) {
      assert ds[i] in sorted;
      assert ds[i] in multiset(sorted);
      var m :| 0 <= m < |ps| && ps[m] == ds[i];
    }
    forall i | 0 <= i < |ps| ensures HasBytes(ds, ps[i].bytes) {
      assert ps[i] in multiset(ps);
      assert ps[i] in sorted;
      var m :| 0 <= m < |sorted| && sorted[m] == ps[i];
      assert HasBytes(sorted, ps[i].bytes);
    }
  }

  lemma AsSetFixed(nfc: string -> string, items: seq<Json>)
    requires SetForm(nfc, items)
    ensures AsSet(nfc, items) == Some(items)
  {
    var ps := KeyAll(nfc, items).value;
    SortFixed(ps);
    DedupFixed(ps);
    assert Items(ps) == items;
  }

  /** Two strictly ascending lists with the same bytes carry them in the same places. */
  lemma {:induction false} AscendingUnique(ps: seq<Keyed>, qs: seq<Keyed>)
    requires StrictlyAscending(ps) && StrictlyAscending(qs) && SameBytes(ps, qs)
    ensures |ps| == |qs| && forall i :: 0 <= i < |ps| ==> ps[i].bytes == qs[i].bytes
  {
    hide Less;
    if ps == [] || qs == [] {
      assert qs != [] ==> HasBytes(ps, qs[0].bytes);
      assert ps != [] ==> HasBytes(qs, ps[0].bytes);
    } else {
      assert HasBytes(qs, ps[0].bytes) && HasBytes(ps, qs[0].bytes);
      var i :| 0 <= i < |qs| && qs[i].bytes == ps[0].bytes;
      var j :| 0 <= j < |ps| && ps[j].bytes == qs[0].bytes;
      LessTrichotomy(ps[0].bytes, qs[0].bytes);
      assert ps[0].bytes == qs[0].bytes;
      TailHasBytes(ps, qs);
      TailHasBytes(qs, ps);
      AscendingUnique(ps[1..], qs[1..]);
      forall m | 0 < m < |ps| ensures m < |qs| && ps[m].bytes == qs[m].bytes {
        assert ps[m] == ps[1..][m - 1] && qs[m] == qs[1..][m - 1];
      }
    }
  }

  lemma TailHasBytes(ps: seq<Keyed>, qs: seq<Keyed>)
    requires ps != [] && qs != [] && ps[0].bytes == qs[0].bytes
    requires StrictlyAscending(ps) && forall i :: 0 <= i < |ps| ==> HasBytes(qs, ps[i].bytes)
    ensures forall i :: 0 <= i < |ps[1..]| ==> HasBytes(qs[1..], ps[1..][i].bytes)
  {
    hide Less;
    forall i | 0 <= i < |ps[1..]| ensures HasBytes(qs[1..], ps[1..][i].bytes) {
      assert ps[1..][i] == ps[i + 1];
      LessTrichotomy(ps[0].bytes, ps[i + 1].bytes);
      assert HasBytes(qs, ps[i + 1].bytes);
      var m :| 0 <= m < |qs| && qs[m].bytes == ps[i + 1].bytes;
      assert m > 0 && qs[1..][m - 1] == qs[m];
    }
  }

  /** The canonical bytes of the result depend only on the set of canonical element bytes. */
  lemma AsSetDependsOnBytesOnly(nfc: string -> string, a: seq<Json>, b: seq<Json>)
    requires AsSet(nfc, a).Some? && AsSet(nfc, b).Some?
    requires KeyAll(nfc, a).Some? && KeyAll(nfc, b).Some?
    requires SameBytes(KeyAll(nfc, a).value, KeyAll(nfc, b).value)
    ensures var x, y := AsSet(nfc, a).value, AsSet(nfc, b).value;
            |x| == |y| && forall i :: 0 <= i < |x| ==> CanonicalBytes(nfc, x[i]) == CanonicalBytes(nfc, y[i])
  {
    hide CanonicalBytes, Less, AsSet;
    var x, y := AsSet(nfc, a).value, AsSet(nfc, b).value;
    AsSetProperties(nfc, a);
    AsSetProperties(nfc, b);
    var px, py := KeyAll(nfc, x).value, KeyAll(nfc, y).value;
    SameBytesChain(px, KeyAll(nfc, a).value, KeyAll(nfc, b).value, py);
    AscendingUnique(px, py);
  }

  lemma SameBytesChain(p: seq<Keyed>, q: seq<Keyed>, r: seq<Keyed>, s: seq<Keyed>)
    requires SameBytes(q, p) && SameBytes(q, r) && SameBytes(r, s)
    ensures SameBytes(p, s)
  {
    forall i | 0 <= i < |p| ensures HasBytes(s, p[i].bytes) {
      assert HasBytes(q, p[i].bytes);
      var j :| 0 <= j < |q| && q[j].bytes == p[i].bytes;
      assert HasBytes(r, q[j].bytes);
      var k :| 0 <= k < |r| && r[k].bytes == q[j].bytes;
      assert HasBytes(s, r[k].bytes);
    }
    forall i | 0 <= i < |s| ensures HasBytes(p, s[i].bytes) {
      assert HasBytes(r, s[i].bytes);
      var k :| 0 <= k < |r| && r[k].bytes == s[i].bytes;
      assert HasBytes(q, r[k].bytes);
      var j :| 0 <= j < |q| && q[j].bytes == r[k].bytes;
      assert HasBytes(p, q[j].bytes);
    }
  }

  // ---------------------------------------------------------------- normal forms

  /**
    What normalisation leaves: every rho check on strings and keys passes and set-like arrays are in order;
    with `settled` also that timestamps stay as they are, so that nothing is left to do.
   */
  ghost predicate NormalForm(r: Rules, v: Json, parent: Option<string>, settled: bool)
    decreases v
  {
    match v
    case Str(s) => RhoString(r.nfc, s) && (settled && StampedUnder(parent) ==> Restamp(r, s) == s)
    case Array(items) =>
      && (forall i :: 0 <= i < |items| ==> NormalForm(r, items[i], None, settled))
      && (SetUnder(parent) ==> SetForm(r.nfc, items))
    case Object(ms) =>
      && (forall i, j :: 0 <= i < j < |ms| ==> ms[i].key != ms[j].key)
      && (forall i :: 0 <= i < |ms| ==>
            RhoString(r.nfc, ms[i].key) && ms[i].key != "" && Live(ms[i]) && NormalForm(r, ms[i].value, Some(ms[i].key), settled))
    case _ => true
  }

  /** The timestamp canonicaliser settles in one step on every string it can meet. */
  ghost predicate StampSettles(r: Rules) {
    forall s :: RhoString(r.nfc, s) ==> SettlesOn(r, s)
  }

  /** On every string under a timestamp key of this value, as normalisation meets it, the canonicaliser settles in one step. */
  ghost predicate TextsSettle(r: Rules, v: Json, parent: Option<string>)
    decreases v
  {
    match v
    case Str(s) => StampedUnder(parent) && Scalar(r, s).Some? ==> SettlesOn(r, Scalar(r, s).value)
    case Array(items) => forall i :: 0 <= i < |items| ==> TextsSettle(r, items[i], None)
    case Object(ms) => forall i :: 0 <= i < |ms| && Key(r, ms[i].key).Some? ==> TextsSettle(r, ms[i].value, Key(r, ms[i].key))
    case _ => true
  }

  predicate SettlesOn(r: Rules, s: string) {
    Restamp(r, Restamp(r, s)) == Restamp(r, s)
  }

  lemma {:induction false} AllTextsSettle(r: Rules, v: Json, parent: Option<string>)
    requires Lawful(r) && StampSettles(r)
    ensures TextsSettle(r, v, parent)
    decreases v
  {
    hide Lawful, RhoString, Restamp;
    match v
    case Str(s) => if Scalar(r, s).Some? { ScalarIsRho(r, s); }
    case Array(items) =>
      forall i | 0 <= i < |items| ensures TextsSettle(r, items[i], None) { AllTextsSettle(r, items[i], None); }
    case Object(ms) =>
      forall i | 0 <= i < |ms| && Key(r, ms[i].key).Some? ensures TextsSettle(r, ms[i].value, Key(r, ms[i].key)) {
        AllTextsSettle(r, ms[i].value, Key(r, ms[i].key));
      }
    case _ =>
  }

  lemma ScalarIsRho(r: Rules, s: string)
    requires Lawful(r) && Scalar(r, s).Some?
    ensures RhoString(r.nfc, Scalar(r, s).value)
  {
  }

  lemma ScalarFixed(r: Rules, s: string)
    requires RhoString(r.nfc, s)
    ensures Scalar(r, s) == Some(s)
  {
  }

  lemma {:induction false} NormalFormFixed(r: Rules, v: Json, parent: Option<string>)
    requires NormalForm(r, v, parent, true)
    ensures Normalize(r, v, parent) == Some(v)
    decreases v
  {
    match v
    case Str(s) => ScalarFixed(r, s);
    case Array(items) =>
      NormalItemsFixed(r, items);
      if SetUnder(parent) { AsSetFixed(r.nfc, items); }
    case Object(ms) => NormalMembersFixed(r, ms);
    case _ =>
  }

  lemma {:induction false} NormalItemsFixed(r: Rules, items: seq<Json>)
    requires forall i :: 0 <= i < |items| ==> NormalForm(r, items[i], None, true)
    ensures NormalizeItems(r, items) == Some(items)
    decreases items
  {
    hide Normalize, NormalForm;
    if items != [] {
      var n := |items| - 1;
      NormalItemsFixed(r, items[..n]);
      NormalFormFixed(r, items[n], None);
      assert items == items[..n] + [items[n]];
    }
  }

  lemma {:induction false} NormalMembersFixed(r: Rules, ms: seq<Member>)
    requires forall i, j :: 0 <= i < j < |ms| ==> ms[i].key != ms[j].key
    requires forall i :: 0 <= i < |ms| ==>
               RhoString(r.nfc, ms[i].key) && ms[i].key != "" && Live(ms[i]) && NormalForm(r, ms[i].value, Some(ms[i].key), true)
    ensures NormalizeMembers(r, ms) == Some(ms)
    decreases ms
  {
    hide Normalize, NormalForm, RhoString, Scalar;
    if ms != [] {
      var n := |ms| - 1;
      NormalMembersFixed(r, ms[..n]);
      ScalarFixed(r, ms[n].key);
      NormalFormFixed(r, ms[n].value, Some(ms[n].key));
      assert ms == ms[..n] + [ms[n]];
    }
  }

  /** The output passes every rho check, whatever timestamps do. */
  lemma {:induction false} NormalizeReachesNormalForm(r: Rules, v: Json, parent: Option<string>, settled: bool)
    requires Lawful(r) && (settled ==> TextsSettle(r, v, parent)) && Normalize(r, v, parent).Some?
    ensures NormalForm(r, Normalize(r, v, parent).value, parent, settled)
    decreases v
  {
    hide Lawful, AsSet, SetForm, RhoString, NormalizeItems, NormalizeMembers, Scalar, Restamp;
    match v
    case Str(s) => StringReachesNormalForm(r, s, parent, settled);
    case Array(items) =>
      ItemsReachNormalForm(r, items, settled);
      var out := NormalizeItems(r, items).value;
      if SetUnder(parent) {
        AsSetProperties(r.nfc, out);
        var elements := AsSet(r.nfc, out).value;
        forall i | 0 <= i < |elements| ensures NormalForm(r, elements[i], None, settled) {
          assert elements[i] in out;
        }
      }
    case Object(ms) => MembersReachNormalForm(r, ms, settled);
    case _ =>
  }

  lemma StringReachesNormalForm(r: Rules, s: string, parent: Option<string>, settled: bool)
    requires Lawful(r) && (settled ==> TextsSettle(r, Str(s), parent)) && Scalar(r, s).Some?
    ensures NormalForm(r, Normalize(r, Str(s), parent).value, parent, settled)
  {
    ScalarIsRho(r, s);
    var n := Scalar(r, s).value;
    assert RhoString(r.nfc, Restamp(r, n));
  }

  lemma {:induction false} ItemsReachNormalForm(r: Rules, items: seq<Json>, settled: bool)
    requires Lawful(r) && NormalizeItems(r, items).Some?
    requires settled ==> forall i :: 0 <= i < |items| ==> TextsSettle(r, items[i], None)
    ensures var out := NormalizeItems(r, items).value;
            |out| == |items| && forall i :: 0 <= i < |out| ==> NormalForm(r, out[i], None, settled)
    decreases items
  {
    hide Lawful, TextsSettle, Normalize, NormalForm;
    if items != [] {
      var n := |items| - 1;
      ItemsReachNormalForm(r, items[..n], settled);
      NormalizeReachesNormalForm(r, items[n], None, settled);
    }
  }

  lemma {:induction false} MembersReachNormalForm(r: Rules, ms: seq<Member>, settled: bool)
    requires Lawful(r) && NormalizeMembers(r, ms).Some?
    requires settled ==> forall i :: 0 <= i < |ms| && Key(r, ms[i].key).Some? ==> TextsSettle(r, ms[i].value, Key(r, ms[i].key))
    ensures NormalForm(r, Object(NormalizeMembers(r, ms).value), None, settled)
    decreases ms
  {
    hide Lawful, TextsSettle, Normalize, RhoString, Scalar;
    if ms != [] {
      var n := |ms| - 1;
      MembersReachNormalForm(r, ms[..n], settled);
      var front := NormalizeMembers(r, ms[..n]).value;
      var k := Key(r, ms[n].key).value;
      ScalarIsRho(r, ms[n].key);
      NormalizeReachesNormalForm(r, ms[n].value, Some(k), settled);
    }
  }

  /** Normalising a value twice is the same as once when its timestamps settle, whatever other texts do. */
  lemma NormalizeIdempotent(r: Rules, v: Json, parent: Option<string>)
    requires Lawful(r) && TextsSettle(r, v, parent) && Normalize(r, v, parent).Some?
    ensures var w := Normalize(r, v, parent).value;
            NormalForm(r, w, parent, true) && Normalize(r, w, parent) == Some(w)
  {
    NormalizeReachesNormalForm(r, v, parent, true);
    NormalFormFixed(r, Normalize(r, v, parent).value, parent);
  }

  ghost predicate IdempotentOnInput(r: Rules) {
    forall v :: Normalize(r, v, None).Some? ==>
                  Normalize(r, Normalize(r, v, None).value, None) == Normalize(r, v, None)
  }

  function Stamped(s: string): Json {
    Object([Member("_at", Str(s))])
  }

  lemma StampedNormalizes(r: Rules, s: string)
    requires Lawful(r) && RhoString(r.nfc, s)
    ensures Normalize(r, Stamped(s), None) == Some(Stamped(Restamp(r, s)))
  {
    hide RhoString, Scalar, TimestampKey;
    var ms := [Member("_at", Str(s))];
    assert ms[..0] == [];
    AtKey(r);
    ScalarFixed(r, s);
    assert Normalize(r, Str(s), Some("_at")) == Some(Str(Restamp(r, s)));
    assert NormalizeMembers(r, []) == Some([]);
    assert NormalizeMembers(r, ms) == Some([] + [Member("_at", Str(Restamp(r, s)))]);
    assert [] + [Member("_at", Str(Restamp(r, s)))] == [Member("_at", Str(Restamp(r, s)))];
  }

  lemma AtKey(r: Rules)
    requires Lawful(r)
    ensures TimestampKey("_at") && Key(r, "_at") == Some("_at")
  {
    assert Ascii("_at") && RhoString(r.nfc, "_at");
    ScalarFixed(r, "_at");
    assert Lower("_at") == "_at";
    assert EndsWith("_at", "_at");
  }

  /** Exactly when the timestamp canonicaliser settles is normalising an input twice the same as once. */
  lemma IdempotentExactlyWhenStampsSettle(r: Rules)
    requires Lawful(r)
    ensures IdempotentOnInput(r) <==> StampSettles(r)
  {
    if StampSettles(r) {
      forall v | Normalize(r, v, None).Some?
        ensures Normalize(r, Normalize(r, v, None).value, None) == Normalize(r, v, None)
      {
        AllTextsSettle(r, v, None);
        NormalizeIdempotent(r, v, None);
      }
    }
    if IdempotentOnInput(r) {
      forall s | RhoString(r.nfc, s) ensures SettlesOn(r, s) {
        StampedNormalizes(r, s);
        StampedNormalizes(r, Restamp(r, s));
      }
    }
  }
}
