/** Exactly which values the input normaliser leaves alone the second time. */
module Idempotence {
  import opened Prelude
  import opened Json
  import opened Normalizer
  import N = Nrf

  // ---------------------------------------------------------------- values whose timestamps were canonicalised once

  ghost predicate Image(r: Rules, s: string) {
    exists n :: RhoString(r.nfc, n) && s == Restamp(r, n)
  }

  /** Every string under a timestamp key has been through the canonicaliser. */
  ghost predicate ImageForm(r: Rules, w: Json, parent: Option<string>)
    decreases w
  {
    match w
    case Str(s) => StampedUnder(parent) ==> Image(r, s)
    case Array(items) => forall i :: 0 <= i < |items| ==> ImageForm(r, items[i], None)
    case Object(ms) => forall i :: 0 <= i < |ms| ==> ImageForm(r, ms[i].value, Some(ms[i].key))
    case _ => true
  }

  lemma {:induction false} NormalizeGivesImages(r: Rules, v: Json, parent: Option<string>)
    requires Lawful(r) && Normalize(r, v, parent).Some?
    ensures ImageForm(r, Normalize(r, v, parent).value, parent)
    decreases v
  {
    hide Lawful, AsSet, RhoString, NormalizeItems, NormalizeMembers, Scalar, Restamp;
    match v
    case Str(s) =>
      ScalarIsRho(r, s);
      assert StampedUnder(parent) ==> Image(r, Restamp(r, Scalar(r, s).value));
    case Array(items) =>
      ItemsGiveImages(r, items);
      var out := NormalizeItems(r, items).value;
      if SetUnder(parent) {
        AsSetProperties(r.nfc, out);
        var elements := AsSet(r.nfc, out).value;
        forall i | 0 <= i < |elements| ensures ImageForm(r, elements[i], None) { assert elements[i] in out; }
      }
    case Object(ms) => MembersGiveImages(r, ms);
    case _ =>
  }

  lemma {:induction false} ItemsGiveImages(r: Rules, items: seq<Json>)
    requires Lawful(r) && NormalizeItems(r, items).Some?
    ensures var out := NormalizeItems(r, items).value; forall i :: 0 <= i < |out| ==> ImageForm(r, out[i], None)
    decreases items
  {
    hide Lawful, Normalize, ImageForm;
    if items != [] {
      ItemsGiveImages(r, items[..|items| - 1]);
      NormalizeGivesImages(r, items[|items| - 1], None);
    }
  }

  lemma {:induction false} MembersGiveImages(r: Rules, ms: seq<Member>)
    requires Lawful(r) && NormalizeMembers(r, ms).Some?
    ensures var out := NormalizeMembers(r, ms).value; forall i :: 0 <= i < |out| ==> ImageForm(r, out[i].value, Some(out[i].key))
    decreases ms
  {
    hide Lawful, Normalize, ImageForm, Key;
    if ms != [] {
      var n := |ms| - 1;
      MembersGiveImages(r, ms[..n]);
      NormalizeGivesImages(r, ms[n].value, Some(Key(r, ms[n].key).value));
    }
  }

  // ---------------------------------------------------------------- what is left to drift

  /**
    A measure of how far a text is from settling: canonicalising a canonical text again brings it down, and
    leaves it only where it leaves the text. Such a measure rules out that texts change places for ever.
   */
  ghost predicate Measures(r: Rules, dist: string -> nat) {
    forall n :: RhoString(r.nfc, n) ==>
                  var x := Restamp(r, n);
                  dist(Restamp(r, x)) <= dist(x) && (Restamp(r, x) != x ==> dist(Restamp(r, x)) < dist(x))
  }

  ghost function Total(dist: string -> nat, w: Json, parent: Option<string>): nat
    decreases w
  {
    match w
    case Str(s) => if StampedUnder(parent) then dist(s) else 0
    case Array(items) => TotalItems(dist, items)
    case Object(ms) => TotalMembers(dist, ms)
    case _ => 0
  }

  ghost function TotalItems(dist: string -> nat, items: seq<Json>): nat
    decreases items
  {
    if items == [] then 0 else TotalItems(dist, items[..|items| - 1]) + Total(dist, items[|items| - 1], None)
  }

  ghost function TotalMembers(dist: string -> nat, ms: seq<Member>): nat
    decreases ms
  {
    if ms == [] then 0
    else TotalMembers(dist, ms[..|ms| - 1]) + Total(dist, ms[|ms| - 1].value, Some(ms[|ms| - 1].key))
  }

  // Sorting keeps the sum over a list and dropping repeats lowers it.

  ghost function TotalKeyed(dist: string -> nat, ps: seq<Keyed>): nat {
    if ps == [] then 0 else Total(dist, ps[0].item, None) + TotalKeyed(dist, ps[1..])
  }

  lemma {:induction false} TotalKeyedSnoc(dist: string -> nat, ps: seq<Keyed>, p: Keyed)
    ensures TotalKeyed(dist, ps + [p]) == TotalKeyed(dist, ps) + Total(dist, p.item, None)
  {
    hide Total;
    if ps == [] {
      assert ps + [p] == [p] && [p][1..] == [];
    } else {
      assert (ps + [p])[1..] == ps[1..] + [p];
      TotalKeyedSnoc(dist, ps[1..], p);
    }
  }

  lemma {:induction false} TotalOfItems(dist: string -> nat, ps: seq<Keyed>)
    ensures TotalItems(dist, Items(ps)) == TotalKeyed(dist, ps)
  {
    hide Total;
    if ps != [] {
      var n := |ps| - 1;
      TotalOfItems(dist, ps[..n]);
      assert Items(ps)[..n] == Items(ps[..n]);
      assert ps == ps[..n] + [ps[n]];
      TotalKeyedSnoc(dist, ps[..n], ps[n]);
    }
  }

  lemma {:induction false} InsertKeepsTotal(dist: string -> nat, ps: seq<Keyed>, p: Keyed)
    ensures TotalKeyed(dist, StableInsert(ps, p)) == TotalKeyed(dist, ps) + Total(dist, p.item, None)
  {
    hide Total, Less;
    if ps == [] || Less(p.bytes, ps[0].bytes) {
      assert ([p] + ps)[1..] == ps;
    } else {
      InsertKeepsTotal(dist, ps[1..], p);
      assert ([ps[0]] + StableInsert(ps[1..], p))[1..] == StableInsert(ps[1..], p);
    }
  }

  lemma {:induction false} SortKeepsTotal(dist: string -> nat, ps: seq<Keyed>)
    ensures TotalKeyed(dist, StableSort(ps)) == TotalKeyed(dist, ps)
  {
    hide Total, StableInsert;
    if ps != [] {
      var n := |ps| - 1;
      SortKeepsTotal(dist, ps[..n]);
      InsertKeepsTotal(dist, StableSort(ps[..n]), ps[n]);
      assert ps == ps[..n] + [ps[n]];
      TotalKeyedSnoc(dist, ps[..n], ps[n]);
    }
  }

  lemma {:induction false} DedupLowersTotal(dist: string -> nat, ps: seq<Keyed>)
    ensures TotalKeyed(dist, Dedup(ps)) <= TotalKeyed(dist, ps)
    decreases |ps|
  {
    hide Total;
    if |ps| >= 2 {
      if ps[0].bytes == ps[1].bytes {
        var qs := [ps[0]] + ps[2..];
        DedupLowersTotal(dist, qs);
        assert qs[1..] == ps[2..] && ps[1..][1..] == ps[2..];
      } else {
        DedupLowersTotal(dist, ps[1..]);
        assert ([ps[0]] + Dedup(ps[1..]))[1..] == Dedup(ps[1..]);
      }
    }
  }

  lemma AsSetLowersTotal(nfc: string -> string, dist: string -> nat, items: seq<Json>)
    requires AsSet(nfc, items).Some?
    ensures TotalItems(dist, AsSet(nfc, items).value) <= TotalItems(dist, items)
  {
    hide TotalItems, TotalKeyed, StableSort, Dedup;
    var ps := KeyAll(nfc, items).value;
    SortKeepsTotal(dist, ps);
    DedupLowersTotal(dist, StableSort(ps));
    TotalOfItems(dist, ps);
    TotalOfItems(dist, Dedup(StableSort(ps)));
    assert Items(ps) == items;
  }

  // ---------------------------------------------------------------- normalising again drains it

  /** Normalising a normalised value does not raise the measure, and keeps it only if every timestamp stays. */
  lemma {:induction false} Drains(r: Rules, dist: string -> nat, w: Json, parent: Option<string>)
    requires Lawful(r) && Measures(r, dist) && NormalForm(r, w, parent, false) && ImageForm(r, w, parent)
    requires Normalize(r, w, parent).Some?
    ensures var u := Normalize(r, w, parent).value;
            Total(dist, u, parent) <= Total(dist, w, parent)
            && (Total(dist, u, parent) == Total(dist, w, parent) ==> NormalForm(r, w, parent, true))
    decreases w
  {
    hide Lawful, Measures, AsSet, SetForm, RhoString, NormalizeItems, NormalizeMembers, Scalar, Restamp, TotalItems, TotalMembers;
    match w
    case Str(s) => StringDrains(r, dist, s, parent);
    case Array(items) =>
      ItemsDrain(r, dist, items);
      if SetUnder(parent) { AsSetLowersTotal(r.nfc, dist, NormalizeItems(r, items).value); }
    case Object(ms) => MembersDrain(r, dist, ms);
    case _ =>
  }

  lemma StringDrains(r: Rules, dist: string -> nat, s: string, parent: Option<string>)
    requires Lawful(r) && Measures(r, dist) && NormalForm(r, Str(s), parent, false) && ImageForm(r, Str(s), parent)
    ensures var u := Normalize(r, Str(s), parent);
            u.Some? && Total(dist, u.value, parent) <= Total(dist, Str(s), parent)
            && (Total(dist, u.value, parent) == Total(dist, Str(s), parent) ==> NormalForm(r, Str(s), parent, true))
  {
    hide Lawful, Restamp;
    ScalarFixed(r, s);
    if StampedUnder(parent) {
      var n :| RhoString(r.nfc, n) && s == Restamp(r, n);
    }
  }

  lemma {:induction false} ItemsDrain(r: Rules, dist: string -> nat, items: seq<Json>)
    requires Lawful(r) && Measures(r, dist) && NormalizeItems(r, items).Some?
    requires forall i :: 0 <= i < |items| ==> NormalForm(r, items[i], None, false) && ImageForm(r, items[i], None)
    ensures var out := NormalizeItems(r, items).value;
            TotalItems(dist, out) <= TotalItems(dist, items)
            && (TotalItems(dist, out) == TotalItems(dist, items) ==> forall i :: 0 <= i < |items| ==> NormalForm(r, items[i], None, true))
    decreases items
  {
    hide Lawful, Measures, Normalize, NormalForm, ImageForm, Total;
    if items != [] {
      var n := |items| - 1;
      ItemsDrain(r, dist, items[..n]);
      Drains(r, dist, items[n], None);
      var front, last := NormalizeItems(r, items[..n]).value, Normalize(r, items[n], None).value;
      assert (front + [last])[..|front|] == front;
      assert forall i :: 0 <= i < n ==> items[..n][i] == items[i];
    }
  }

  lemma {:induction false} MembersDrain(r: Rules, dist: string -> nat, ms: seq<Member>)
    requires Lawful(r) && Measures(r, dist) && NormalizeMembers(r, ms).Some?
    requires forall i, j :: 0 <= i < j < |ms| ==> ms[i].key != ms[j].key
    requires forall i :: 0 <= i < |ms| ==>
               && RhoString(r.nfc, ms[i].key) && ms[i].key != "" && Live(ms[i])
               && NormalForm(r, ms[i].value, Some(ms[i].key), false) && ImageForm(r, ms[i].value, Some(ms[i].key))
    ensures var out := NormalizeMembers(r, ms).value;
            TotalMembers(dist, out) <= TotalMembers(dist, ms)
            && (TotalMembers(dist, out) == TotalMembers(dist, ms) ==>
                  forall i :: 0 <= i < |ms| ==> NormalForm(r, ms[i].value, Some(ms[i].key), true))
    decreases ms
  {
    hide Lawful, Measures, Normalize, NormalForm, ImageForm, Total, RhoString, Scalar, TotalMembers;
    if ms != [] {
      var n := |ms| - 1;
      var key := ms[n].key;
      assert forall i :: 0 <= i < n ==> ms[..n][i] == ms[i];
      MembersDrain(r, dist, ms[..n]);
      ScalarFixed(r, key);
      Drains(r, dist, ms[n].value, Some(key));
      var front, v := NormalizeMembers(r, ms[..n]).value, Normalize(r, ms[n].value, Some(key)).value;
      if v.Null? { OnlyNullBecomesNull(r, ms[n].value, Some(key)); }
      assert ms == ms[..n] + [ms[n]];
      TotalSnoc(dist, ms[..n], ms[n]);
      TotalSnoc(dist, front, Member(key, v));
    }
  }

  lemma TotalSnoc(dist: string -> nat, ms: seq<Member>, m: Member)
    ensures TotalMembers(dist, ms + [m]) == TotalMembers(dist, ms) + Total(dist, m.value, Some(m.key))
  {
    hide Total;
    assert (ms + [m])[..|ms|] == ms;
  }

  lemma OnlyNullBecomesNull(r: Rules, v: Json, parent: Option<string>)
    requires Normalize(r, v, parent).Some? && Normalize(r, v, parent).value.Null?
    ensures v.Null?
  {
    hide Scalar, AsSet;
  }

  /** Normalising twice is the same as once exactly when every timestamp of the first result stays as it is. */
  lemma SecondTimeExactly(r: Rules, dist: string -> nat, v: Json, parent: Option<string>)
    requires Lawful(r) && Measures(r, dist) && Normalize(r, v, parent).Some?
    ensures var w := Normalize(r, v, parent).value;
            Normalize(r, w, parent) == Some(w) <==> NormalForm(r, w, parent, true)
  {
    hide Lawful, Measures, Normalize, NormalForm, ImageForm, Total;
    var w := Normalize(r, v, parent).value;
    if NormalForm(r, w, parent, true) { NormalFormFixed(r, w, parent); }
    if Normalize(r, w, parent) == Some(w) {
      NormalizeReachesNormalForm(r, v, parent, false);
      NormalizeGivesImages(r, v, parent);
      Drains(r, dist, w, parent);
    }
  }

  // ---------------------------------------------------------------- back to the value that went in

  /** The elements of every set-like array, once normalised, are shorter than 2^32 throughout. */
  ghost predicate ShortSets(r: Rules, v: Json, parent: Option<string>)
    decreases v
  {
    match v
    case Array(items) =>
      && (forall i :: 0 <= i < |items| ==> ShortSets(r, items[i], None))
      && (SetUnder(parent) && NormalizeItems(r, items).Some? ==>
            forall i :: 0 <= i < |NormalizeItems(r, items).value| ==> Short(NormalizeItems(r, items).value[i]))
    case Object(ms) => forall i :: 0 <= i < |ms| && Key(r, ms[i].key).Some? ==> ShortSets(r, ms[i].value, Key(r, ms[i].key))
    case _ => true
  }

  /** What an equivalent value's timestamps do, a normalised value's do. */
  lemma {:induction false} EquivalentSettles(r: Rules, a: Json, b: Json, parent: Option<string>)
    requires NormalForm(r, a, parent, true) && NormalForm(r, b, parent, false) && Equiv(a, b)
    ensures NormalForm(r, b, parent, true)
    decreases b
  {
    hide Equiv, SetForm, RhoString, Restamp;
    EquivShape(a, b);
    match b
    case Array(ys) =>
      forall i | 0 <= i < |ys| ensures NormalForm(r, ys[i], None, true) { EquivalentSettles(r, a.items[i], ys[i], None); }
    case Object(ns) =>
      forall k | 0 <= k < |ns| ensures NormalForm(r, ns[k].value, Some(ns[k].key), true) {
        var i := EquivRight(a.members, ns, k);
        EquivalentSettles(r, a.members[i].value, ns[k].value, Some(ns[k].key));
      }
    case _ =>
  }

  /** Every element that went into a set form has an equal among those that came out, by its canonical bytes. */
  lemma KeptEqual(nfc: string -> string, items: seq<Json>, i: nat) returns (k: nat)
    requires AsSet(nfc, items).Some? && i < |items|
    ensures k < |AsSet(nfc, items).value|
    ensures CanonicalBytes(nfc, items[i]).Some? && CanonicalBytes(nfc, AsSet(nfc, items).value[k]) == CanonicalBytes(nfc, items[i])
  {
    hide CanonicalBytes, StableSort, Dedup;
    AsSetProperties(nfc, items);
    var ps, qs := KeyAll(nfc, items).value, KeyAll(nfc, AsSet(nfc, items).value).value;
    assert HasBytes(qs, ps[i].bytes);
    k :| 0 <= k < |qs| && qs[k].bytes == ps[i].bytes;
  }

  lemma SetItemsSettle(r: Rules, out: seq<Json>, i: nat)
    requires AsSet(r.nfc, out).Some? && i < |out| && (forall j :: 0 <= j < |out| ==> NormalForm(r, out[j], None, false) && Short(out[j]))
    requires forall k :: 0 <= k < |AsSet(r.nfc, out).value| ==> NormalForm(r, AsSet(r.nfc, out).value[k], None, true)
    ensures NormalForm(r, out[i], None, true)
  {
    hide NormalForm, Short, AsSet, CanonicalBytes, Equiv;
    var k := KeptEqual(r.nfc, out, i);
    var kept := AsSet(r.nfc, out).value[k];
    AsSetProperties(r.nfc, out);
    assert kept in AsSet(r.nfc, out).value;
    var j :| 0 <= j < |out| && out[j] == kept;
    BytesMeanConversion(r.nfc, kept);
    BytesMeanConversion(r.nfc, out[i]);
    ShortBytesDecideEquivalence(r.nfc, kept, out[i]);
    EquivalentSettles(r, kept, out[i], None);
  }

  lemma BytesMeanConversion(nfc: string -> string, j: Json)
    ensures CanonicalBytes(nfc, j).Some? <==> ToNrf(nfc, j).Some?
  {
  }

  lemma {:induction false} NormalizedItem(r: Rules, items: seq<Json>, i: nat)
    requires NormalizeItems(r, items).Some? && i < |items|
    ensures |NormalizeItems(r, items).value| == |items| && Normalize(r, items[i], None) == Some(NormalizeItems(r, items).value[i])
    decreases items
  {
    hide Normalize;
    var n := |items| - 1;
    if i < n { NormalizedItem(r, items[..n], i); } else if n > 0 { NormalizedItem(r, items[..n], 0); }
  }

  lemma {:induction false} NormalizedMember(r: Rules, ms: seq<Member>, i: nat)
    requires NormalizeMembers(r, ms).Some? && i < |ms|
    ensures Key(r, ms[i].key).Some? && Normalize(r, ms[i].value, Key(r, ms[i].key)).Some?
    ensures var v := Normalize(r, ms[i].value, Key(r, ms[i].key)).value;
            v.Null? || Member(Key(r, ms[i].key).value, v) in NormalizeMembers(r, ms).value
    decreases ms
  {
    hide Normalize, Key;
    var n := |ms| - 1;
    assert Key(r, ms[n].key) == Some(Key(r, ms[n].key).value);
    if i < n { NormalizedMember(r, ms[..n], i); }
  }

  /** When every timestamp of the result stays, those of the value settle, repeats that a set form dropped included. */
  lemma {:induction false} ResultTellsOfValue(r: Rules, v: Json, parent: Option<string>)
    requires Lawful(r) && Normalize(r, v, parent).Some? && ShortSets(r, v, parent)
    requires NormalForm(r, Normalize(r, v, parent).value, parent, true)
    ensures TextsSettle(r, v, parent)
    decreases v
  {
    hide Lawful, AsSet, SetForm, RhoString, NormalizeItems, NormalizeMembers, Scalar, Restamp, Short, Key;
    match v
    case Str(s) =>
    case Array(items) =>
      var out := NormalizeItems(r, items).value;
      ItemsReachNormalForm(r, items, false);
      forall i | 0 <= i < |items| ensures TextsSettle(r, items[i], None) {
        NormalizedItem(r, items, i);
        assert NormalForm(r, out[i], None, true) by {
          if SetUnder(parent) { SetItemsSettle(r, out, i); }
        }
        ResultTellsOfValue(r, items[i], None);
      }
    case Object(ms) =>
      var out := NormalizeMembers(r, ms).value;
      forall i | 0 <= i < |ms| && Key(r, ms[i].key).Some? ensures TextsSettle(r, ms[i].value, Key(r, ms[i].key)) {
        NormalizedMember(r, ms, i);
        var k, u := Key(r, ms[i].key), Normalize(r, ms[i].value, Key(r, ms[i].key)).value;
        if u.Null? {
          OnlyNullBecomesNull(r, ms[i].value, k);
        } else {
          var j :| 0 <= j < |out| && out[j] == Member(k.value, u);
          ResultTellsOfValue(r, ms[i].value, k);
        }
      }
    case _ =>
  }

  /** Normalising this value twice is the same as once exactly when all its own timestamps settle. */
  lemma IdempotentExactly(r: Rules, dist: string -> nat, v: Json, parent: Option<string>)
    requires Lawful(r) && Measures(r, dist) && Normalize(r, v, parent).Some? && ShortSets(r, v, parent)
    ensures Normalize(r, Normalize(r, v, parent).value, parent) == Normalize(r, v, parent) <==> TextsSettle(r, v, parent)
  {
    hide Lawful, Measures, Normalize, NormalForm, TextsSettle, ShortSets;
    SecondTimeExactly(r, dist, v, parent);
    if TextsSettle(r, v, parent) { NormalizeReachesNormalForm(r, v, parent, true); }
    if NormalForm(r, Normalize(r, v, parent).value, parent, true) { ResultTellsOfValue(r, v, parent); }
  }
}
