/** What input normalisation makes of every kind of value, said part by part. */
module NormalizeExact {
  import opened Prelude
  import opened Json
  import opened Normalizer
  import N = Nrf

  // ---------------------------------------------------------------- texts and keys

  /** The text without its byte-order marks. */
  ghost function WithoutMarks(s: string): string {
    if s == [] then []
    else WithoutMarks(s[..|s| - 1]) + (if s[|s| - 1] as int == 0xFEFF then [] else [s[|s| - 1]])
  }

  lemma {:induction false} StripBomSnoc(s: string, c: char)
    ensures StripBom(s + [c]) == StripBom(s) + (if c == N.BOM then [] else [c])
  {
    if s == [] {
      assert s + [c] == [c] && [c][1..] == [];
    } else {
      assert (s + [c])[1..] == s[1..] + [c];
      StripBomSnoc(s[1..], c);
    }
  }

  /** Stripping takes out the marks and leaves every other character in its place. */
  lemma {:induction false} StripBomTakesMarks(s: string)
    ensures StripBom(s) == WithoutMarks(s)
  {
    if s != [] {
      var last := |s| - 1;
      StripBomTakesMarks(s[..last]);
      StripBomSnoc(s[..last], s[last]);
      assert s == s[..last] + [s[last]];
    }
  }

  /** A clean text becomes the NFC of what is left without its marks; one with control characters is refused. */
  ghost predicate TextBecomes(r: Rules, s: string, out: Option<string>) {
    var plain := WithoutMarks(s);
    if exists i :: 0 <= i < |plain| && plain[i] as int < 32 then out == None else out == Some(r.nfc(plain))
  }

  lemma ScalarMeans(r: Rules, s: string)
    ensures TextBecomes(r, s, Scalar(r, s))
  {
    StripBomTakesMarks(s);
  }

  /** A key becomes what a text would, but must not be empty then. */
  ghost predicate KeyBecomes(r: Rules, k: string, out: Option<string>) {
    (TextBecomes(r, k, out) && out != Some("")) || (TextBecomes(r, k, Some("")) && out == None)
  }

  lemma KeyMeans(r: Rules, k: string)
    ensures KeyBecomes(r, k, Key(r, k))
  {
    ScalarMeans(r, k);
  }

  ghost predicate SameLetter(a: char, b: char) {
    a == b || ('A' <= a <= 'Z' && b as int == a as int + 32)
  }

  /** The key ends in the word, capital letters read as small ones. */
  ghost predicate EndsInWord(k: string, word: string) {
    |word| <= |k| && forall i :: 0 <= i < |word| ==> SameLetter(k[|k| - |word| + i], word[i])
  }

  ghost predicate NamesTime(k: string) {
    EndsInWord(k, "_at") || EndsInWord(k, "_time") || EndsInWord(k, "created") || EndsInWord(k, "expires") || EndsInWord(k, "issued")
  }

  /** No capital letter. */
  ghost predicate SmallWord(w: string) {
    forall i :: 0 <= i < |w| ==> !('A' <= w[i] <= 'Z')
  }

  lemma EndsMean(k: string, word: string)
    requires SmallWord(word)
    ensures EndsWith(Lower(k), word) <==> EndsInWord(k, word)
  {
    var l := Lower(k);
    if EndsWith(l, word) {
      forall i | 0 <= i < |word| ensures SameLetter(k[|k| - |word| + i], word[i]) {
        assert l[|l| - |word|..][i] == word[i];
      }
    }
    if EndsInWord(k, word) {
      forall i | 0 <= i < |word| ensures l[|l| - |word|..][i] == word[i] {
        assert SameLetter(k[|k| - |word| + i], word[i]);
      }
      assert l[|l| - |word|..] == word;
    }
  }

  /** Timestamp keys are known by their ending. */
  lemma TimestampKeyMeans(k: string)
    ensures TimestampKey(k) <==> NamesTime(k)
  {
    hide Lower, EndsWith, EndsInWord;
    EndsMean(k, "_at");
    EndsMean(k, "_time");
    EndsMean(k, "created");
    EndsMean(k, "expires");
    EndsMean(k, "issued");
  }

  /** What a string under this parent becomes. */
  ghost predicate StringBecomes(r: Rules, s: string, parent: Option<string>, out: Option<Json>) {
    if TextBecomes(r, s, None) then out == None
    else
      var t := r.nfc(WithoutMarks(s));
      if parent.Some? && NamesTime(parent.value) && r.stamp(t).Some? then out == Some(Str(r.stamp(t).value)) else out == Some(Str(t))
  }

  lemma StringMeans(r: Rules, s: string, parent: Option<string>)
    ensures StringBecomes(r, s, parent, Normalize(r, Str(s), parent))
  {
    hide TimestampKey, NamesTime, WithoutMarks, StripBom;
    ScalarMeans(r, s);
    if parent.Some? { TimestampKeyMeans(parent.value); }
  }

  // ---------------------------------------------------------------- set-like arrays

  /** The elements with these canonical bytes, in order. */
  ghost function WithBytes(ps: seq<Keyed>, b: seq<Byte>): seq<Keyed> {
    if ps == [] then [] else IfBytes(ps[0], b) + WithBytes(ps[1..], b)
  }

  ghost function IfBytes(p: Keyed, b: seq<Byte>): seq<Keyed> {
    if p.bytes == b then [p] else []
  }

  lemma {:induction false} WithBytesSnoc(ps: seq<Keyed>, p: Keyed, b: seq<Byte>)
    ensures WithBytes(ps + [p], b) == WithBytes(ps, b) + IfBytes(p, b)
  {
    hide IfBytes;
    if ps == [] {
      assert ps + [p] == [p] && [p][1..] == [];
      assert WithBytes([p], b) == IfBytes(p, b) + WithBytes([], b);
    } else {
      var head, more := ps[0], ps[1..];
      assert (ps + [p])[1..] == more + [p];
      WithBytesSnoc(more, p, b);
      assert WithBytes(ps + [p], b) == IfBytes(head, b) + WithBytes(more + [p], b);
      Regrouped(IfBytes(head, b), WithBytes(more, b), IfBytes(p, b));
    }
  }

  lemma {:induction false} WithBytesOfLarger(ps: seq<Keyed>, b: seq<Byte>)
    requires forall i :: 0 <= i < |ps| ==> ps[i].bytes != b
    ensures WithBytes(ps, b) == []
  {
    if ps != [] { WithBytesOfLarger(ps[1..], b); }
  }

  lemma WithBytesCons(p: Keyed, ps: seq<Keyed>, b: seq<Byte>)
    ensures WithBytes([p] + ps, b) == IfBytes(p, b) + WithBytes(ps, b)
  {
    assert ([p] + ps)[1..] == ps;
  }

  /** Where an element goes before a greater one, none of those behind has its bytes. */
  lemma FrontIsStable(ps: seq<Keyed>, p: Keyed, b: seq<Byte>)
    requires Ascending(ps) && (ps == [] || Less(p.bytes, ps[0].bytes))
    ensures WithBytes([p] + ps, b) == WithBytes(ps, b) + IfBytes(p, b)
  {
    hide Less, Ascending, WithBytes;
    WithBytesCons(p, ps, b);
    if p.bytes == b {
      forall i | 0 <= i < |ps| ensures ps[i].bytes != b { Below(p, ps, i); }
      WithBytesOfLarger(ps, b);
      assert [p] + [] == [] + [p];
    } else {
      assert [] + WithBytes(ps, b) == WithBytes(ps, b) + [];
    }
  }

  lemma Regrouped(x: seq<Keyed>, y: seq<Keyed>, z: seq<Keyed>)
    ensures x + (y + z) == (x + y) + z
  {
  }

  lemma InsertUnfolds(ps: seq<Keyed>, p: Keyed)
    ensures ps == [] || Less(p.bytes, ps[0].bytes) ==> StableInsert(ps, p) == [p] + ps
    ensures ps != [] && !Less(p.bytes, ps[0].bytes) ==> StableInsert(ps, p) == [ps[0]] + StableInsert(ps[1..], p)
  {
  }

  /** The sort is stable: elements of equal bytes keep their order. */
  lemma {:induction false} InsertIsStable(ps: seq<Keyed>, p: Keyed, b: seq<Byte>)
    requires Ascending(ps)
    ensures WithBytes(StableInsert(ps, p), b) == WithBytes(ps, b) + IfBytes(p, b)
  {
    hide Less, WithBytes, Ascending, IfBytes, StableInsert;
    InsertUnfolds(ps, p);
    if ps == [] || Less(p.bytes, ps[0].bytes) {
      FrontIsStable(ps, p, b);
    } else {
      var head, more := ps[0], ps[1..];
      AscendingTail(ps);
      InsertIsStable(more, p, b);
      WithBytesCons(head, StableInsert(more, p), b);
      WithBytesCons(head, more, b);
      assert ps == [head] + more;
      Regrouped(IfBytes(head, b), WithBytes(more, b), IfBytes(p, b));
    }
  }

  lemma Below(p: Keyed, ps: seq<Keyed>, i: nat)
    requires Ascending(ps) && i < |ps| && Less(p.bytes, ps[0].bytes)
    ensures ps[i].bytes != p.bytes
  {
    hide Less;
    LessTrichotomy(p.bytes, ps[0].bytes);
    assert AtMost(ps[0].bytes, ps[i].bytes);
  }

  lemma {:induction false} SortIsStable(ps: seq<Keyed>, b: seq<Byte>)
    ensures WithBytes(StableSort(ps), b) == WithBytes(ps, b)
  {
    hide Less, StableInsert, WithBytes, IfBytes, Ascending;
    if ps == [] {
      assert StableSort(ps) == ps;
    } else {
      var front, p := ps[..|ps| - 1], ps[|ps| - 1];
      SortIsStable(front, b);
      StableSortAscending(front);
      InsertIsStable(StableSort(front), p, b);
      WithBytesSnoc(front, p, b);
      assert ps == front + [p];
    }
  }

  /** Of a run of equal bytes the first element is kept. */
  lemma {:induction false} DedupKeepsFirst(ps: seq<Keyed>, k: nat)
    requires Ascending(ps) && k < |Dedup(ps)|
    ensures WithBytes(ps, Dedup(ps)[k].bytes) != [] && WithBytes(ps, Dedup(ps)[k].bytes)[0] == Dedup(ps)[k]
    decreases |ps|
  {
    hide Less, WithBytes, Ascending;
    var b := Dedup(ps)[k].bytes;
    if |ps| < 2 {
      WithBytesCons(ps[0], [], b);
      assert ps == [ps[0]] + [];
    } else if ps[0].bytes == ps[1].bytes {
      var qs := [ps[0]] + ps[2..];
      AscendingWithout(ps);
      DedupKeepsFirst(qs, k);
      WithBytesCons(ps[0], ps[2..], b);
      WithBytesCons(ps[0], ps[1..], b);
      WithBytesCons(ps[1], ps[2..], b);
      assert ps == [ps[0]] + ps[1..] && ps[1..] == [ps[1]] + ps[2..];
    } else {
      WithBytesCons(ps[0], ps[1..], b);
      assert ps == [ps[0]] + ps[1..];
      AscendingTail(ps);
      if k > 0 {
        DedupKeepsFirst(ps[1..], k - 1);
        DedupIsStrict(ps);
        assert Dedup(ps)[0] == ps[0];
        KeysDiffer(Dedup(ps), 0, k);
      }
    }
  }

  lemma KeysDiffer(ps: seq<Keyed>, i: nat, k: nat)
    requires StrictlyAscending(ps) && i < k < |ps|
    ensures ps[i].bytes != ps[k].bytes
  {
    hide Less;
    LessTrichotomy(ps[i].bytes, ps[k].bytes);
  }

  lemma DedupIsStrict(ps: seq<Keyed>)
    requires Ascending(ps)
    ensures StrictlyAscending(Dedup(ps))
  {
    hide Less, Dedup;
    DedupProperties(ps);
  }

  /** The set form of a list of elements. */
  ghost predicate SetOf(nfc: string -> string, items: seq<Json>, out: seq<Json>) {
    && (forall i :: 0 <= i < |items| ==> CanonicalBytes(nfc, items[i]).Some?)
    && (forall k :: 0 <= k < |out| ==> FirstOfItsBytes(nfc, items, out[k]))
    && (forall k, l :: 0 <= k < l < |out| ==> Less(CanonicalBytes(nfc, out[k]).value, CanonicalBytes(nfc, out[l]).value))
    && (forall i :: 0 <= i < |items| ==> exists k :: 0 <= k < |out| && CanonicalBytes(nfc, out[k]) == CanonicalBytes(nfc, items[i]))
  }

  /** The element is in the list and none before it has its canonical bytes. */
  ghost predicate FirstOfItsBytes(nfc: string -> string, items: seq<Json>, x: Json) {
    && CanonicalBytes(nfc, x).Some?
    && exists i :: 0 <= i < |items| && items[i] == x && forall j :: 0 <= j < i ==> CanonicalBytes(nfc, items[j]) != CanonicalBytes(nfc, x)
  }

  lemma {:induction false} FirstWithBytes(ps: seq<Keyed>, b: seq<Byte>)
    requires WithBytes(ps, b) != []
    ensures exists i :: 0 <= i < |ps| && ps[i] == WithBytes(ps, b)[0] && ps[i].bytes == b && forall j :: 0 <= j < i ==> ps[j].bytes != b
  {
    if ps[0].bytes != b {
      FirstWithBytes(ps[1..], b);
      var i :| 0 <= i < |ps[1..]| && ps[1..][i] == WithBytes(ps[1..], b)[0] && ps[1..][i].bytes == b && forall j :: 0 <= j < i ==> ps[1..][j].bytes != b;
      assert ps[i + 1] == ps[1..][i];
      forall j | 0 <= j < i + 1 ensures ps[j].bytes != b {
        if j > 0 { assert ps[j] == ps[1..][j - 1]; }
      }
    }
  }

  lemma KeptIsFirst(nfc: string -> string, items: seq<Json>, ps: seq<Keyed>, d: Keyed)
    requires KeyAll(nfc, items) == Some(ps) && WithBytes(ps, d.bytes) != [] && WithBytes(ps, d.bytes)[0] == d
    ensures FirstOfItsBytes(nfc, items, d.item) && CanonicalBytes(nfc, d.item) == Some(d.bytes)
  {
    hide CanonicalBytes, WithBytes;
    FirstWithBytes(ps, d.bytes);
    var i :| 0 <= i < |ps| && ps[i] == d && forall j :: 0 <= j < i ==> ps[j].bytes != d.bytes;
    assert items[i] == d.item;
    forall j | 0 <= j < i ensures CanonicalBytes(nfc, items[j]) != CanonicalBytes(nfc, d.item) {
      assert CanonicalBytes(nfc, items[j]) == Some(ps[j].bytes);
    }
  }

  lemma NoneIsLost(nfc: string -> string, items: seq<Json>, i: nat)
    requires AsSet(nfc, items).Some? && i < |items|
    ensures exists k :: 0 <= k < |AsSet(nfc, items).value| && CanonicalBytes(nfc, AsSet(nfc, items).value[k]) == CanonicalBytes(nfc, items[i])
  {
    hide CanonicalBytes, StableSort, Dedup, StrictlyAscending;
    AsSetProperties(nfc, items);
    var ps, out := KeyAll(nfc, items).value, AsSet(nfc, items).value;
    var qs := KeyAll(nfc, out).value;
    assert HasBytes(qs, ps[i].bytes);
    var k :| 0 <= k < |qs| && qs[k].bytes == ps[i].bytes;
    assert CanonicalBytes(nfc, out[k]) == Some(qs[k].bytes);
  }

  /** A set-like array is refused exactly when an element has no canonical bytes, and otherwise becomes its set form. */
  lemma AsSetMeans(nfc: string -> string, items: seq<Json>)
    ensures AsSet(nfc, items).Some? <==> forall i :: 0 <= i < |items| ==> CanonicalBytes(nfc, items[i]).Some?
    ensures AsSet(nfc, items).Some? ==> SetOf(nfc, items, AsSet(nfc, items).value)
  {
    hide CanonicalBytes, Less, StableSort, Dedup, WithBytes, FirstOfItsBytes, Ascending;
    if AsSet(nfc, items).Some? {
      var ps, out := KeyAll(nfc, items).value, AsSet(nfc, items).value;
      var ds := Dedup(StableSort(ps));
      StableSortAscending(ps);
      DedupIsStrict(StableSort(ps));
      forall k | 0 <= k < |out| ensures FirstOfItsBytes(nfc, items, out[k]) && CanonicalBytes(nfc, out[k]) == Some(ds[k].bytes) {
        DedupKeepsFirst(StableSort(ps), k);
        SortIsStable(ps, ds[k].bytes);
        KeptIsFirst(nfc, items, ps, ds[k]);
      }
      forall i | 0 <= i < |items| ensures exists k :: 0 <= k < |out| && CanonicalBytes(nfc, out[k]) == CanonicalBytes(nfc, items[i]) {
        NoneIsLost(nfc, items, i);
      }
    }
  }

  // ---------------------------------------------------------------- arrays and objects

  ghost predicate NamesSet(k: string) {
    k in {"chip_types", "policy_refs", "evidence_cids", "audience"}
  }

  lemma {:induction false} ItemsMean(r: Rules, items: seq<Json>)
    ensures NormalizeItems(r, items).Some? <==> forall i :: 0 <= i < |items| ==> Normalize(r, items[i], None).Some?
    ensures NormalizeItems(r, items).Some? ==>
              && |NormalizeItems(r, items).value| == |items|
              && forall i :: 0 <= i < |items| ==> NormalizeItems(r, items).value[i] == Normalize(r, items[i], None).value
  {
    hide Normalize;
    if items != [] {
      var last := |items| - 1;
      ItemsMean(r, items[..last]);
      assert forall i :: 0 <= i < last ==> items[..last][i] == items[i];
    }
  }

  /** Items are normalised each by itself; under a set-like key what comes out is their set form. */
  ghost predicate ArrayBecomes(r: Rules, items: seq<Json>, parent: Option<string>, out: Option<Json>) {
    if exists i :: 0 <= i < |items| && Normalize(r, items[i], None) == None then out == None
    else
      var each := seq(|items|, i requires 0 <= i < |items| && Normalize(r, items[i], None).Some? => Normalize(r, items[i], None).value);
      if !(parent.Some? && NamesSet(parent.value)) then out == Some(Array(each))
      else if exists i :: 0 <= i < |each| && CanonicalBytes(r.nfc, each[i]) == None then out == None
      else out.Some? && out.value.Array? && SetOf(r.nfc, each, out.value.items)
  }

  lemma ArrayMeans(r: Rules, items: seq<Json>, parent: Option<string>)
    ensures ArrayBecomes(r, items, parent, Normalize(r, Array(items), parent))
  {
    hide AsSet, CanonicalBytes, NormalizeItems, SetOf;
    ItemsMean(r, items);
    if NormalizeItems(r, items).Some? {
      var each := NormalizeItems(r, items).value;
      assert each == seq(|items|, i requires 0 <= i < |items| && Normalize(r, items[i], None).Some? => Normalize(r, items[i], None).value);
      AsSetMeans(r.nfc, each);
    }
  }

  /** The member has a usable key and a usable value. */
  ghost predicate MemberNormalizes(r: Rules, m: Member) {
    Key(r, m.key).Some? && Normalize(r, m.value, Key(r, m.key)).Some?
  }

  /** What members become, those that come to null left out. */
  ghost function Survivors(r: Rules, ms: seq<Member>): seq<Member>
    requires forall i :: 0 <= i < |ms| ==> MemberNormalizes(r, ms[i])
  {
    if ms == [] then []
    else
      assert MemberNormalizes(r, ms[0]);
      var k, v := Key(r, ms[0].key), Normalize(r, ms[0].value, Key(r, ms[0].key)).value;
      (if v == Null then [] else [Member(k.value, v)]) + Survivors(r, ms[1..])
  }

  lemma {:induction false} SurvivorsSnoc(r: Rules, ms: seq<Member>, m: Member)
    requires MemberNormalizes(r, m) && forall i :: 0 <= i < |ms| ==> MemberNormalizes(r, ms[i])
    ensures forall i :: 0 <= i < |ms + [m]| ==> MemberNormalizes(r, (ms + [m])[i])
    ensures var v := Normalize(r, m.value, Key(r, m.key)).value;
            Survivors(r, ms + [m]) == Survivors(r, ms) + (if v == Null then [] else [Member(Key(r, m.key).value, v)])
  {
    hide Normalize, Key, MemberNormalizes;
    if ms == [] {
      assert ms + [m] == [m] && [m][1..] == [];
    } else {
      assert (ms + [m])[1..] == ms[1..] + [m];
      SurvivorsSnoc(r, ms[1..], m);
    }
  }

  /** Members are normalised each by itself, under its own new key; null ones go, and two of one key are refused. */
  lemma {:induction false} MembersMean(r: Rules, ms: seq<Member>)
    ensures NormalizeMembers(r, ms).Some?
       <==> (forall i :: 0 <= i < |ms| ==> MemberNormalizes(r, ms[i])) && DistinctNames(Survivors(r, ms))
    ensures NormalizeMembers(r, ms).Some? ==> NormalizeMembers(r, ms).value == Survivors(r, ms)
  {
    hide Normalize, Key, Survivors, DistinctNames, HasMember;
    if ms == [] {
      assert Survivors(r, ms) == [] && DistinctNames([]) by { NoSurvivors(r); }
    } else {
      var last := |ms| - 1;
      var front, m := ms[..last], ms[last];
      MembersMean(r, front);
      assert ms == front + [m];
      assert forall i :: 0 <= i < last ==> front[i] == ms[i];
      var all := forall i :: 0 <= i < |ms| ==> MemberNormalizes(r, ms[i]);
      assert all <==> MemberNormalizes(r, m) && forall i :: 0 <= i < |front| ==> MemberNormalizes(r, front[i]);
      if Key(r, m.key).Some? { assert Key(r, m.key) == Some(Key(r, m.key).value); }
      if all {
        SurvivorsSnoc(r, front, m);
        var v := Normalize(r, m.value, Key(r, m.key)).value;
        if v == Null {
          assert Survivors(r, ms) == Survivors(r, front);
        } else {
          NamesGrow(Survivors(r, front), Member(Key(r, m.key).value, v));
        }
      }
    }
  }

  lemma NoSurvivors(r: Rules)
    ensures Survivors(r, []) == [] && DistinctNames([])
  {
  }

  lemma NamesGrow(ms: seq<Member>, m: Member)
    ensures DistinctNames(ms + [m]) <==> DistinctNames(ms) && !HasMember(ms, m.key)
  {
    if DistinctNames(ms + [m]) {
      forall i, j | 0 <= i < j < |ms| ensures ms[i].key != ms[j].key { assert (ms + [m])[i] == ms[i] && (ms + [m])[j] == ms[j]; }
      forall i | 0 <= i < |ms| ensures ms[i].key != m.key { assert (ms + [m])[i] == ms[i] && (ms + [m])[|ms|] == m; }
    }
  }

  ghost predicate ObjectBecomes(r: Rules, ms: seq<Member>, out: Option<Json>) {
    if (forall i :: 0 <= i < |ms| ==> MemberNormalizes(r, ms[i])) && DistinctNames(Survivors(r, ms))
    then out == Some(Object(Survivors(r, ms))) else out == None
  }

  /** What normalisation makes of a value, by its kind; its parts are normalised by the same law. */
  ghost predicate Becomes(r: Rules, v: Json, parent: Option<string>, out: Option<Json>) {
    match v
    case Str(s) => StringBecomes(r, s, parent, out)
    case Array(items) => ArrayBecomes(r, items, parent, out)
    case Object(ms) => ObjectBecomes(r, ms, out)
    case _ => out == Some(v)
  }

  lemma NormalizeMeans(r: Rules, v: Json, parent: Option<string>)
    ensures Becomes(r, v, parent, Normalize(r, v, parent))
  {
    hide StringBecomes, ArrayBecomes, NormalizeItems, NormalizeMembers, MemberNormalizes, Survivors, DistinctNames;
    match v
    case Str(s) => StringMeans(r, s, parent);
    case Array(items) => ArrayMeans(r, items, parent);
    case Object(ms) => MembersMean(r, ms);
    case _ =>
  }
}
