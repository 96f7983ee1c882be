/** Which error the input normaliser meets first, and what the gate makes of its message. */
module Faults {
  import opened Prelude
  import opened Json
  import opened Normalizer
  import N = Nrf

  /** Where normalisation failed, as the object keys on the way from the root, and whether two keys met there. */
  datatype Fault = Fault(collision: bool, path: seq<string>)

  const DUPLICATE: string := "DuplicateKey("

  predicate Mentions(s: string) {
    s != "" && (StartsWith(s, DUPLICATE) || Mentions(s[1..]))
  }

  predicate StartsWith(s: string, t: string) {
    |t| <= |s| && s[..|t|] == t
  }

  /** The text has the marker somewhere in it. */
  lemma {:induction false} MentionsExactly(s: string)
    ensures Mentions(s) <==> exists front, back :: s == front + ("DuplicateKey(" + back)
  {
    if s != "" {
      MentionsExactly(s[1..]);
      if StartsWith(s, DUPLICATE) {
        assert s == "" + ("DuplicateKey(" + s[|DUPLICATE|..]);
      } else if Mentions(s[1..]) {
        var front, back :| s[1..] == front + ("DuplicateKey(" + back);
        assert s == ([s[0]] + front) + ("DuplicateKey(" + back);
      }
      if front, back :| s == front + ("DuplicateKey(" + back) { FoundInside(s, front, back); }
    }
  }

  lemma FoundInside(s: string, front: string, back: string)
    requires s == front + (DUPLICATE + back)
    ensures StartsWith(s, DUPLICATE) || (front != "" && s[1..] == front[1..] + (DUPLICATE + back))
  {
    if front == "" { assert s == DUPLICATE + back; }
  }

  /** The message shows the path, so a key on it can say what otherwise only a collision says. */
  predicate ReadsAsDuplicate(f: Fault) {
    f.collision || PathMentions(f)
  }

  predicate PathMentions(f: Fault) {
    exists i :: 0 <= i < |f.path| && Mentions(f.path[i])
  }

  // ---------------------------------------------------------------- the first error

  /** The first error of the conversion of one element of a set-like array. */
  function ConversionFault(nfc: string -> string, j: Json, path: seq<string>): (f: Option<Fault>)
    ensures f.None? <==> ToNrf(nfc, j).Some?
    decreases j
  {
    match j
    case Null => None
    case Bool(_) => None
    case Number(n) => if IsI64(n) then None else Some(Fault(false, path))
    case Str(s) => if RhoString(nfc, s) then None else Some(Fault(false, path))
    case Array(items) => ConversionFaultIn(nfc, items, path)
    case Object(ms) => MemberConversionFault(nfc, ms, path)
  }

  function ConversionFaultIn(nfc: string -> string, items: seq<Json>, path: seq<string>): (f: Option<Fault>)
    ensures f.None? <==> ToNrfItems(nfc, items).Some?
    decreases items
  {
    if items == [] then None
    else
      var last := |items| - 1;
      var earlier := ConversionFaultIn(nfc, items[..last], path);
      if earlier.Some? then earlier else ConversionFault(nfc, items[last], path)
  }

  function MemberConversionFault(nfc: string -> string, ms: seq<Member>, path: seq<string>): (f: Option<Fault>)
    ensures f.None? <==> ToNrfMembers(nfc, ms).Some?
    decreases ms
  {
    if ms == [] then None
    else
      var last := |ms| - 1;
      var earlier := MemberConversionFault(nfc, ms[..last], path);
      if earlier.Some? then earlier
      else
        var below := path + [ms[last].key];
        if !RhoString(nfc, ms[last].key) then Some(Fault(false, below))
        else if !Live(ms[last]) then None
        else
          var inner := ConversionFault(nfc, ms[last].value, below);
          if inner.Some? then inner
          else if N.HasKey(ToNrfMembers(nfc, ms[..last]).value, ms[last].key) then Some(Fault(true, path))
          else None
  }

  function SetFault(nfc: string -> string, items: seq<Json>, path: seq<string>): (f: Option<Fault>)
    ensures f.None? <==> AsSet(nfc, items).Some?
  {
    ConversionsByItem(nfc, items);
    ConversionFaultIn(nfc, items, path)
  }

  lemma {:induction false} ConversionsByItem(nfc: string -> string, items: seq<Json>)
    ensures ToNrfItems(nfc, items).Some? <==> KeyAll(nfc, items).Some?
  {
    hide ToNrf, N.EncodeToVec;
    if items != [] { ConversionsByItem(nfc, items[..|items| - 1]); }
  }

  /** The first error of `normalize_value_for_input`. */
  function FirstFault(r: Rules, v: Json, parent: Option<string>, path: seq<string>): (f: Option<Fault>)
    ensures f.None? <==> Normalize(r, v, parent).Some?
    decreases v
  {
    match v
    case Str(s) => if Scalar(r, s).None? then Some(Fault(false, path)) else None
    case Array(items) =>
      var inner := FirstItemFault(r, items, path);
      if inner.Some? then inner
      else if SetUnder(parent) then SetFault(r.nfc, NormalizeItems(r, items).value, path)
      else None
    case Object(ms) => FirstMemberFault(r, ms, path)
    case _ => None
  }

  function FirstItemFault(r: Rules, items: seq<Json>, path: seq<string>): (f: Option<Fault>)
    ensures f.None? <==> NormalizeItems(r, items).Some?
    decreases items
  {
    if items == [] then None
    else
      var last := |items| - 1;
      var earlier := FirstItemFault(r, items[..last], path);
      if earlier.Some? then earlier else FirstFault(r, items[last], None, path)
  }

  function FirstMemberFault(r: Rules, ms: seq<Member>, path: seq<string>): (f: Option<Fault>)
    ensures f.None? <==> NormalizeMembers(r, ms).Some?
    decreases ms
  {
    if ms == [] then None
    else
      var last := |ms| - 1;
      var earlier := FirstMemberFault(r, ms[..last], path);
      if earlier.Some? then earlier
      else
        var below := path + [ms[last].key];
        match Key(r, ms[last].key)
        case None => Some(Fault(false, below))
        case Some(k) =>
          var inner := FirstFault(r, ms[last].value, Some(k), below);
          if inner.Some? then inner
          else if Normalize(r, ms[last].value, Some(k)).value.Null? then None
          else if HasMember(NormalizeMembers(r, ms[..last]).value, k) then Some(Fault(true, path))
          else None
  }

  // ---------------------------------------------------------------- what a collision means

  /** No object, at any depth, repeats a member name. */
  ghost predicate NamesDistinct(v: Json)
    decreases v
  {
    match v
    case Array(items) => forall i :: 0 <= i < |items| ==> NamesDistinct(items[i])
    case Object(ms) => DistinctNames(ms) && forall i :: 0 <= i < |ms| ==> NamesDistinct(ms[i].value)
    case _ => true
  }

  /** Some object, at some depth, has two keys that normalise alike. */
  ghost predicate KeysMeet(r: Rules, v: Json)
    decreases v
  {
    match v
    case Array(items) => exists i :: 0 <= i < |items| && KeysMeet(r, items[i])
    case Object(ms) => TwoKeysMeet(r, ms) || exists i :: 0 <= i < |ms| && KeysMeet(r, ms[i].value)
    case _ => false
  }

  ghost predicate TwoKeysMeet(r: Rules, ms: seq<Member>) {
    exists i, j :: 0 <= i < j < |ms| && Key(r, ms[i].key).Some? && Key(r, ms[i].key) == Key(r, ms[j].key)
  }

  /** The keys of a normalised object are those of its members. */
  lemma {:induction false} MemberComesFromKey(r: Rules, ms: seq<Member>, k: string)
    requires NormalizeMembers(r, ms).Some? && HasMember(NormalizeMembers(r, ms).value, k)
    ensures exists i :: 0 <= i < |ms| && Key(r, ms[i].key) == Some(k)
  {
    hide Normalize, Key;
    if ms != [] {
      var last := |ms| - 1;
      var out := NormalizeMembers(r, ms[..last]).value;
      if HasMember(out, k) {
        MemberComesFromKey(r, ms[..last], k);
        var i :| 0 <= i < last && Key(r, ms[..last][i].key) == Some(k);
        assert Key(r, ms[i].key) == Some(k);
      } else {
        assert Key(r, ms[last].key) == Some(k);
      }
    }
  }

  /** What normalisation returns repeats no name. */
  lemma {:induction false} NormalizedNamesDistinct(r: Rules, v: Json, parent: Option<string>)
    requires Normalize(r, v, parent).Some?
    ensures NamesDistinct(Normalize(r, v, parent).value)
    decreases v
  {
    hide AsSet, Scalar;
    match v
    case Array(items) =>
      NormalizedItemsDistinct(r, items);
      if SetUnder(parent) { AsSetKeeps(r.nfc, NormalizeItems(r, items).value); }
    case Object(ms) => NormalizedMembersDistinct(r, ms);
    case _ =>
  }

  lemma AsSetKeeps(nfc: string -> string, items: seq<Json>)
    requires AsSet(nfc, items).Some? && forall i :: 0 <= i < |items| ==> NamesDistinct(items[i])
    ensures forall i :: 0 <= i < |AsSet(nfc, items).value| ==> NamesDistinct(AsSet(nfc, items).value[i])
  {
    hide AsSet, NamesDistinct;
    AsSetProperties(nfc, items);
    var s := AsSet(nfc, items).value;
    forall i | 0 <= i < |s| ensures NamesDistinct(s[i]) { assert s[i] in s; }
  }

  lemma {:induction false} NormalizedItemsDistinct(r: Rules, items: seq<Json>)
    requires NormalizeItems(r, items).Some?
    ensures forall i :: 0 <= i < |NormalizeItems(r, items).value| ==> NamesDistinct(NormalizeItems(r, items).value[i])
    decreases items
  {
    hide Normalize, NamesDistinct;
    if items != [] {
      NormalizedItemsDistinct(r, items[..|items| - 1]);
      NormalizedNamesDistinct(r, items[|items| - 1], None);
    }
  }

  lemma {:induction false} NormalizedMembersDistinct(r: Rules, ms: seq<Member>)
    requires NormalizeMembers(r, ms).Some?
    ensures DistinctNames(NormalizeMembers(r, ms).value)
    ensures forall i :: 0 <= i < |NormalizeMembers(r, ms).value| ==> NamesDistinct(NormalizeMembers(r, ms).value[i].value)
    decreases ms
  {
    hide Normalize, NamesDistinct, Key;
    if ms != [] {
      var last := |ms| - 1;
      NormalizedMembersDistinct(r, ms[..last]);
      NormalizedNamesDistinct(r, ms[last].value, Some(Key(r, ms[last].key).value));
    }
  }

  /** So the conversion of its elements meets no two equal keys. */
  lemma {:induction false} ConversionHasNoCollision(nfc: string -> string, j: Json, path: seq<string>)
    requires NamesDistinct(j) && ConversionFault(nfc, j, path).Some?
    ensures !ConversionFault(nfc, j, path).value.collision
    decreases j
  {
    match j
    case Array(items) => ItemConversionHasNoCollision(nfc, items, path);
    case Object(ms) => MemberConversionHasNoCollision(nfc, ms, path);
    case _ =>
  }

  lemma {:induction false} ItemConversionHasNoCollision(nfc: string -> string, items: seq<Json>, path: seq<string>)
    requires ConversionFaultIn(nfc, items, path).Some? && forall i :: 0 <= i < |items| ==> NamesDistinct(items[i])
    ensures !ConversionFaultIn(nfc, items, path).value.collision
    decreases items
  {
    hide ConversionFault, NamesDistinct;
    var last := |items| - 1;
    if ConversionFaultIn(nfc, items[..last], path).Some? {
      ItemConversionHasNoCollision(nfc, items[..last], path);
    } else {
      ConversionHasNoCollision(nfc, items[last], path);
    }
  }

  lemma {:induction false} MemberConversionHasNoCollision(nfc: string -> string, ms: seq<Member>, path: seq<string>)
    requires MemberConversionFault(nfc, ms, path).Some?
    requires DistinctNames(ms) && forall i :: 0 <= i < |ms| ==> NamesDistinct(ms[i].value)
    ensures !MemberConversionFault(nfc, ms, path).value.collision
    decreases ms
  {
    hide ConversionFault, NamesDistinct, RhoString, ToNrf;
    var last := |ms| - 1;
    var below := path + [ms[last].key];
    if MemberConversionFault(nfc, ms[..last], path).Some? {
      MemberConversionHasNoCollision(nfc, ms[..last], path);
    } else if ConversionFault(nfc, ms[last].value, below).Some? {
      ConversionHasNoCollision(nfc, ms[last].value, below);
    } else {
      MembersConvert(nfc, ms[..last]);
      var es := ToNrfMembers(nfc, ms[..last]).value;
      forall k | 0 <= k < |es| ensures es[k].key != ms[last].key {
        assert es[k] in es;
        var i :| 0 <= i < last && EntryFrom(nfc, es[k], ms[..last][i]);
      }
    }
  }

  /** A collision is one of the input's: two keys of one object that normalise alike. */
  lemma {:induction false} CollisionIsReal(r: Rules, v: Json, parent: Option<string>, path: seq<string>)
    requires FirstFault(r, v, parent, path).Some? && FirstFault(r, v, parent, path).value.collision
    ensures KeysMeet(r, v)
    decreases v
  {
    hide SetFault, Scalar;
    match v
    case Array(items) =>
      if FirstItemFault(r, items, path).Some? {
        ItemCollisionIsReal(r, items, path);
      } else {
        NormalizedItemsDistinct(r, items);
        SetHasNoCollision(r.nfc, NormalizeItems(r, items).value, path);
      }
    case Object(ms) => MemberCollisionIsReal(r, ms, path);
    case _ =>
  }

  lemma SetHasNoCollision(nfc: string -> string, items: seq<Json>, path: seq<string>)
    requires forall i :: 0 <= i < |items| ==> NamesDistinct(items[i])
    ensures SetFault(nfc, items, path).Some? ==> !SetFault(nfc, items, path).value.collision
  {
    if SetFault(nfc, items, path).Some? { ItemConversionHasNoCollision(nfc, items, path); }
  }

  lemma {:induction false} ItemCollisionIsReal(r: Rules, items: seq<Json>, path: seq<string>)
    requires FirstItemFault(r, items, path).Some? && FirstItemFault(r, items, path).value.collision
    ensures exists i :: 0 <= i < |items| && KeysMeet(r, items[i])
    decreases items
  {
    hide FirstFault, KeysMeet;
    var last := |items| - 1;
    if FirstItemFault(r, items[..last], path).Some? {
      ItemCollisionIsReal(r, items[..last], path);
      var i :| 0 <= i < last && KeysMeet(r, items[..last][i]);
      assert KeysMeet(r, items[i]);
    } else {
      CollisionIsReal(r, items[last], None, path);
    }
  }

  lemma {:induction false} MemberCollisionIsReal(r: Rules, ms: seq<Member>, path: seq<string>)
    requires FirstMemberFault(r, ms, path).Some? && FirstMemberFault(r, ms, path).value.collision
    ensures KeysMeet(r, Object(ms))
    decreases ms, 1
  {
    hide FirstFault, KeysMeet, Key, Normalize;
    var last := |ms| - 1;
    if FirstMemberFault(r, ms[..last], path).Some? {
      MemberCollisionIsReal(r, ms[..last], path);
      MeetingCarriesOver(r, ms, last);
    } else {
      var k, below := Key(r, ms[last].key).value, path + [ms[last].key];
      if FirstFault(r, ms[last].value, Some(k), below).Some? {
        CollisionIsReal(r, ms[last].value, Some(k), below);
        MeetingBelow(r, ms, last);
      } else {
        MemberComesFromKey(r, ms[..last], k);
        var i :| 0 <= i < last && Key(r, ms[..last][i].key) == Some(k);
        MeetingHere(r, ms, i, last);
      }
    }
  }

  lemma MeetingHere(r: Rules, ms: seq<Member>, i: nat, j: nat)
    requires i < j < |ms| && Key(r, ms[i].key).Some? && Key(r, ms[i].key) == Key(r, ms[j].key)
    ensures KeysMeet(r, Object(ms))
  {
    assert TwoKeysMeet(r, ms);
  }

  lemma MeetingBelow(r: Rules, ms: seq<Member>, i: nat)
    requires i < |ms| && KeysMeet(r, ms[i].value)
    ensures KeysMeet(r, Object(ms))
  {
  }

  lemma MeetingCarriesOver(r: Rules, ms: seq<Member>, n: nat)
    requires n <= |ms| && KeysMeet(r, Object(ms[..n]))
    ensures KeysMeet(r, Object(ms))
  {
    if TwoKeysMeet(r, ms[..n]) {
      var i, j :| 0 <= i < j < n && Key(r, ms[..n][i].key).Some? && Key(r, ms[..n][i].key) == Key(r, ms[..n][j].key);
      MeetingHere(r, ms, i, j);
    } else {
      var i :| 0 <= i < n && KeysMeet(r, ms[..n][i].value);
      MeetingBelow(r, ms, i);
    }
  }

  /** In an object that fails first where a key meets an earlier one, the error is the collision. */
  lemma {:induction false} CollisionIsFound(r: Rules, ms: seq<Member>, n: nat, k: string, path: seq<string>)
    requires n < |ms| && NormalizeMembers(r, ms[..n]).Some? && HasMember(NormalizeMembers(r, ms[..n]).value, k)
    requires Key(r, ms[n].key) == Some(k)
    requires Normalize(r, ms[n].value, Some(k)).Some? && !Normalize(r, ms[n].value, Some(k)).value.Null?
    ensures FirstMemberFault(r, ms, path) == Some(Fault(true, path))
    decreases |ms|
  {
    hide FirstFault, Key, Normalize;
    var last := |ms| - 1;
    if n < last {
      assert ms[..last][..n] == ms[..n];
      CollisionIsFound(r, ms[..last], n, k, path);
    }
  }

  lemma ControlIsRefused(r: Rules, c: char)
    requires c < 32 as char
    ensures Scalar(r, [c]) == None
  {
    assert StripBom([c]) == [c] by { assert [c][1..] == []; }
    assert [c][0] == c;
  }

  lemma MarkerIsKey(r: Rules)
    requires r.nfc(DUPLICATE) == DUPLICATE
    ensures Key(r, DUPLICATE) == Some(DUPLICATE)
  {
    assert N.BOM !in DUPLICATE;
    assert !HasControl(DUPLICATE);
  }

  /** A member whose text is refused fails at its own key. */
  lemma BadTextFails(r: Rules, key: string, s: string)
    requires Key(r, key).Some? && Scalar(r, s) == None
    ensures FirstFault(r, Object([Member(key, Str(s))]), None, []) == Some(Fault(false, [key]))
    ensures !KeysMeet(r, Object([Member(key, Str(s))]))
  {
    hide Key, Scalar;
    var ms := [Member(key, Str(s))];
    assert ms[..0] == [] && [] + [key] == [key];
    assert FirstFault(r, Str(s), Key(r, key), [key]) == Some(Fault(false, [key]));
    assert FirstMemberFault(r, ms, []) == Some(Fault(false, [key]));
  }

  /** A control character under a key that spells the marker is taken for a repeated key, though there is one key only. */
  lemma MarkerInKeyMisleads(r: Rules)
    requires r.nfc(DUPLICATE) == DUPLICATE
    ensures var v := Object([Member(DUPLICATE, Str([1 as char]))]);
            && FirstFault(r, v, None, []).Some? && ReadsAsDuplicate(FirstFault(r, v, None, []).value)
            && !KeysMeet(r, v)
  {
    var f := Fault(false, [DUPLICATE]);
    assert Mentions(f.path[0]) by { assert DUPLICATE[..|DUPLICATE|] == DUPLICATE; }
    hide Mentions, StartsWith, FirstFault, KeysMeet;
    ControlIsRefused(r, 1 as char);
    MarkerIsKey(r);
    BadTextFails(r, DUPLICATE, [1 as char]);
  }
}
