/**
  The onboarding rules over the chip store: an app slug may be registered only when no unrevoked app holds
  it, which is asked through a query that returns at most a hundred chips.
 */
module Onboarding {
  import opened Prelude
  import opened ChipStore
  import B = ChipBackend
  import J = Json

  const APP: string := "ubl/app"
  const USER: string := "ubl/user"
  const TENANT: string := "ubl/tenant"
  const REVOKE: string := "ubl/revoke"

  // ---------------------------------------------------------------- chips and their tags

  /** A chip's data: its string-valued fields, and everything else as it is written. */
  datatype Body = Body(fields: map<string, string>, rest: string)

  /** The content id, and the day of a timestamp, which are computed elsewhere. */
  datatype Outside = Outside(cid: Body -> Cid, day: string -> Option<string>)

  ghost predicate Lawful(o: Outside) {
    && (forall b :: NulFree(o.cid(b)))
    && (forall b, c :: o.cid(b) == o.cid(c) ==> b.fields == c.fields)
  }

  /** The string-valued fields of a JSON object, which `get(name).as_str()` reads. */
  function TextField(ms: seq<J.Member>, name: string): Option<string> {
    if ms == [] then None
    else if ms[0].key == name then (if ms[0].value.Str? then Some(ms[0].value.s) else None)
    else TextField(ms[1..], name)
  }

  lemma {:induction false} TextFieldIsMember(ms: seq<J.Member>, name: string, v: string)
    requires J.DistinctNames(ms)
    ensures TextField(ms, name) == Some(v) <==> J.Member(name, J.Str(v)) in ms
  {
    if ms != [] {
      TextFieldIsMember(ms[1..], name, v);
      assert ms == [ms[0]] + ms[1..];
    }
  }

  lemma EquivalentHaveMember(ms: seq<J.Member>, ns: seq<J.Member>, m: J.Member)
    requires J.Equiv(J.Object(ms), J.Object(ns)) && m in ms && m.value.Str?
    ensures m in ns
  {
    hide J.Equiv;
    var i :| 0 <= i < |ms| && ms[i] == m;
    var k := J.EquivLeft(ms, ns, i);
    J.EquivShape(m.value, ns[k].value);
    assert ns[k] == m;
  }

  lemma EquivalentHaveMemberBack(ms: seq<J.Member>, ns: seq<J.Member>, m: J.Member)
    requires J.Equiv(J.Object(ms), J.Object(ns)) && m in ns && m.value.Str?
    ensures m in ms
  {
    hide J.Equiv;
    var k :| 0 <= k < |ns| && ns[k] == m;
    var i := J.EquivRight(ms, ns, k);
    J.EquivShape(ms[i].value, m.value);
    assert ms[i] == m;
  }

  /** Why the law of `cid` is fair: bodies with the same canonical bytes have the same string-valued fields. */
  lemma SameBytesSameTextFields(nfc: string -> string, ms: seq<J.Member>, ns: seq<J.Member>, name: string)
    requires J.DistinctNames(ms) && J.DistinctNames(ns) && J.Short(J.Object(ms)) && J.Short(J.Object(ns))
    requires J.CanonicalBytes(nfc, J.Object(ms)).Some?
    requires J.CanonicalBytes(nfc, J.Object(ms)) == J.CanonicalBytes(nfc, J.Object(ns))
    ensures TextField(ms, name) == TextField(ns, name)
  {
    hide J.Equiv, J.Short, TextField;
    J.ShortBytesDecideEquivalence(nfc, J.Object(ms), J.Object(ns));
    if TextField(ms, name).Some? {
      var v := TextField(ms, name).value;
      TextFieldIsMember(ms, name, v);
      TextFieldIsMember(ns, name, v);
      EquivalentHaveMember(ms, ns, J.Member(name, J.Str(v)));
    }
    if TextField(ns, name).Some? {
      var v := TextField(ns, name).value;
      TextFieldIsMember(ms, name, v);
      TextFieldIsMember(ns, name, v);
      EquivalentHaveMemberBack(ms, ns, J.Member(name, J.Str(v)));
    }
  }

  const DIRECT: seq<string> := [
    "email", "id", "slug", "status", "target_cid", "passport_cid", "actor_cid", "user_cid", "tenant_cid", "creator_cid",
    "app_cid", "old_did", "old_kid", "new_did", "new_kid", "rotation_chip_cid", "rotation_receipt_cid"
  ]

  function FieldTag(name: string, value: string): string {
    name + ":" + value
  }

  function Split(s: string): (r: seq<string>)
    ensures |r| >= 1
  {
    if s == "" then [""]
    else
      var rest := Split(s[1..]);
      if s[0] == '/' then [""] + rest else [[s[0]] + rest[0]] + rest[1..]
  }

  function DirectTags(fields: map<string, string>, names: seq<string>): seq<string> {
    if names == [] then []
    else
      DirectTags(fields, names[..|names| - 1])
      + (if names[|names| - 1] in fields then [FieldTag(names[|names| - 1], fields[names[|names| - 1]])] else [])
  }

  function WorldTags(fields: map<string, string>): seq<string> {
    if "@world" !in fields then []
    else
      var parts := Split(fields["@world"]);
      [FieldTag("world", fields["@world"])]
      + (if |parts| >= 2 && parts[0] == "a" && parts[1] != "" then [FieldTag("app", parts[1])] else [])
      + (if |parts| == 4 && parts[2] == "t" && parts[3] != "" then [FieldTag("tenant", parts[3])] else [])
  }

  function KindOf(b: Body): string {
    if "@type" in b.fields then b.fields["@type"] else "unknown"
  }

  /** `extract_tags`. */
  function TagsOf(o: Outside, b: Body): seq<string> {
    [FieldTag("type", KindOf(b))]
    + DirectTags(b.fields, DIRECT)
    + (if "@id" in b.fields then [FieldTag("id", b.fields["@id"])] else [])
    + WorldTags(b.fields)
    + (if "date" in b.fields && o.day(b.fields["date"]).Some? then [FieldTag("date", o.day(b.fields["date"]).value)] else [])
  }

  /** `store_executed_chip`: what is stored for a body. */
  function Stored(o: Outside, b: Body, executor: string, now: int): Chip {
    Chip(o.cid(b), KindOf(b), TagsOf(o, b), executor, now, b.fields, b.rest)
  }

  predicate Plain(name: string) {
    ':' !in name
  }

  lemma LongerNameNeedsColon(f: string, v: string, g: string, w: string)
    requires FieldTag(f, v) == FieldTag(g, w) && |f| < |g|
    ensures !Plain(g)
  {
    assert g[|f|] == FieldTag(g, w)[|f|] == FieldTag(f, v)[|f|] == ':';
  }

  lemma FieldTagInjective(f: string, v: string, g: string, w: string)
    requires Plain(f) && Plain(g) && FieldTag(f, v) == FieldTag(g, w)
    ensures f == g && v == w
  {
    if |f| < |g| { LongerNameNeedsColon(f, v, g, w); }
    if |g| < |f| { LongerNameNeedsColon(g, w, f, v); }
    var t := FieldTag(f, v);
    assert f == t[..|f|] && g == t[..|g|] && v == t[|f| + 1..] && w == t[|g| + 1..];
  }

  lemma DirectNamesArePlain()
    ensures forall i :: 0 <= i < |DIRECT| ==> Plain(DIRECT[i])
  {
  }

  lemma {:induction false} DirectTagsDecode(fields: map<string, string>, names: seq<string>, f: string, v: string)
    requires (forall i :: 0 <= i < |names| ==> Plain(names[i])) && Plain(f)
    ensures FieldTag(f, v) in DirectTags(fields, names) <==> f in names && f in fields && fields[f] == v
  {
    hide FieldTag, Plain;
    if names != [] {
      var last := names[|names| - 1];
      assert names == names[..|names| - 1] + [last];
      DirectTagsDecode(fields, names[..|names| - 1], f, v);
      if last in fields && FieldTag(last, fields[last]) == FieldTag(f, v) { FieldTagInjective(last, fields[last], f, v); }
    }
  }

  /** The names of the tags that do not come from a field of the same name. */
  predicate OtherName(f: string) {
    f == "type" || f == "id" || f == "world" || f == "app" || f == "tenant" || f == "date"
  }

  lemma NotOther(f: string, v: string, g: string, w: string)
    requires Plain(f) && !OtherName(f) && OtherName(g)
    ensures FieldTag(f, v) != FieldTag(g, w)
  {
    hide FieldTag;
    if FieldTag(f, v) == FieldTag(g, w) { FieldTagInjective(f, v, g, w); }
  }

  /** For a direct field the tag and the field say the same. */
  lemma TagIsField(o: Outside, b: Body, f: string, v: string)
    requires f in DIRECT && !OtherName(f)
    ensures FieldTag(f, v) in TagsOf(o, b) <==> f in b.fields && b.fields[f] == v
  {
    hide FieldTag, DirectTags, Plain, OtherName, DIRECT, Split;
    DirectNamesArePlain();
    assert Plain(f);
    DirectTagsDecode(b.fields, DIRECT, f, v);
    forall g, w | OtherName(g) ensures FieldTag(f, v) != FieldTag(g, w) { NotOther(f, v, g, w); }
    OtherNames();
  }

  lemma OtherNames()
    ensures OtherName("type") && OtherName("id") && OtherName("world") && OtherName("app") && OtherName("tenant") && OtherName("date")
  {
  }

  lemma SlugAndTarget()
    ensures "slug" in DIRECT && !OtherName("slug") && "target_cid" in DIRECT && !OtherName("target_cid")
  {
    assert DIRECT[2] == "slug" && DIRECT[4] == "target_cid";
  }

  // ---------------------------------------------------------------- the queries

  function ByTag(kind: string, tag: string, limit: Option<nat>): Query {
    Query(Some(kind), [tag], None, None, None, limit, None)
  }

  function AppQuery(slug: string): Query {
    ByTag(APP, FieldTag("slug", slug), None)
  }

  function RevokeQuery(cid: Cid): Query {
    ByTag(REVOKE, FieldTag("target_cid", cid), Some(1))
  }

  /** Every chip is what storing some body makes of it. */
  ghost predicate WellStored(o: Outside, chips: map<Cid, Chip>) {
    forall cid :: cid in chips ==>
      var x := chips[cid];
      x == Stored(o, Body(x.fields, x.rest), x.executor, x.createdAt) && x.cid == cid
  }

  /** Some stored revocation names the chip. */
  ghost predicate Revoked(chips: map<Cid, Chip>, cid: Cid) {
    exists r :: r in chips && IsRevocationOf(chips[r], cid)
  }

  predicate IsRevocationOf(x: Chip, cid: Cid) {
    x.kind == REVOKE && "target_cid" in x.fields && x.fields["target_cid"] == cid
  }

  predicate IsAppFor(x: Chip, slug: string) {
    x.kind == APP && "slug" in x.fields && x.fields["slug"] == slug
  }

  /** An unrevoked app with this slug. */
  ghost predicate LiveApp(chips: map<Cid, Chip>, slug: string, cid: Cid) {
    cid in chips && IsAppFor(chips[cid], slug) && !Revoked(chips, cid)
  }

  lemma TagQueryMatches(o: Outside, x: Chip, kind: string, f: string, v: string, limit: Option<nat>)
    requires x == Stored(o, Body(x.fields, x.rest), x.executor, x.createdAt) && f in DIRECT && !OtherName(f)
    ensures Matches(x, ByTag(kind, FieldTag(f, v), limit)) <==> x.kind == kind && f in x.fields && x.fields[f] == v
  {
    hide FieldTag, TagsOf, OtherName, DIRECT;
    TagIsField(o, Body(x.fields, x.rest), f, v);
    var q := ByTag(kind, FieldTag(f, v), limit);
    assert q.tags[0] == FieldTag(f, v);
  }

  /** A query for the apps of a slug asks for exactly those. */
  lemma AppsAskedFor(o: Outside, chips: map<Cid, Chip>, slug: string, x: Chip)
    requires WellStored(o, chips)
    ensures x in FullScan(chips, AppQuery(slug)) <==> x.cid in chips && chips[x.cid] == x && IsAppFor(x, slug)
  {
    hide FieldTag, Matches, TagsOf, Stored, DIRECT;
    SlugAndTarget();
    if x.cid in chips && chips[x.cid] == x { TagQueryMatches(o, x, APP, "slug", slug, None); }
  }

  /** `is_revoked`: one result is as good as all of them. */
  lemma OneRevocationIsEnough(o: Outside, chips: map<Cid, Chip>, cid: Cid, r: QueryResult)
    requires WellStored(o, chips) && IsAnswer(chips, RevokeQuery(cid), r)
    ensures r.chips != [] <==> Revoked(chips, cid)
  {
    hide FieldTag, Matches, TagsOf, Stored, DIRECT, IsAnswer;
    SlugAndTarget();
    AnswerMembers(chips, RevokeQuery(cid), r);
    forall c | c in chips ensures Matches(chips[c], RevokeQuery(cid)) <==> IsRevocationOf(chips[c], cid) {
      TagQueryMatches(o, chips[c], REVOKE, "target_cid", cid, Some(1));
    }
    if x :| x in FullScan(chips, RevokeQuery(cid)) {
      assert chips[x.cid] == x;
    }
    if Revoked(chips, cid) {
      var c :| c in chips && IsRevocationOf(chips[c], cid);
      assert chips[c] in FullScan(chips, RevokeQuery(cid));
    }
  }

  // ---------------------------------------------------------------- at most one live app per slug

  /** An unrevoked app is newer than every other app that ever had its slug. */
  ghost predicate LiveIsNewest(chips: map<Cid, Chip>) {
    forall slug, c, d :: LiveApp(chips, slug, c) && d in chips && d != c && IsAppFor(chips[d], slug) ==>
      chips[d].createdAt < chips[c].createdAt
  }

  ghost predicate Sound(o: Outside, chips: map<Cid, Chip>) {
    WellStored(o, chips) && LiveIsNewest(chips)
  }

  /** So at most one app per slug is live. */
  lemma AtMostOneLiveApp(o: Outside, chips: map<Cid, Chip>, slug: string, c: Cid, d: Cid)
    requires Sound(o, chips) && LiveApp(chips, slug, c) && LiveApp(chips, slug, d)
    ensures c == d
  {
    hide WellStored, Revoked;
  }

  /** The live app heads every answer, however many revoked ones are behind it. */
  lemma LiveAppIsFirst(o: Outside, chips: map<Cid, Chip>, slug: string, c: Cid, r: QueryResult)
    requires Sound(o, chips) && LiveApp(chips, slug, c) && IsAnswer(chips, AppQuery(slug), r)
    ensures r.chips != [] && r.chips[0] == chips[c]
  {
    hide FieldTag, FullScan, IsAnswer, IsAppFor, Revoked, TagsOf, Stored;
    AppsAskedFor(o, chips, slug, chips[c]);
    forall x | x in FullScan(chips, AppQuery(slug)) && x != chips[c] ensures x.createdAt < chips[c].createdAt {
      AppsAskedFor(o, chips, slug, x);
    }
    NewestIsFirst(chips, AppQuery(slug), r, chips[c]);
  }

  /** What the code looks for in the first hundred apps: one with the slug that is not revoked. */
  ghost predicate PageHasLive(chips: map<Cid, Chip>, slug: string, r: QueryResult) {
    exists i :: 0 <= i < |r.chips| && IsLiveHit(chips, slug, r.chips[i])
  }

  ghost predicate IsLiveHit(chips: map<Cid, Chip>, slug: string, x: Chip) {
    "slug" in x.fields && x.fields["slug"] == slug && !Revoked(chips, x.cid)
  }

  ghost predicate HasLiveApp(chips: map<Cid, Chip>, slug: string) {
    exists c :: LiveApp(chips, slug, c)
  }

  /** The truncated page shows a live app exactly when the whole store has one. */
  lemma PageMissesNothing(o: Outside, chips: map<Cid, Chip>, slug: string, r: QueryResult)
    requires Sound(o, chips) && IsAnswer(chips, AppQuery(slug), r)
    ensures PageHasLive(chips, slug, r) <==> HasLiveApp(chips, slug)
  {
    hide FieldTag, FullScan, IsAnswer, Revoked, TagsOf, Stored, LiveIsNewest, WellStored;
    if HasLiveApp(chips, slug) {
      var c :| LiveApp(chips, slug, c);
      LiveAppIsFirst(o, chips, slug, c, r);
      assert chips[c].cid == c by { StoredUnderCid(o, chips, c); }
      assert IsLiveHit(chips, slug, r.chips[0]);
    }
    if PageHasLive(chips, slug, r) {
      var i :| 0 <= i < |r.chips| && IsLiveHit(chips, slug, r.chips[i]);
      AnswerMembers(chips, AppQuery(slug), r);
      assert r.chips[i] in r.chips;
      AppsAskedFor(o, chips, slug, r.chips[i]);
      assert LiveApp(chips, slug, r.chips[i].cid);
    }
  }

  lemma StoredUnderCid(o: Outside, chips: map<Cid, Chip>, c: Cid)
    requires WellStored(o, chips) && c in chips
    ensures chips[c].cid == c
  {
  }

  // ---------------------------------------------------------------- runs

  /** Storing a chip at a time later than all before; an app only when the query shows no live one. */
  ghost predicate MayStore(chips: map<Cid, Chip>, b: Body, now: int) {
    && (forall c :: c in chips ==> chips[c].createdAt < now)
    && (KindOf(b) == APP ==> "slug" in b.fields && AppCheckPasses(chips, b.fields["slug"]))
  }

  ghost predicate AppCheckPasses(chips: map<Cid, Chip>, slug: string) {
    exists r :: IsAnswer(chips, AppQuery(slug), r) && !PageHasLive(chips, slug, r)
  }

  datatype Act = Act(body: Body, executor: string, now: int)

  ghost function After(o: Outside, chips: map<Cid, Chip>, a: Act): map<Cid, Chip> {
    chips[o.cid(a.body) := Stored(o, a.body, a.executor, a.now)]
  }

  ghost function Run(o: Outside, acts: seq<Act>): map<Cid, Chip> {
    if acts == [] then map[] else After(o, Run(o, acts[..|acts| - 1]), acts[|acts| - 1])
  }

  ghost predicate Legal(o: Outside, acts: seq<Act>) {
    acts == [] ||
    (Legal(o, acts[..|acts| - 1]) && MayStore(Run(o, acts[..|acts| - 1]), acts[|acts| - 1].body, acts[|acts| - 1].now))
  }

  lemma StoreKeepsWellStored(o: Outside, chips: map<Cid, Chip>, a: Act)
    requires WellStored(o, chips)
    ensures WellStored(o, After(o, chips, a))
  {
    hide TagsOf;
  }

  /** Storing over a chip stores the same body again: ids are content ids. */
  lemma SameFields(o: Outside, chips: map<Cid, Chip>, a: Act, c: Cid)
    requires Lawful(o) && WellStored(o, chips) && c in chips
    ensures c in After(o, chips, a)
    ensures After(o, chips, a)[c].fields == chips[c].fields && After(o, chips, a)[c].kind == chips[c].kind
    ensures c != o.cid(a.body) ==> After(o, chips, a)[c] == chips[c]
  {
    hide TagsOf;
    var x := chips[c];
    assert x == Stored(o, Body(x.fields, x.rest), x.executor, x.createdAt);
  }

  /** What is revoked stays revoked. */
  lemma RevokedStays(o: Outside, chips: map<Cid, Chip>, a: Act, c: Cid)
    requires Lawful(o) && WellStored(o, chips) && Revoked(chips, c)
    ensures Revoked(After(o, chips, a), c)
  {
    hide Stored, WellStored, Lawful;
    var r :| r in chips && IsRevocationOf(chips[r], c);
    SameFields(o, chips, a, r);
    assert IsRevocationOf(After(o, chips, a)[r], c);
  }

  lemma LiveBefore(o: Outside, chips: map<Cid, Chip>, a: Act, slug: string, c: Cid)
    requires Lawful(o) && WellStored(o, chips) && LiveApp(After(o, chips, a), slug, c) && c != o.cid(a.body)
    ensures LiveApp(chips, slug, c)
  {
    hide Stored, WellStored, Lawful, Revoked, IsAppFor;
    if Revoked(chips, c) { RevokedStays(o, chips, a, c); }
  }

  lemma StoreKeepsNewest(o: Outside, chips: map<Cid, Chip>, a: Act)
    requires Lawful(o) && Sound(o, chips) && MayStore(chips, a.body, a.now)
    ensures LiveIsNewest(After(o, chips, a))
  {
    hide WellStored, Lawful, Revoked, TagsOf, AppCheckPasses, LiveIsNewest;
    var chips', mine := After(o, chips, a), o.cid(a.body);
    forall slug, c, d | LiveApp(chips', slug, c) && d in chips' && d != c && IsAppFor(chips'[d], slug)
      ensures chips'[d].createdAt < chips'[c].createdAt
    {
      if c != mine {
        LiveBefore(o, chips, a, slug, c);
        if d == mine {
          CheckFindsLive(o, chips, slug, c);
          assert false;
        } else {
          UseNewest(chips, slug, c, d);
        }
      }
    }
    NewestIntro(chips');
  }

  lemma NewestIntro(chips: map<Cid, Chip>)
    requires forall slug, c, d :: LiveApp(chips, slug, c) && d in chips && d != c && IsAppFor(chips[d], slug) ==>
               chips[d].createdAt < chips[c].createdAt
    ensures LiveIsNewest(chips)
  {
    hide LiveApp, IsAppFor;
  }

  lemma UseNewest(chips: map<Cid, Chip>, slug: string, c: Cid, d: Cid)
    requires LiveIsNewest(chips) && LiveApp(chips, slug, c) && d in chips && d != c && IsAppFor(chips[d], slug)
    ensures chips[d].createdAt < chips[c].createdAt
  {
    hide LiveApp, IsAppFor;
    assert LiveApp(chips, slug, c);
  }

  lemma CheckFindsLive(o: Outside, chips: map<Cid, Chip>, slug: string, c: Cid)
    requires Sound(o, chips) && LiveApp(chips, slug, c)
    ensures !AppCheckPasses(chips, slug)
  {
    hide Sound, LiveApp, PageHasLive, IsAnswer;
    assert HasLiveApp(chips, slug);
    if AppCheckPasses(chips, slug) {
      var r :| IsAnswer(chips, AppQuery(slug), r) && !PageHasLive(chips, slug, r);
      PageMissesNothing(o, chips, slug, r);
    }
  }

  /** In every state that validated steps reach, the live app of a slug is its newest. */
  lemma {:induction false} RunsStaySound(o: Outside, acts: seq<Act>)
    requires Lawful(o) && Legal(o, acts)
    ensures Sound(o, Run(o, acts))
  {
    hide MayStore, After, Lawful, LiveIsNewest, WellStored;
    if acts == [] {
      NothingStored(o);
    } else {
      var before, a := acts[..|acts| - 1], acts[|acts| - 1];
      RunsStaySound(o, before);
      StoreKeepsWellStored(o, Run(o, before), a);
      StoreKeepsNewest(o, Run(o, before), a);
    }
  }

  lemma NothingStored(o: Outside)
    ensures Sound(o, map[])
  {
    hide Stored;
  }

  /** A chip once revoked is never live again, whatever is stored afterwards. */
  lemma {:induction false} RevocationIsFinal(o: Outside, acts: seq<Act>, more: seq<Act>, c: Cid)
    requires Lawful(o) && Legal(o, acts + more) && Revoked(Run(o, acts), c)
    ensures Revoked(Run(o, acts + more), c)
    decreases |more|
  {
    hide MayStore, After, Lawful, Revoked, LiveIsNewest, WellStored;
    if more == [] {
      assert acts + more == acts;
    } else {
      var shorter := acts + more[..|more| - 1];
      assert (acts + more)[..|acts + more| - 1] == shorter;
      RevocationIsFinal(o, acts, more[..|more| - 1], c);
      RunsStaySound(o, shorter);
      RevokedStays(o, Run(o, shorter), more[|more| - 1], c);
    }
  }

  // ---------------------------------------------------------------- validation

  datatype Request =
    | App(slug: string)
    | User
    | Tenant(creator: Cid)
    | Membership(user: Cid, tenant: Cid)
    | Token(user: Cid)
    | Revoke(target: Cid, actor: Cid)

  datatype Verdict = Valid | InvalidChip | DependencyMissing

  /** `WorldScope::parse`: the app of a world. */
  function AppOf(world: string): Option<string> {
    var parts := Split(world);
    if |parts| < 2 || parts[0] != "a" || parts[1] == "" then None
    else if |parts| >= 4 && parts[2] == "t" then if parts[3] == "" then None else Some(parts[1])
    else if |parts| == 2 then Some(parts[1])
    else None
  }

  ghost function ChipVerdict(chips: map<Cid, Chip>, cid: Cid, kind: string): Verdict {
    if cid !in chips then DependencyMissing
    else if chips[cid].kind != kind then InvalidChip
    else if Revoked(chips, cid) then DependencyMissing
    else Valid
  }

  ghost function AppVerdict(chips: map<Cid, Chip>, slug: string): Verdict {
    if HasLiveApp(chips, slug) then Valid else DependencyMissing
  }

  function UserQuery(app: string): Query {
    ByTag(USER, FieldTag("app", app), Some(1))
  }

  /** The rules, said over the whole store. `cap` is whether the body carries the capability its kind needs. */
  ghost function Rules(chips: map<Cid, Chip>, req: Request, cap: bool, world: string): Verdict {
    match req
    case App(slug) => if !cap || HasLiveApp(chips, slug) then InvalidChip else Valid
    case User =>
      if AppOf(world).None? then InvalidChip
      else
        var v := AppVerdict(chips, AppOf(world).value);
        if v != Valid then v
        else if !cap && FullScan(chips, UserQuery(AppOf(world).value)) == {} then InvalidChip
        else Valid
    case Tenant(creator) =>
      if AppOf(world).None? then InvalidChip
      else
        var v := AppVerdict(chips, AppOf(world).value);
        if v != Valid then v else ChipVerdict(chips, creator, USER)
    case Membership(user, tenant) =>
      if !cap then InvalidChip
      else if ChipVerdict(chips, user, USER) != Valid then ChipVerdict(chips, user, USER)
      else ChipVerdict(chips, tenant, TENANT)
    case Token(user) => ChipVerdict(chips, user, USER)
    case Revoke(target, actor) =>
      if !cap then InvalidChip
      else if target !in chips then DependencyMissing
      else ChipVerdict(chips, actor, USER)
  }

  method IsRevoked(o: Outside, store: B.Backend, cid: Cid) returns (r: bool)
    requires Complete(store.St()) && WellStored(o, store.chips)
    ensures r == Revoked(store.chips, cid)
  {
    hide WellStored, Revoked, IsAnswer;
    var found := store.QueryChips(RevokeQuery(cid));
    OneRevocationIsEnough(o, store.chips, cid, found);
    r := found.chips != [];
  }

  /** The loop over the first hundred apps of a slug. */
  method FindLiveApp(o: Outside, store: B.Backend, slug: string) returns (found: bool)
    requires Complete(store.St()) && Sound(o, store.chips)
    ensures found == HasLiveApp(store.chips, slug)
    ensures !found ==> AppCheckPasses(store.chips, slug)
  {
    hide WellStored, LiveIsNewest, Revoked, IsAnswer, HasLiveApp, Complete;
    var apps := store.QueryChips(AppQuery(slug));
    PageMissesNothing(o, store.chips, slug, apps);
    for i := 0 to |apps.chips|
      invariant forall j :: 0 <= j < i ==> !IsLiveHit(store.chips, slug, apps.chips[j])
    {
      var chip := apps.chips[i];
      if "slug" in chip.fields && chip.fields["slug"] == slug {
        var revoked := IsRevoked(o, store, chip.cid);
        if !revoked {
          assert IsLiveHit(store.chips, slug, apps.chips[i]);
          return true;
        }
      }
    }
    found := false;
  }

  method RequireAppExists(o: Outside, store: B.Backend, slug: string) returns (v: Verdict)
    requires Complete(store.St()) && Sound(o, store.chips)
    ensures v == AppVerdict(store.chips, slug)
  {
    hide Complete, Sound, HasLiveApp;
    var found := FindLiveApp(o, store, slug);
    v := if found then Valid else DependencyMissing;
  }

  method RequireChipExists(o: Outside, store: B.Backend, cid: Cid, kind: string) returns (v: Verdict)
    requires Complete(store.St()) && WellStored(o, store.chips)
    ensures v == ChipVerdict(store.chips, cid, kind)
  {
    hide Complete, WellStored, Revoked;
    if cid !in store.chips { return DependencyMissing; }
    if store.chips[cid].kind != kind { return InvalidChip; }
    var revoked := IsRevoked(o, store, cid);
    v := if revoked then DependencyMissing else Valid;
  }

  method HasUser(store: B.Backend, app: string) returns (some: bool)
    requires Complete(store.St())
    ensures some <==> FullScan(store.chips, UserQuery(app)) != {}
  {
    hide Complete, FullScan, IsAnswer;
    var users := store.QueryChips(UserQuery(app));
    AnswerMembers(store.chips, UserQuery(app), users);
    some := users.chips != [];
  }

  /** `validate_onboarding_dependencies` decides by truncated queries what the rules say of the whole store. */
  method Validate(o: Outside, store: B.Backend, req: Request, cap: bool, world: string) returns (v: Verdict)
    requires Complete(store.St()) && Sound(o, store.chips)
    ensures v == Rules(store.chips, req, cap, world)
    ensures req.App? && v == Valid ==> AppCheckPasses(store.chips, req.slug)
  {
    hide AppCheckPasses, Complete, WellStored, LiveIsNewest, HasLiveApp, FullScan, ChipVerdict, AppOf;
    match req
    case App(slug) =>
      if !cap { return InvalidChip; }
      var taken := FindLiveApp(o, store, slug);
      v := if taken then InvalidChip else Valid;
    case User =>
      var app := AppOf(world);
      if app.None? { return InvalidChip; }
      v := RequireAppExists(o, store, app.value);
      if v != Valid { return; }
      var known := HasUser(store, app.value);
      v := if !known && !cap then InvalidChip else Valid;
    case Tenant(creator) =>
      var app := AppOf(world);
      if app.None? { return InvalidChip; }
      v := RequireAppExists(o, store, app.value);
      if v == Valid { v := RequireChipExists(o, store, creator, USER); }
    case Membership(user, tenant) =>
      if !cap { return InvalidChip; }
      v := RequireChipExists(o, store, user, USER);
      if v == Valid { v := RequireChipExists(o, store, tenant, TENANT); }
    case Token(user) =>
      v := RequireChipExists(o, store, user, USER);
    case Revoke(target, actor) =>
      if !cap { return InvalidChip; }
      if target !in store.chips { return DependencyMissing; }
      v := RequireChipExists(o, store, actor, USER);
  }

  // ---------------------------------------------------------------- from a body to the store

  datatype Parsed = NotOnboarding | Malformed | Parsed(req: Request)

  predicate Filled(fields: map<string, string>, name: string) {
    name in fields && fields[name] != ""
  }

  predicate Prefixed(fields: map<string, string>, name: string, prefix: string) {
    name in fields && |prefix| <= |fields[name]| && fields[name][..|prefix|] == prefix
  }

  predicate SlugOk(fields: map<string, string>) {
    Filled(fields, "slug") && '/' !in fields["slug"] && ' ' !in fields["slug"]
  }

  /** `parse_onboarding_chip`. */
  function ParseBody(b: Body): Parsed {
    var f := b.fields;
    if "@type" !in f then Malformed
    else if f["@type"] == APP then
      if SlugOk(f) && Filled(f, "display_name") && Prefixed(f, "owner_did", "did:") then Parsed(App(f["slug"])) else Malformed
    else if f["@type"] == USER then
      if Prefixed(f, "did", "did:") && Filled(f, "display_name") then Parsed(User) else Malformed
    else if f["@type"] == TENANT then
      if SlugOk(f) && Filled(f, "display_name") && Prefixed(f, "creator_cid", "b3:") then Parsed(Tenant(f["creator_cid"])) else Malformed
    else if f["@type"] == "ubl/membership" then
      if Prefixed(f, "user_cid", "b3:") && Prefixed(f, "tenant_cid", "b3:") && "role" in f && f["role"] in {"admin", "member"}
      then Parsed(Membership(f["user_cid"], f["tenant_cid"])) else Malformed
    else if f["@type"] == "ubl/token" then
      if Prefixed(f, "user_cid", "b3:") && "expires_at" in f && "kid" in f then Parsed(Token(f["user_cid"])) else Malformed
    else if f["@type"] == REVOKE then
      if Prefixed(f, "target_cid", "b3:") && Filled(f, "reason") && Prefixed(f, "actor_cid", "b3:")
      then Parsed(Revoke(f["target_cid"], f["actor_cid"])) else Malformed
    else NotOnboarding
  }

  /** What the rules say of a body: one that is malformed is invalid, one of another kind has no rule. */
  ghost function BodyRules(chips: map<Cid, Chip>, b: Body, cap: bool, world: string): Verdict {
    match ParseBody(b)
    case NotOnboarding => Valid
    case Malformed => InvalidChip
    case Parsed(req) => Rules(chips, req, cap, world)
  }

  /**
    The way of a chip through validation into the store. It is stored exactly when the rules allow it over the
    whole store, and then at most one app per slug is live, as before; otherwise nothing changes.
   */
  method Admit(o: Outside, store: B.Backend, a: Act, cap: bool, world: string) returns (v: Verdict)
    requires Lawful(o) && Complete(store.St()) && Sound(o, store.chips)
    requires forall c :: c in store.chips ==> store.chips[c].createdAt < a.now
    modifies store
    ensures v == BodyRules(old(store.chips), a.body, cap, world)
    ensures store.chips == if v == Valid then After(o, old(store.chips), a) else old(store.chips)
    ensures Complete(store.St()) && Sound(o, store.chips)
  {
    hide Complete, Sound, Rules, AppCheckPasses, Filled, Prefixed, SlugOk, Lawful;
    var parsed := ParseBody(a.body);
    v := Valid;
    if parsed.Malformed? { return InvalidChip; }
    if parsed.Parsed? { v := Validate(o, store, parsed.req, cap, world); }
    if v != Valid { return; }
    AppBodiesParseAsApps(a.body);
    StoreExecutedChip(o, store, a);
  }

  lemma AppBodiesParseAsApps(b: Body)
    requires !ParseBody(b).Malformed?
    ensures KindOf(b) == APP ==> ParseBody(b).Parsed? && "slug" in b.fields && ParseBody(b).req == App(b.fields["slug"])
  {
  }

  lemma ContentIdsAreApart(o: Outside, chips: map<Cid, Chip>, b: Body)
    requires Lawful(o) && WellStored(o, chips)
    ensures AllApart(chips.Keys + {o.cid(b)})
  {
    hide Apart, TagsOf;
    forall c, d | c in chips.Keys + {o.cid(b)} && d in chips.Keys + {o.cid(b)} ensures Apart(c, d) {
      assert NulFree(c) && NulFree(d) by {
        assert c in chips ==> c == o.cid(Body(chips[c].fields, chips[c].rest));
        assert d in chips ==> d == o.cid(Body(chips[d].fields, chips[d].rest));
      }
      NulFreeIsApart(c, d);
    }
  }

  /** `store_executed_chip`: a chip that may be stored keeps the store sound and its indexes complete. */
  method StoreExecutedChip(o: Outside, store: B.Backend, a: Act)
    requires Lawful(o) && Complete(store.St()) && Sound(o, store.chips) && MayStore(store.chips, a.body, a.now)
    modifies store
    ensures store.chips == After(o, old(store.chips), a)
    ensures Complete(store.St()) && Sound(o, store.chips)
  {
    hide Complete, LiveIsNewest, WellStored, MayStore, TagsOf;
    StoreKeepsWellStored(o, store.chips, a);
    StoreKeepsNewest(o, store.chips, a);
    ContentIdsAreApart(o, store.chips, a.body);
    store.PutChip(Stored(o, a.body, a.executor, a.now));
  }
}
