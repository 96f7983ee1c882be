/**
  The event store: a primary tree and seven index trees keyed by formatted strings. Strings are
  their UTF-8 bytes, which is how sled compares them. An event is what the store reads off its JSON.
 */
module EventStore {
  import opened Prelude
  import opened SortedKeys

  type Text = seq<Byte>

  const SEP: Byte := 0x1f
  const STAR: Byte := 42

  datatype Event = Event(
    id: Text,
    when: int64,
    world: Option<Text>,
    stage: Option<Text>,
    chipType: Option<Text>,
    decision: Option<Text>,
    code: Option<Text>,
    actor: Option<Text>,
    body: Text)

  datatype Query = Query(
    world: Option<Text>,
    stage: Option<Text>,
    decision: Option<Text>,
    code: Option<Text>,
    chipType: Option<Text>,
    actor: Option<Text>,
    since: Option<int64>,
    limit: Option<nat>)

  /** The index trees. */
  datatype Dim = ByTime | ByWorld | ByStage | ByType | ByDecision | ByCode | ByActor

  const DIMS: set<Dim> := {ByTime, ByWorld, ByStage, ByType, ByDecision, ByCode, ByActor}

  lemma DimsAreAll(d: Dim)
    ensures d in DIMS
  {
    match d
    case ByTime =>
    case ByWorld =>
    case ByStage =>
    case ByType =>
    case ByDecision =>
    case ByCode =>
    case ByActor =>
  }

  datatype Store = Store(events: map<Text, Event>, trees: map<Dim, seq<Key>>)

  // ---------------------------------------------------------------- keys

  function TimeKey(e: Event): Key {
    Padded(e.when) + ([SEP] + e.id)
  }

  function ValuePrefix(v: Text): Key {
    v + [SEP]
  }

  function DimKey(v: Text, e: Event): Key {
    ValuePrefix(v) + TimeKey(e)
  }

  /** "a/system", the world of events that name none. */
  const SYSTEM_WORLD: Text := [97, 47, 115, 121, 115, 116, 101, 109]

  /** What an event is indexed under. */
  function IndexedValue(e: Event, d: Dim): Option<Text> {
    match d
    case ByTime => None
    case ByWorld => Some(if e.world.Some? then e.world.value else SYSTEM_WORLD)
    case ByStage => e.stage
    case ByType => e.chipType
    case ByDecision => e.decision
    case ByCode => e.code
    case ByActor => e.actor
  }

  function KeyIn(e: Event, d: Dim): Option<Key> {
    if d.ByTime? then Some(TimeKey(e))
    else
      match IndexedValue(e, d)
      case None => None
      case Some(v) => Some(DimKey(v, e))
  }

  /** What follows the last separator of a key. */
  function IdOf(k: Key): Text {
    if k == [] || k[|k| - 1] == SEP then [] else IdOf(k[..|k| - 1]) + [k[|k| - 1]]
  }

  lemma {:induction false} IdAfterSeparator(p: Key, id: Text)
    ensures SEP !in id ==> IdOf(p + ([SEP] + id)) == id
    ensures SEP in id ==> |IdOf(p + ([SEP] + id))| < |id|
  {
    var k := p + ([SEP] + id);
    if id == [] {
      assert k[|k| - 1] == SEP;
    } else {
      var n := |id| - 1;
      assert k[|k| - 1] == id[n] && k[..|k| - 1] == p + ([SEP] + id[..n]);
      assert id == id[..n] + [id[n]];
      if id[n] != SEP { IdAfterSeparator(p, id[..n]); }
    }
  }

  /** A key leads back to its event exactly when the id has no separator in it. */
  lemma KeyLeadsBack(e: Event, d: Dim)
    requires KeyIn(e, d).Some?
    ensures IdOf(KeyIn(e, d).value) == e.id <==> SEP !in e.id
  {
    hide IdOf, Padded;
    if d.ByTime? {
      IdAfterSeparator(Padded(e.when), e.id);
    } else {
      var v := IndexedValue(e, d).value;
      assert DimKey(v, e) == (ValuePrefix(v) + Padded(e.when)) + ([SEP] + e.id);
      IdAfterSeparator(ValuePrefix(v) + Padded(e.when), e.id);
    }
  }

  // ---------------------------------------------------------------- matching

  function UpperByte(b: Byte): Byte {
    if 97 <= b <= 122 then b - 32 else b
  }

  function Upper(s: Text): (r: Text)
    ensures |r| == |s|
  {
    seq(|s|, i requires 0 <= i < |s| => UpperByte(s[i]))
  }

  predicate EqIgnoreCase(a: Text, b: Text) {
    Upper(a) == Upper(b)
  }

  function OrEmpty(o: Option<Text>): Text {
    if o.Some? then o.value else []
  }

  predicate EndsWith(s: Text, t: Text) {
    |t| <= |s| && s[|s| - |t|..] == t
  }

  predicate Contains(s: Text, t: Text) {
    exists i :: 0 <= i <= |s| - |t| && FoundAt(s, t, i)
  }

  predicate FoundAt(s: Text, t: Text, i: nat)
    requires i <= |s| - |t|
  {
    s[i..i + |t|] == t
  }

  function BeforeStar(p: Text): Text {
    if p == [] || p[0] == STAR then [] else [p[0]] + BeforeStar(p[1..])
  }

  /** `matches_type_glob`. */
  predicate MatchesGlob(actual: Text, pattern: Text) {
    if STAR !in pattern then actual == pattern
    else
      var head := BeforeStar(pattern);
      if pattern == [STAR] then true
      else if |head| < |pattern| && STAR !in pattern[|head| + 1..] then
        StartsWith(actual, head) && EndsWith(actual, pattern[|head| + 1..])
      else Contains(actual, head)
  }

  lemma {:induction false} BeforeStarOf(p: Text, rest: Text)
    requires STAR !in p
    ensures BeforeStar(p + ([STAR] + rest)) == p
  {
    var t := p + ([STAR] + rest);
    if p != [] {
      assert t[1..] == p[1..] + ([STAR] + rest);
      BeforeStarOf(p[1..], rest);
    }
  }

  /** A pattern with one star asks for its front and its back. */
  lemma GlobOneStar(actual: Text, front: Text, back: Text)
    requires STAR !in front && STAR !in back
    ensures MatchesGlob(actual, front + ([STAR] + back)) <==> StartsWith(actual, front) && EndsWith(actual, back)
  {
    hide BeforeStar, StartsWith, Contains;
    var p := front + ([STAR] + back);
    BeforeStarOf(front, back);
    assert p[|front|] == STAR && p[|front| + 1..] == back;
    if p == [STAR] {
      assert front == [] && back == [];
      StartsWithIsPrefix(actual, front);
      assert actual == [] + actual;
    }
  }

  /** Front and back may overlap: the pattern "a*a" takes the text "a". */
  lemma GlobEndsMayOverlap()
    ensures MatchesGlob([97], [97, STAR, 97])
  {
    assert [97] + ([STAR] + [97]) == [97, STAR, 97];
    GlobOneStar([97], [97], [97]);
  }

  predicate Matches(e: Event, q: Query) {
    && (q.world.Some? ==> e.world == q.world)
    && (q.stage.Some? ==> EqIgnoreCase(OrEmpty(e.stage), q.stage.value))
    && (q.decision.Some? ==> EqIgnoreCase(OrEmpty(e.decision), q.decision.value))
    && (q.code.Some? ==> e.code == q.code)
    && (q.actor.Some? ==> e.actor == q.actor)
    && (q.chipType.Some? ==> MatchesGlob(OrEmpty(e.chipType), q.chipType.value))
  }

  // What each filter asks of the event's own field, without the matcher.

  /** Letters that differ in case only, by their ASCII codes. */
  ghost predicate SameLetter(a: Byte, b: Byte) {
    a == b || (65 <= a <= 90 && b == a + 32) || (65 <= b <= 90 && a == b + 32)
  }

  ghost predicate SameUpToCase(a: Text, b: Text) {
    |a| == |b| && forall i :: 0 <= i < |a| ==> SameLetter(a[i], b[i])
  }

  /** A pattern without a star is the text; a star alone takes all; one star asks for both ends; more only look for what is before the first. */
  ghost predicate GlobAccepts(actual: Text, pattern: Text) {
    || (STAR !in pattern && actual == pattern)
    || pattern == [STAR]
    || (exists front, back :: SplitsAtStar(pattern, front, back) && GlobTakes(actual, front, back))
  }

  ghost predicate SplitsAtStar(pattern: Text, front: Text, back: Text) {
    pattern == front + ([STAR] + back) && STAR !in front
  }

  ghost predicate GlobTakes(actual: Text, front: Text, back: Text) {
    if STAR in back then exists a, c :: actual == a + (front + c)
    else (exists c :: actual == front + c) && exists a :: actual == a + back
  }

  /** The filter on one dimension, if the query sets it; time is not a matter of matching. */
  ghost predicate Passes(e: Event, q: Query, d: Dim) {
    match d
    case ByTime => true
    case ByWorld => q.world.Some? ==> e.world.Some? && e.world.value == q.world.value
    case ByCode => q.code.Some? ==> e.code.Some? && e.code.value == q.code.value
    case ByActor => q.actor.Some? ==> e.actor.Some? && e.actor.value == q.actor.value
    case ByStage => q.stage.Some? ==> SameUpToCase(if e.stage.Some? then e.stage.value else [], q.stage.value)
    case ByDecision => q.decision.Some? ==> SameUpToCase(if e.decision.Some? then e.decision.value else [], q.decision.value)
    case ByType => q.chipType.Some? ==> GlobAccepts(if e.chipType.Some? then e.chipType.value else [], q.chipType.value)
  }

  /** The event passes every filter of the query. */
  ghost predicate Answers(e: Event, q: Query) {
    forall d :: Passes(e, q, d)
  }

  lemma CaseIsIgnored(a: Text, b: Text)
    ensures EqIgnoreCase(a, b) <==> SameUpToCase(a, b)
  {
    if EqIgnoreCase(a, b) {
      forall i | 0 <= i < |a| ensures SameLetter(a[i], b[i]) { assert Upper(a)[i] == Upper(b)[i]; }
    }
  }

  lemma ContainsMeans(s: Text, t: Text)
    ensures Contains(s, t) <==> exists a, c :: s == a + (t + c)
  {
    if Contains(s, t) {
      var i :| 0 <= i <= |s| - |t| && FoundAt(s, t, i);
      assert s == s[..i] + (t + s[i + |t|..]);
    }
    if a, c :| s == a + (t + c) { assert FoundAt(s, t, |a|); }
  }

  lemma EndsWithMeans(s: Text, t: Text)
    ensures EndsWith(s, t) <==> exists a :: s == a + t
  {
    if EndsWith(s, t) { assert s == s[..|s| - |t|] + t; }
  }

  lemma {:induction false} BeforeStarSplits(p: Text)
    requires STAR in p
    ensures var head := BeforeStar(p); |head| < |p| && SplitsAtStar(p, head, p[|head| + 1..])
  {
    if p[0] == STAR {
      assert p == [] + ([STAR] + p[1..]);
    } else {
      BeforeStarSplits(p[1..]);
      var head := BeforeStar(p[1..]);
      assert BeforeStar(p) == [p[0]] + head;
      hide BeforeStar;
      SplitGrows(p, head, p[1..][|head| + 1..]);
    }
  }

  lemma SplitGrows(p: Text, head: Text, back: Text)
    requires p != [] && p[0] != STAR && SplitsAtStar(p[1..], head, back)
    ensures |head| + 1 < |p| && SplitsAtStar(p, [p[0]] + head, p[|head| + 2..])
  {
    assert p == [p[0]] + p[1..];
    assert [p[0]] + (head + ([STAR] + back)) == ([p[0]] + head) + ([STAR] + back);
    assert p[|head| + 2..] == p[1..][|head| + 1..] == back;
  }

  lemma SplitIsUnique(p: Text, front: Text, back: Text)
    requires SplitsAtStar(p, front, back)
    ensures BeforeStar(p) == front && p[|front| + 1..] == back
  {
    BeforeStarOf(front, back);
  }

  /** The matcher takes exactly the texts the pattern accepts. */
  lemma GlobMeans(actual: Text, pattern: Text)
    ensures MatchesGlob(actual, pattern) <==> GlobAccepts(actual, pattern)
  {
    hide BeforeStar, StartsWith, Contains, EndsWith;
    if STAR in pattern && pattern != [STAR] {
      BeforeStarSplits(pattern);
      var front := BeforeStar(pattern);
      var back := pattern[|front| + 1..];
      StartsWithIsPrefix(actual, front);
      EndsWithMeans(actual, back);
      ContainsMeans(actual, front);
      assert MatchesGlob(actual, pattern) <==> GlobTakes(actual, front, back);
      if f, b :| SplitsAtStar(pattern, f, b) && GlobTakes(actual, f, b) { SplitIsUnique(pattern, f, b); }
    }
  }

  /** The matcher lets through exactly the events that pass every filter. */
  lemma MatchesExactly(e: Event, q: Query)
    ensures Matches(e, q) <==> Answers(e, q)
  {
    hide MatchesGlob, GlobAccepts, EqIgnoreCase, SameUpToCase;
    if q.stage.Some? { CaseIsIgnored(OrEmpty(e.stage), q.stage.value); }
    if q.decision.Some? { CaseIsIgnored(OrEmpty(e.decision), q.decision.value); }
    if q.chipType.Some? { GlobMeans(OrEmpty(e.chipType), q.chipType.value); }
    if Answers(e, q) {
      assert Passes(e, q, ByWorld) && Passes(e, q, ByStage) && Passes(e, q, ByDecision);
      assert Passes(e, q, ByCode) && Passes(e, q, ByActor) && Passes(e, q, ByType);
    }
  }

  /** `choose_best_index`: a tree and the value to look up in it, or nothing for the time scan. */
  function ChooseIndex(q: Query): (r: Option<(Dim, Text)>)
    ensures r.Some? ==> r.value.0 != ByTime
  {
    if q.chipType.Some? && STAR !in q.chipType.value then Some((ByType, q.chipType.value))
    else if q.world.Some? then Some((ByWorld, q.world.value))
    else if q.actor.Some? then Some((ByActor, q.actor.value))
    else if q.code.Some? then Some((ByCode, q.code.value))
    else if q.stage.Some? && q.stage.value == Upper(q.stage.value) then Some((ByStage, q.stage.value))
    else if q.decision.Some? && q.decision.value == Upper(q.decision.value) then Some((ByDecision, q.decision.value))
    else None
  }

  /** An index that can serve the query, and the value it would look up. */
  ghost predicate Usable(q: Query, d: Dim, v: Text) {
    match d
    case ByTime => false
    case ByType => q.chipType == Some(v) && STAR !in v
    case ByWorld => q.world == Some(v)
    case ByActor => q.actor == Some(v)
    case ByCode => q.code == Some(v)
    case ByStage => q.stage == Some(v) && forall i :: 0 <= i < |v| ==> !(97 <= v[i] <= 122)
    case ByDecision => q.decision == Some(v) && forall i :: 0 <= i < |v| ==> !(97 <= v[i] <= 122)
  }

  ghost function Preference(d: Dim): nat {
    match d
    case ByType => 0
    case ByWorld => 1
    case ByActor => 2
    case ByCode => 3
    case ByStage => 4
    case ByDecision => 5
    case ByTime => 6
  }

  lemma UpperExactly(s: Text)
    ensures s == Upper(s) <==> forall i :: 0 <= i < |s| ==> !(97 <= s[i] <= 122)
  {
    if s == Upper(s) {
      forall i | 0 <= i < |s| ensures !(97 <= s[i] <= 122) { assert Upper(s)[i] == s[i]; }
    }
  }

  /** The index chosen is the usable one that comes first in preference, and there is one if any is usable. */
  lemma ChoosesBest(q: Query)
    ensures ChooseIndex(q).Some? ==> Usable(q, ChooseIndex(q).value.0, ChooseIndex(q).value.1)
    ensures forall d, v :: Usable(q, d, v) ==> ChooseIndex(q).Some? && Preference(ChooseIndex(q).value.0) <= Preference(d)
  {
    hide Upper;
    if q.stage.Some? { UpperExactly(q.stage.value); }
    if q.decision.Some? { UpperExactly(q.decision.value); }
  }

  // ---------------------------------------------------------------- queries

  function Limit(q: Query): (n: nat)
    ensures 1 <= n <= 2000
    ensures q.limit == None ==> n == 200
    ensures q.limit.Some? && 1 <= q.limit.value <= 2000 ==> n == q.limit.value
    ensures q.limit == Some(0) ==> n == 1
    ensures q.limit.Some? && q.limit.value > 2000 ==> n == 2000
  {
    var asked := if q.limit.Some? then q.limit.value else 200;
    if asked < 1 then 1 else if asked > 2000 then 2000 else asked
  }

  function Start(q: Query): Key {
    Padded(if q.since.Some? then q.since.value else 0) + [SEP]
  }

  function Take<T>(xs: seq<T>, n: nat): seq<T> {
    if |xs| <= n then xs else xs[..n]
  }

  predicate Picks(events: map<Text, Event>, k: Key, q: Query) {
    IdOf(k) in events && Matches(events[IdOf(k)], q)
  }

  /** The stored events that the keys lead to and the query matches, in key order. */
  function Picked(events: map<Text, Event>, ks: seq<Key>, q: Query): seq<Event> {
    if ks == [] then []
    else (if Picks(events, ks[0], q) then [events[IdOf(ks[0])]] else []) + Picked(events, ks[1..], q)
  }

  function ScanList(st: Store, q: Query): seq<Event>
    requires st.trees.Keys == DIMS
  {
    Picked(st.events, From(st.trees[ByTime], Start(q)), q)
  }

  /** The keys that `scan_dim_index` visits before it stops. */
  function IndexKeys(st: Store, q: Query, d: Dim, v: Text): seq<Key>
    requires st.trees.Keys == DIMS
  {
    DimsAreAll(d);
    WhilePrefix(From(st.trees[d], ValuePrefix(v) + Start(q)), ValuePrefix(v))
  }

  function IndexList(st: Store, q: Query, d: Dim, v: Text): seq<Event>
    requires st.trees.Keys == DIMS
  {
    Picked(st.events, IndexKeys(st, q, d, v), q)
  }

  /** `query`. */
  function RunQuery(st: Store, q: Query): seq<Event>
    requires st.trees.Keys == DIMS
  {
    match ChooseIndex(q)
    case None => Take(ScanList(st, q), Limit(q))
    case Some((d, v)) => Take(IndexList(st, q, d, v), Limit(q))
  }

  // ---------------------------------------------------------------- updates

  function WithKey(e: Event, d: Dim, tree: seq<Key>): seq<Key> {
    match KeyIn(e, d)
    case None => tree
    case Some(k) => Insert(tree, k)
  }

  function WithEvent(trees: map<Dim, seq<Key>>, e: Event): (r: map<Dim, seq<Key>>)
    requires trees.Keys == DIMS
    ensures r.Keys == DIMS
  {
    map d | d in DIMS :: WithKey(e, d, trees[d])
  }

  /** `append_event_json` of a well-formed event: refused when the id is taken. */
  function Append(st: Store, e: Event): Store
    requires st.trees.Keys == DIMS
  {
    if e.id in st.events then st else Store(st.events[e.id := e], WithEvent(st.trees, e))
  }

  const EMPTY_TREES: map<Dim, seq<Key>> := map d | d in DIMS :: []
  const EMPTY: Store := Store(map[], EMPTY_TREES)

  // ---------------------------------------------------------------- index correctness

  /** A tree holds exactly the keys of the stored events, in order. */
  ghost predicate TreeOf(events: map<Text, Event>, d: Dim, ks: seq<Key>) {
    && Sorted(ks)
    && (forall id :: id in events && KeyIn(events[id], d).Some? ==> KeyIn(events[id], d).value in ks)
    && (forall k :: k in ks ==> KeyOfSome(events, d, k))
  }

  ghost predicate KeyOfSome(events: map<Text, Event>, d: Dim, k: Key) {
    exists id :: id in events && KeyIn(events[id], d) == Some(k)
  }

  ghost predicate Indexed(st: Store) {
    && st.trees.Keys == DIMS
    && (forall id :: id in st.events ==> st.events[id].id == id)
    && (forall d :: d in DIMS ==> TreeOf(st.events, d, st.trees[d]))
  }

  lemma TreeOfGrows(events: map<Text, Event>, e: Event, d: Dim, ks: seq<Key>)
    requires TreeOf(events, d, ks) && e.id !in events
    ensures TreeOf(events[e.id := e], d, WithKey(e, d, ks))
  {
    hide KeyIn, Insert, Sorted;
    var events' := events[e.id := e];
    forall k | KeyOfSome(events, d, k) ensures KeyOfSome(events', d, k) {
      var id :| id in events && KeyIn(events[id], d) == Some(k);
      assert events'[id] == events[id];
    }
    if KeyIn(e, d).Some? {
      InsertProperties(ks, KeyIn(e, d).value);
      assert KeyOfSome(events', d, KeyIn(e, d).value) by { assert events'[e.id] == e; }
    }
  }

  lemma AppendKeepsIndexes(st: Store, e: Event)
    requires Indexed(st)
    ensures Indexed(Append(st, e))
  {
    hide TreeOf, WithKey;
    if e.id !in st.events {
      forall d | d in DIMS ensures TreeOf(Append(st, e).events, d, Append(st, e).trees[d]) {
        TreeOfGrows(st.events, e, d, st.trees[d]);
      }
    }
  }

  /** Clearing every tree and inserting the keys of the given events, one event after another. */
  ghost function Reindex(events: map<Text, Event>, ids: set<Text>): (r: map<Dim, seq<Key>>)
    requires ids <= events.Keys
    ensures r.Keys == DIMS
  {
    if ids == {} then EMPTY_TREES
    else
      var id :| id in ids;
      WithEvent(Reindex(events, ids - {id}), events[id])
  }

  ghost function Rebuild(st: Store): Store {
    Store(st.events, Reindex(st.events, st.events.Keys))
  }

  ghost function Restrict(events: map<Text, Event>, ids: set<Text>): map<Text, Event> {
    map id | id in ids && id in events :: events[id]
  }

  lemma {:induction false} ReindexIsCorrect(events: map<Text, Event>, ids: set<Text>)
    requires ids <= events.Keys && forall id :: id in events ==> events[id].id == id
    ensures forall d :: d in DIMS ==> TreeOf(Restrict(events, ids), d, Reindex(events, ids)[d])
  {
    hide WithKey, TreeOf;
    if ids == {} {
      assert Reindex(events, ids) == EMPTY_TREES;
      forall d | d in DIMS ensures TreeOf(Restrict(events, ids), d, Reindex(events, ids)[d]) {
        EmptyTree(d);
        assert Restrict(events, ids) == map[];
      }
    } else {
      var id :| id in ids && Reindex(events, ids) == WithEvent(Reindex(events, ids - {id}), events[id]);
      ReindexIsCorrect(events, ids - {id});
      EventAddsItsKeys(events, ids - {id}, id, Reindex(events, ids - {id}));
      assert ids - {id} + {id} == ids;
    }
  }

  lemma EventAddsItsKeys(events: map<Text, Event>, done: set<Text>, id: Text, trees: map<Dim, seq<Key>>)
    requires id in events && id !in done && events[id].id == id && trees.Keys == DIMS
    requires forall d :: d in DIMS ==> TreeOf(Restrict(events, done), d, trees[d])
    ensures forall d :: d in DIMS ==> TreeOf(Restrict(events, done + {id}), d, WithEvent(trees, events[id])[d])
  {
    hide WithKey, TreeOf;
    var less := Restrict(events, done);
    assert Restrict(events, done + {id}) == less[id := events[id]];
    forall d | d in DIMS ensures TreeOf(Restrict(events, done + {id}), d, WithEvent(trees, events[id])[d]) {
      TreeOfGrows(less, events[id], d, trees[d]);
    }
  }

  lemma EmptyTree(d: Dim)
    ensures TreeOf(map[], d, [])
  {
  }

  /** Two trees of the same events are equal. */
  lemma TreeUnique(events: map<Text, Event>, d: Dim, a: seq<Key>, b: seq<Key>)
    requires TreeOf(events, d, a) && TreeOf(events, d, b)
    ensures a == b
  {
    hide KeyIn, Sorted;
    forall k ensures k in a <==> k in b {
      if k in a { assert KeyOfSome(events, d, k); }
      if k in b { assert KeyOfSome(events, d, k); }
    }
    SortedUnique(a, b);
  }

  /** Rebuilding a store whose trees are right changes nothing. */
  lemma RebuildChangesNothing(st: Store)
    requires Indexed(st)
    ensures Rebuild(st) == st
  {
    hide TreeOf;
    ReindexIsCorrect(st.events, st.events.Keys);
    assert Restrict(st.events, st.events.Keys) == st.events;
    forall d | d in DIMS ensures Rebuild(st).trees[d] == st.trees[d] {
      TreeUnique(st.events, d, Rebuild(st).trees[d], st.trees[d]);
    }
  }

  datatype Op = DoAppend(e: Event) | DoRebuild

  ghost function Run(ops: seq<Op>): (st: Store)
    ensures st.trees.Keys == DIMS
  {
    if ops == [] then EMPTY
    else
      var before := Run(ops[..|ops| - 1]);
      match ops[|ops| - 1]
      case DoAppend(e) => Append(before, e)
      case DoRebuild => Rebuild(before)
  }

  /** In every run of appends and rebuilds every tree stays right. */
  lemma {:induction false} RunsStayIndexed(ops: seq<Op>)
    ensures Indexed(Run(ops))
  {
    hide TreeOf;
    if ops == [] {
      forall d | d in DIMS ensures TreeOf(EMPTY.events, d, EMPTY.trees[d]) { EmptyTree(d); }
    } else {
      var before := Run(ops[..|ops| - 1]);
      RunsStayIndexed(ops[..|ops| - 1]);
      match ops[|ops| - 1]
      case DoAppend(e) => AppendKeepsIndexes(before, e);
      case DoRebuild => RebuildChangesNothing(before);
    }
  }

  // ---------------------------------------------------------------- lists in key order

  /** Events in the order of their time keys. */
  ghost predicate InKeyOrder(es: seq<Event>) {
    forall i, j :: 0 <= i < j < |es| ==> Less(TimeKey(es[i]), TimeKey(es[j]))
  }

  lemma {:induction false} PickedMembers(events: map<Text, Event>, ks: seq<Key>, q: Query)
    ensures forall e :: e in Picked(events, ks, q) <==> PickedFrom(events, ks, q, e)
  {
    hide Picks;
    if ks != [] {
      PickedMembers(events, ks[1..], q);
      forall e ensures e in Picked(events, ks, q) <==> PickedFrom(events, ks, q, e) {
        if PickedFrom(events, ks, q, e) {
          var i :| 0 <= i < |ks| && PickedAt(events, ks[i], q, e);
          if i > 0 { assert PickedAt(events, ks[1..][i - 1], q, e); }
        }
        if PickedFrom(events, ks[1..], q, e) {
          var i :| 0 <= i < |ks[1..]| && PickedAt(events, ks[1..][i], q, e);
          assert PickedAt(events, ks[i + 1], q, e);
        }
        if PickedAt(events, ks[0], q, e) { assert PickedFrom(events, ks, q, e); }
      }
    }
  }

  ghost predicate PickedAt(events: map<Text, Event>, k: Key, q: Query, e: Event) {
    Picks(events, k, q) && events[IdOf(k)] == e
  }

  ghost predicate PickedFrom(events: map<Text, Event>, ks: seq<Key>, q: Query, e: Event) {
    exists i :: 0 <= i < |ks| && PickedAt(events, ks[i], q, e)
  }

  /** If every picked key is one prefix in front of its event's time key, the picks are in key order. */
  lemma {:induction false} PickedInOrder(events: map<Text, Event>, ks: seq<Key>, q: Query, p: Key)
    requires Sorted(ks)
    requires forall i :: 0 <= i < |ks| && Picks(events, ks[i], q) ==> ks[i] == p + TimeKey(events[IdOf(ks[i])])
    ensures InKeyOrder(Picked(events, ks, q))
  {
    hide Less, TimeKey, IdOf;
    if ks != [] {
      PickedInOrder(events, ks[1..], q, p);
      PickedMembers(events, ks[1..], q);
      var tail := Picked(events, ks[1..], q);
      if Picks(events, ks[0], q) {
        var e := events[IdOf(ks[0])];
        forall j | 0 <= j < |tail| ensures Less(TimeKey(e), TimeKey(tail[j])) {
          assert tail[j] in tail;
          var m :| 0 <= m < |ks[1..]| && PickedAt(events, ks[1..][m], q, tail[j]);
          assert ks[m + 1] == p + TimeKey(tail[j]);
          LessAfterPrefix(p, TimeKey(e), TimeKey(tail[j]));
        }
        var out := Picked(events, ks, q);
        assert forall j :: 0 < j < |out| ==> out[j] == tail[j - 1];
      }
    }
  }

  /** A list in key order is determined by its members. */
  lemma {:induction false} OrderedUnique(xs: seq<Event>, ys: seq<Event>)
    requires InKeyOrder(xs) && InKeyOrder(ys) && forall e :: e in xs <==> e in ys
    ensures xs == ys
  {
    hide Less, TimeKey;
    assert xs != [] ==> xs[0] in ys;
    assert ys != [] ==> ys[0] in xs;
    if xs != [] && ys != [] {
      var i :| 0 <= i < |ys| && ys[i] == xs[0];
      var j :| 0 <= j < |xs| && xs[j] == ys[0];
      LessTrichotomy(TimeKey(xs[0]), TimeKey(ys[0]));
      assert xs[0] == ys[0];
      OrderedTail(xs, ys);
      OrderedTail(ys, xs);
      OrderedUnique(xs[1..], ys[1..]);
      assert xs == [xs[0]] + xs[1..] && ys == [ys[0]] + ys[1..];
    }
  }

  lemma OrderedTail(xs: seq<Event>, ys: seq<Event>)
    requires xs != [] && ys != [] && xs[0] == ys[0] && InKeyOrder(xs) && forall e :: e in xs ==> e in ys
    ensures forall e :: e in xs[1..] ==> e in ys[1..]
  {
    hide Less, TimeKey;
    forall e | e in xs[1..] ensures e in ys[1..] {
      var m :| 0 <= m < |xs[1..]| && xs[1..][m] == e;
      assert xs[m + 1] == e;
      LessTrichotomy(TimeKey(xs[0]), TimeKey(e));
      assert e in ys;
      assert ys == [ys[0]] + ys[1..];
    }
  }

  // ---------------------------------------------------------------- the time scan

  /** A stored event that the query asks for. */
  ghost predicate Asked(st: Store, q: Query, e: Event) {
    e.id in st.events && st.events[e.id] == e && Matches(e, q) && !Less(TimeKey(e), Start(q))
  }

  ghost predicate CleanIds(st: Store) {
    forall id :: id in st.events ==> SEP !in id
  }

  lemma TimeTreeKey(st: Store, k: Key)
    requires Indexed(st) && CleanIds(st) && k in st.trees[ByTime]
    ensures IdOf(k) in st.events && st.events[IdOf(k)].id == IdOf(k) && k == TimeKey(st.events[IdOf(k)])
  {
    hide IdOf, TimeKey, Sorted;
    assert TreeOf(st.events, ByTime, st.trees[ByTime]);
    assert KeyOfSome(st.events, ByTime, k);
    var id :| id in st.events && KeyIn(st.events[id], ByTime) == Some(k);
    KeyLeadsBack(st.events[id], ByTime);
  }

  /** The time scan lists, in key order, exactly the events asked for. */
  lemma ScanListIsWhatIsAsked(st: Store, q: Query)
    requires Indexed(st) && CleanIds(st)
    ensures InKeyOrder(ScanList(st, q))
    ensures forall e :: e in ScanList(st, q) <==> Asked(st, q, e)
  {
    hide IdOf, TimeKey, Less, Matches, Start, TreeOf, Indexed;
    TreesAreSorted(st, ByTime);
    var tree := st.trees[ByTime];
    var ks := From(tree, Start(q));
    FromProperties(tree, Start(q));
    PickedMembers(st.events, ks, q);
    forall i | 0 <= i < |ks| ensures IdOf(ks[i]) in st.events && ks[i] == [] + TimeKey(st.events[IdOf(ks[i])]) {
      assert ks[i] in ks;
      TimeTreeKey(st, ks[i]);
      assert [] + TimeKey(st.events[IdOf(ks[i])]) == TimeKey(st.events[IdOf(ks[i])]);
    }
    PickedInOrder(st.events, ks, q, []);
    forall e ensures e in ScanList(st, q) <==> Asked(st, q, e) {
      if PickedFrom(st.events, ks, q, e) {
        var i :| 0 <= i < |ks| && PickedAt(st.events, ks[i], q, e);
        assert ks[i] in ks;
        TimeTreeKey(st, ks[i]);
      }
      if Asked(st, q, e) {
        EventIsInTree(st, e, ByTime);
        var i :| 0 <= i < |ks| && ks[i] == TimeKey(e);
        TimeTreeKey(st, TimeKey(e));
        KeyLeadsBack(e, ByTime);
        assert PickedAt(st.events, ks[i], q, e);
      }
    }
  }

  lemma TreesAreSorted(st: Store, d: Dim)
    requires Indexed(st)
    ensures st.trees.Keys == DIMS && Sorted(st.trees[d])
  {
    assert d in DIMS;
    assert TreeOf(st.events, d, st.trees[d]);
  }

  lemma EventIsInTree(st: Store, e: Event, d: Dim)
    requires Indexed(st) && e.id in st.events && st.events[e.id] == e && KeyIn(e, d).Some?
    ensures KeyIn(e, d).value in st.trees[d]
  {
    assert d in DIMS;
    assert TreeOf(st.events, d, st.trees[d]);
  }

  // ---------------------------------------------------------------- the index scan

  /** The event carries the looked-up value exactly. */
  predicate Carries(e: Event, d: Dim, v: Text) {
    IndexedValue(e, d) == Some(v)
  }

  /** A key under a value whose event matches belongs to an event that carries that value. */
  lemma MatchUnderValueCarriesIt(e: Event, q: Query, d: Dim, v: Text)
    requires ChooseIndex(q) == Some((d, v)) && Matches(e, q)
    requires KeyIn(e, d).Some? && StartsWith(KeyIn(e, d).value, ValuePrefix(v)) && SEP !in e.id
    ensures Carries(e, d, v)
  {
    hide MatchesGlob, StartsWith, Padded;
    var u := IndexedValue(e, d).value;
    if d == ByType {
      GlobIsEquality(OrEmpty(e.chipType), v);
    } else if d == ByStage || d == ByDecision {
      assert |u| == |Upper(u)| == |Upper(v)| == |v|;
      SameLengthPrefix(u, v, TimeKey(e));
    }
  }

  lemma GlobIsEquality(actual: Text, pattern: Text)
    requires STAR !in pattern
    ensures MatchesGlob(actual, pattern) <==> actual == pattern
  {
  }

  lemma SameLengthPrefix(u: Text, v: Text, rest: Key)
    requires |u| == |v| && StartsWith(ValuePrefix(u) + rest, ValuePrefix(v))
    ensures u == v
  {
    StartsWithIsPrefix(ValuePrefix(u) + rest, ValuePrefix(v));
    var x :| ValuePrefix(u) + rest == ValuePrefix(v) + x;
    assert u == (ValuePrefix(u) + rest)[..|u|] == (ValuePrefix(v) + x)[..|v|] == v;
  }

  /** A key of an index tree leads to an event with that key. */
  lemma TreeKeyLeadsBack(st: Store, d: Dim, k: Key)
    requires Indexed(st) && CleanIds(st) && k in st.trees[d]
    ensures IdOf(k) in st.events && st.events[IdOf(k)].id == IdOf(k) && KeyIn(st.events[IdOf(k)], d) == Some(k)
  {
    hide IdOf, KeyIn, Sorted;
    assert TreeOf(st.events, d, st.trees[d]);
    assert KeyOfSome(st.events, d, k);
    var id :| id in st.events && KeyIn(st.events[id], d) == Some(k);
    KeyLeadsBack(st.events[id], d);
  }

  lemma IndexKeysProperties(st: Store, q: Query, d: Dim, v: Text)
    requires Indexed(st)
    ensures Sorted(IndexKeys(st, q, d, v))
    ensures forall k :: k in IndexKeys(st, q, d, v) <==>
              k in st.trees[d] && !Less(k, ValuePrefix(v) + Start(q)) && StartsWith(k, ValuePrefix(v))
  {
    hide Less, StartsWith, Start, TreeOf;
    TreesAreSorted(st, d);
    FromProperties(st.trees[d], ValuePrefix(v) + Start(q));
    WhilePrefixProperties(From(st.trees[d], ValuePrefix(v) + Start(q)), ValuePrefix(v), Start(q));
  }

  lemma PickedIndexKey(st: Store, q: Query, d: Dim, v: Text, k: Key)
    requires Indexed(st) && CleanIds(st) && ChooseIndex(q) == Some((d, v))
    requires k in IndexKeys(st, q, d, v) && Picks(st.events, k, q)
    ensures var e := st.events[IdOf(k)];
            e.id == IdOf(k) && Carries(e, d, v) && k == ValuePrefix(v) + TimeKey(e) && Asked(st, q, e)
  {
    hide Less, StartsWith, Start, TreeOf, Matches, TimeKey, IndexedValue, ChooseIndex, ValuePrefix, IdOf;
    IndexKeysProperties(st, q, d, v);
    TreeKeyLeadsBack(st, d, k);
    var e := st.events[IdOf(k)];
    assert d != ByTime;
    MatchUnderValueCarriesIt(e, q, d, v);
    LessAfterPrefix(ValuePrefix(v), TimeKey(e), Start(q));
  }

  /** The index scan lists, in key order, exactly the events asked for that carry the value. */
  lemma IndexListIsWhatCarries(st: Store, q: Query, d: Dim, v: Text)
    requires Indexed(st) && CleanIds(st) && ChooseIndex(q) == Some((d, v))
    ensures InKeyOrder(IndexList(st, q, d, v))
    ensures forall e :: e in IndexList(st, q, d, v) <==> Asked(st, q, e) && Carries(e, d, v)
  {
    hide Less, StartsWith, Start, TreeOf, Matches, TimeKey, IndexedValue, ChooseIndex, IdOf, Indexed, Carries;
    assert st.trees.Keys == DIMS by { TreesAreSorted(st, d); }
    var ks := IndexKeys(st, q, d, v);
    IndexKeysProperties(st, q, d, v);
    PickedMembers(st.events, ks, q);
    forall i | 0 <= i < |ks| && Picks(st.events, ks[i], q)
      ensures ks[i] == ValuePrefix(v) + TimeKey(st.events[IdOf(ks[i])])
    {
      assert ks[i] in ks;
      PickedIndexKey(st, q, d, v, ks[i]);
    }
    PickedInOrder(st.events, ks, q, ValuePrefix(v));
    forall e ensures e in IndexList(st, q, d, v) <==> Asked(st, q, e) && Carries(e, d, v) {
      if PickedFrom(st.events, ks, q, e) {
        var i :| 0 <= i < |ks| && PickedAt(st.events, ks[i], q, e);
        assert ks[i] in ks;
        PickedIndexKey(st, q, d, v, ks[i]);
      }
      if Asked(st, q, e) && Carries(e, d, v) {
        CarrierIsListed(st, q, d, v, e);
        var i :| 0 <= i < |ks| && ks[i] == DimKey(v, e);
        assert PickedAt(st.events, ks[i], q, e);
      }
    }
  }

  lemma CarrierIsListed(st: Store, q: Query, d: Dim, v: Text, e: Event)
    requires Indexed(st) && CleanIds(st) && ChooseIndex(q) == Some((d, v)) && Asked(st, q, e) && Carries(e, d, v)
    ensures DimKey(v, e) in IndexKeys(st, q, d, v) && IdOf(DimKey(v, e)) == e.id
  {
    hide Less, StartsWith, Start, TreeOf, Matches, TimeKey, IdOf;
    assert d != ByTime;
    assert KeyIn(e, d) == Some(DimKey(v, e));
    EventIsInTree(st, e, d);
    KeyLeadsBack(e, d);
    IndexKeysProperties(st, q, d, v);
    LessAfterPrefix(ValuePrefix(v), TimeKey(e), Start(q));
    StartsWithIsPrefix(DimKey(v, e), ValuePrefix(v));
  }

  // ---------------------------------------------------------------- the two paths agree

  function Carriers(es: seq<Event>, d: Dim, v: Text): seq<Event> {
    if es == [] then [] else (if Carries(es[0], d, v) then [es[0]] else []) + Carriers(es[1..], d, v)
  }

  lemma {:induction false} CarriersProperties(es: seq<Event>, d: Dim, v: Text)
    requires InKeyOrder(es)
    ensures InKeyOrder(Carriers(es, d, v))
    ensures forall e :: e in Carriers(es, d, v) <==> e in es && Carries(e, d, v)
  {
    hide Less, TimeKey, Carries;
    if es != [] {
      CarriersProperties(es[1..], d, v);
      assert es == [es[0]] + es[1..];
      var tail, out := Carriers(es[1..], d, v), Carriers(es, d, v);
      if Carries(es[0], d, v) {
        forall j | 0 <= j < |tail| ensures Less(TimeKey(es[0]), TimeKey(tail[j])) {
          assert tail[j] in es[1..];
          var m :| 0 <= m < |es[1..]| && es[1..][m] == tail[j];
          assert es[m + 1] == tail[j];
        }
        assert forall j :: 0 < j < |out| ==> out[j] == tail[j - 1];
      }
    }
  }

  /** Before the limit, the index path lists the time scan without the events that do not carry the value exactly. */
  lemma IndexListIsFilteredScan(st: Store, q: Query, d: Dim, v: Text)
    requires Indexed(st) && CleanIds(st) && ChooseIndex(q) == Some((d, v))
    ensures IndexList(st, q, d, v) == Carriers(ScanList(st, q), d, v)
  {
    hide Less, TimeKey, Carries, Asked, Indexed, ChooseIndex;
    assert st.trees.Keys == DIMS by { TreesAreSorted(st, d); }
    ScanListIsWhatIsAsked(st, q);
    IndexListIsWhatCarries(st, q, d, v);
    CarriersProperties(ScanList(st, q), d, v);
    OrderedUnique(IndexList(st, q, d, v), Carriers(ScanList(st, q), d, v));
  }

  lemma TakeCons(x: Event, xs: seq<Event>, n: nat)
    requires n > 0
    ensures Take([x] + xs, n) == [x] + Take(xs, n - 1)
  {
  }

  ghost predicate FirstCarry(es: seq<Event>, d: Dim, v: Text, n: nat) {
    forall i :: 0 <= i < |Take(es, n)| ==> Carries(es[i], d, v)
  }

  lemma FirstCarryCons(es: seq<Event>, d: Dim, v: Text, n: nat)
    requires es != [] && n > 0
    ensures FirstCarry(es, d, v, n) <==> Carries(es[0], d, v) && FirstCarry(es[1..], d, v, n - 1)
  {
    hide Carries;
    if FirstCarry(es, d, v, n) {
      forall i | 0 <= i < |Take(es[1..], n - 1)| ensures Carries(es[1..][i], d, v) { assert es[1..][i] == es[i + 1]; }
    }
    if Carries(es[0], d, v) && FirstCarry(es[1..], d, v, n - 1) {
      forall i | 0 <= i < |Take(es, n)| ensures Carries(es[i], d, v) {
        if i > 0 { assert es[i] == es[1..][i - 1]; }
      }
    }
  }

  lemma SameTail(x: Event, xs: seq<Event>, ys: seq<Event>)
    ensures [x] + xs == [x] + ys <==> xs == ys
  {
    assert xs == ([x] + xs)[1..] && ys == ([x] + ys)[1..];
  }

  /** Filtering leaves the first `n` alone exactly when all of them pass. */
  lemma {:induction false} CarriersTake(es: seq<Event>, d: Dim, v: Text, n: nat)
    ensures Take(Carriers(es, d, v), n) == Take(es, n) <==> FirstCarry(es, d, v, n)
  {
    hide Carries;
    if es == [] || n == 0 {
      assert Take(es, n) == [] && Take(Carriers(es, d, v), n) == [];
    } else {
      var x, more := es[0], es[1..];
      CarriersTake(more, d, v, n - 1);
      FirstCarryCons(es, d, v, n);
      assert es == [x] + more;
      if Carries(x, d, v) {
        assert Carriers(es, d, v) == [x] + Carriers(more, d, v);
        hide Take, Carriers, FirstCarry;
        TakeCons(x, more, n);
        TakeCons(x, Carriers(more, d, v), n);
        SameTail(x, Take(Carriers(more, d, v), n - 1), Take(more, n - 1));
      } else {
        CarriersAllCarry(es, d, v);
        if Take(Carriers(es, d, v), n) == Take(es, n) {
          HeadOfTake(Carriers(es, d, v), es, n);
          assert false;
        }
      }
    }
  }

  lemma HeadOfTake(xs: seq<Event>, ys: seq<Event>, n: nat)
    requires ys != [] && n > 0 && Take(xs, n) == Take(ys, n)
    ensures xs != [] && xs[0] == ys[0]
  {
    assert Take(ys, n)[0] == ys[0];
  }

  lemma {:induction false} CarriersAllCarry(es: seq<Event>, d: Dim, v: Text)
    ensures forall i :: 0 <= i < |Carriers(es, d, v)| ==> Carries(Carriers(es, d, v)[i], d, v)
  {
    hide Carries;
    if es != [] { CarriersAllCarry(es[1..], d, v); }
  }

  /** The two paths return the same list exactly when every event in the scan's answer carries the value exactly. */
  lemma PathsAgreeExactly(st: Store, q: Query, d: Dim, v: Text)
    requires Indexed(st) && CleanIds(st) && ChooseIndex(q) == Some((d, v))
    ensures RunQuery(st, q) == Take(ScanList(st, q), Limit(q))
       <==> forall i :: 0 <= i < |Take(ScanList(st, q), Limit(q))| ==> Carries(ScanList(st, q)[i], d, v)
  {
    hide Less, TimeKey, Carries, Indexed, ChooseIndex, ScanList, IndexList, Limit;
    assert st.trees.Keys == DIMS by { TreesAreSorted(st, d); }
    IndexListIsFilteredScan(st, q, d, v);
    CarriersTake(ScanList(st, q), d, v, Limit(q));
  }

  /** Stages and decisions are stored in upper case. */
  ghost predicate StoredUpper(st: Store) {
    forall id :: id in st.events ==>
      EventUpper(st.events[id])
  }

  predicate EventUpper(e: Event) {
    OrEmpty(e.stage) == Upper(OrEmpty(e.stage)) && OrEmpty(e.decision) == Upper(OrEmpty(e.decision))
  }

  predicate NonEmptyFilters(q: Query) {
    && (q.stage.Some? ==> q.stage.value != [])
    && (q.decision.Some? ==> q.decision.value != [])
    && (q.chipType.Some? ==> q.chipType.value != [])
  }

  /** With upper-case stages and decisions and non-empty filters, the index never changes an answer. */
  lemma PathsAgree(st: Store, q: Query)
    requires Indexed(st) && CleanIds(st) && StoredUpper(st) && NonEmptyFilters(q)
    ensures RunQuery(st, q) == Take(ScanList(st, q), Limit(q))
  {
    hide Less, TimeKey, Indexed, ScanList, IndexList, Limit, MatchesGlob;
    TreesAreSorted(st, ByTime);
    if ChooseIndex(q).Some? {
      var (d, v) := ChooseIndex(q).value;
      AllCarry(st, q, d, v);
      CarriersOfAll(ScanList(st, q), d, v);
      IndexListIsFilteredScan(st, q, d, v);
    }
  }

  /** Every query that uses an index lists by it what the time scan lists, before the limit. */
  ghost predicate IndexesAgree(st: Store)
    requires st.trees.Keys == DIMS
  {
    forall q: Query ::
      NonEmptyFilters(q) && ChooseIndex(q).Some? ==>
        IndexList(st, q, ChooseIndex(q).value.0, ChooseIndex(q).value.1) == ScanList(st, q)
  }

  lemma AllCarry(st: Store, q: Query, d: Dim, v: Text)
    requires Indexed(st) && CleanIds(st) && StoredUpper(st) && NonEmptyFilters(q) && ChooseIndex(q) == Some((d, v))
    ensures forall e :: e in ScanList(st, q) ==> Carries(e, d, v)
  {
    hide Less, TimeKey, Indexed, ScanList, MatchesGlob;
    TreesAreSorted(st, ByTime);
    ScanListIsWhatIsAsked(st, q);
    forall e | e in ScanList(st, q) ensures Carries(e, d, v) {
      assert Asked(st, q, e) && EventUpper(st.events[e.id]);
      GlobIsEquality(OrEmpty(e.chipType), if STAR !in v then v else []);
    }
  }

  lemma {:induction false} CarriersOfAll(es: seq<Event>, d: Dim, v: Text)
    requires forall e :: e in es ==> Carries(e, d, v)
    ensures Carriers(es, d, v) == es
  {
    hide Carries;
    if es != [] { CarriersOfAll(es[1..], d, v); }
  }

  /** A query that finds the event by the time scan and not by an index. */
  function Probe(e: Event): Query {
    if OrEmpty(e.stage) != Upper(OrEmpty(e.stage))
    then Query(None, Some(Upper(OrEmpty(e.stage))), None, None, None, None, Some(e.when), None)
    else Query(None, None, Some(Upper(OrEmpty(e.decision))), None, None, None, Some(e.when), None)
  }

  lemma UpperTwice(s: Text)
    ensures Upper(Upper(s)) == Upper(s)
  {
  }

  lemma ProbeFindsIt(st: Store, e: Event)
    requires Indexed(st) && CleanIds(st) && e.id in st.events && st.events[e.id] == e && !EventUpper(e)
    ensures !IndexesAgree(st)
  {
    hide Less, Indexed, ScanList, IndexList, Padded;
    TreesAreSorted(st, ByTime);
    var q := Probe(e);
    UpperTwice(OrEmpty(e.stage));
    UpperTwice(OrEmpty(e.decision));
    assert ChooseIndex(q).Some? && NonEmptyFilters(q);
    var (d, v) := ChooseIndex(q).value;
    assert !Carries(e, d, v);
    assert !Less(TimeKey(e), Start(q)) by {
      LessAfterPrefix(Padded(e.when) + [SEP], e.id, []);
      assert TimeKey(e) == (Padded(e.when) + [SEP]) + e.id && Start(q) == (Padded(e.when) + [SEP]) + [];
      EmptyIsLeast(e.id);
    }
    assert Asked(st, q, e);
    ScanListIsWhatIsAsked(st, q);
    IndexListIsWhatCarries(st, q, d, v);
  }

  lemma EmptyIsLeast(s: Text)
    ensures !Less(s, [])
  {
  }

  /** Index and scan agree for all queries exactly when stages and decisions are stored in upper case. */
  lemma IndexesAgreeExactlyWhenUpper(st: Store)
    requires Indexed(st) && CleanIds(st)
    ensures IndexesAgree(st) <==> StoredUpper(st)
  {
    hide Indexed, ScanList, IndexList, Carriers, Carries, EventUpper, ChooseIndex;
    TreesAreSorted(st, ByTime);
    if StoredUpper(st) {
      forall q: Query | NonEmptyFilters(q) && ChooseIndex(q).Some?
        ensures IndexList(st, q, ChooseIndex(q).value.0, ChooseIndex(q).value.1) == ScanList(st, q)
      {
        var (d, v) := ChooseIndex(q).value;
        AllCarry(st, q, d, v);
        CarriersOfAll(ScanList(st, q), d, v);
        IndexListIsFilteredScan(st, q, d, v);
      }
    } else {
      var id :| id in st.events && !EventUpper(st.events[id]);
      assert st.events[id].id == id by { IdsAreKeys(st, id); }
      ProbeFindsIt(st, st.events[id]);
    }
  }

  // With empty filters allowed as well:

  /** The event names its stage, decision and chip type, the first two in upper case. */
  predicate FullyNamed(e: Event) {
    e.stage.Some? && e.decision.Some? && e.chipType.Some? && EventUpper(e)
  }

  ghost predicate AllFullyNamed(st: Store) {
    forall id :: id in st.events ==> FullyNamed(st.events[id])
  }

  ghost predicate IndexesAlwaysAgree(st: Store)
    requires st.trees.Keys == DIMS
  {
    forall q: Query ::
      ChooseIndex(q).Some? ==> IndexList(st, q, ChooseIndex(q).value.0, ChooseIndex(q).value.1) == ScanList(st, q)
  }

  lemma NamedCarry(st: Store, q: Query, d: Dim, v: Text)
    requires Indexed(st) && CleanIds(st) && AllFullyNamed(st) && ChooseIndex(q) == Some((d, v))
    ensures forall e :: e in ScanList(st, q) ==> Carries(e, d, v)
  {
    hide Less, TimeKey, Indexed, ScanList, MatchesGlob;
    TreesAreSorted(st, ByTime);
    ScanListIsWhatIsAsked(st, q);
    forall e | e in ScanList(st, q) ensures Carries(e, d, v) {
      assert Asked(st, q, e) && FullyNamed(st.events[e.id]);
      GlobIsEquality(OrEmpty(e.chipType), if STAR !in v then v else []);
    }
  }

  /** A query that finds an event with a gap by the time scan and not by an index. */
  function GapProbe(e: Event): Query {
    if e.stage.None? then Query(None, Some([]), None, None, None, None, Some(e.when), None)
    else if e.decision.None? then Query(None, None, Some([]), None, None, None, Some(e.when), None)
    else if e.chipType.None? then Query(None, None, None, None, Some([]), None, Some(e.when), None)
    else Probe(e)
  }

  lemma GapProbeFindsIt(st: Store, e: Event)
    requires Indexed(st) && CleanIds(st) && e.id in st.events && st.events[e.id] == e && !FullyNamed(e)
    ensures !IndexesAlwaysAgree(st)
  {
    hide Less, Indexed, ScanList, IndexList, Padded, MatchesGlob;
    TreesAreSorted(st, ByTime);
    var q := GapProbe(e);
    UpperTwice(OrEmpty(e.stage));
    UpperTwice(OrEmpty(e.decision));
    GlobIsEquality([], []);
    var (d, v) := ChooseIndex(q).value;
    assert !Carries(e, d, v);
    assert !Less(TimeKey(e), Start(q)) by {
      LessAfterPrefix(Padded(e.when) + [SEP], e.id, []);
      assert TimeKey(e) == (Padded(e.when) + [SEP]) + e.id && Start(q) == (Padded(e.when) + [SEP]) + [];
      EmptyIsLeast(e.id);
    }
    assert Asked(st, q, e);
    ScanListIsWhatIsAsked(st, q);
    IndexListIsWhatCarries(st, q, d, v);
  }

  /** For all queries, empty filters included, index and scan agree exactly when every event is fully named. */
  lemma IndexesAlwaysAgreeExactly(st: Store)
    requires Indexed(st) && CleanIds(st)
    ensures IndexesAlwaysAgree(st) <==> AllFullyNamed(st)
  {
    hide Indexed, ScanList, IndexList, Carriers, Carries, FullyNamed, ChooseIndex;
    TreesAreSorted(st, ByTime);
    if AllFullyNamed(st) {
      forall q: Query | ChooseIndex(q).Some?
        ensures IndexList(st, q, ChooseIndex(q).value.0, ChooseIndex(q).value.1) == ScanList(st, q)
      {
        var (d, v) := ChooseIndex(q).value;
        NamedCarry(st, q, d, v);
        CarriersOfAll(ScanList(st, q), d, v);
        IndexListIsFilteredScan(st, q, d, v);
      }
    } else {
      var id :| id in st.events && !FullyNamed(st.events[id]);
      assert st.events[id].id == id by { IdsAreKeys(st, id); }
      GapProbeFindsIt(st, st.events[id]);
    }
  }

  lemma IdsAreKeys(st: Store, id: Text)
    requires Indexed(st) && id in st.events
    ensures st.events[id].id == id
  {
    hide TreeOf;
  }

  /** A lower-case stage is found by the time scan and missed by the index. */
  lemma LowerCaseStageIsMissed(e: Event, q: Query)
    requires SEP !in e.id && e.stage == Some([119, 97]) && 0 <= e.when
    requires q == Query(None, Some([87, 65]), None, None, None, None, None, None)
    ensures RunQuery(Append(EMPTY, e), q) == [] && ScanList(Append(EMPTY, e), q) == [e]
  {
    hide Less, TimeKey, TreeOf;
    var st := Append(EMPTY, e);
    assert Run([]) == EMPTY;
    RunsStayIndexed([]);
    AppendKeepsIndexes(EMPTY, e);
    assert Upper([87, 65]) == [87, 65] && Upper([119, 97]) == [87, 65];
    ScanListIsWhatIsAsked(st, q);
    StartIsFirst(e, q);
    assert Asked(st, q, e);
    assert InKeyOrder([e]);
    OrderedUnique(ScanList(st, q), [e]);
    IndexListIsFilteredScan(st, q, ByStage, [87, 65]);
    assert Carriers([e], ByStage, [87, 65]) == [];
  }

  lemma StartIsFirst(e: Event, q: Query)
    requires 0 <= e.when && q.since == None
    ensures !Less(TimeKey(e), Start(q))
  {
    NotBeforeSince(e, q);
  }

  // ---------------------------------------------------------------- chronological order

  ghost predicate Earlier(a: Event, b: Event) {
    a.when < b.when || (a.when == b.when && Less(a.id, b.id))
  }

  /** The padded numbers of all signs: negative ones come first, and among themselves run backwards. */
  predicate PaddedBefore(a: int64, b: int64) {
    if a < 0 && b < 0 then b < a else a < b
  }

  lemma PaddedCompares(a: int64, b: int64)
    ensures Less(Padded(a), Padded(b)) <==> PaddedBefore(a, b)
    ensures Padded(a) == Padded(b) <==> a == b
  {
    hide Less, Padded;
    if Padded(a) == Padded(b) { PaddedInjective(a, b); }
    if a >= 0 && b >= 0 {
      PaddedOrder(a, b);
    } else if a < 0 && b < 0 {
      PaddedReversesNegatives(a, b);
    } else if a < 0 {
      PaddedNegativeFirst(a, b);
    } else {
      PaddedNegativeFirst(b, a);
    }
  }

  lemma KeysCompare(a: Event, b: Event)
    ensures Less(TimeKey(a), TimeKey(b)) <==> PaddedBefore(a.when, b.when) || (a.when == b.when && Less(a.id, b.id))
  {
    hide Less, Padded;
    PaddedCompares(a.when, b.when);
    if a.when == b.when {
      LessAfterPrefix(Padded(a.when), [SEP] + a.id, [SEP] + b.id);
      LessAfterPrefix([SEP], a.id, b.id);
    } else {
      LessByBlock(Padded(a.when), [SEP] + a.id, Padded(b.when), [SEP] + b.id);
    }
  }

  /** Two different times before 1970. */
  predicate BothBefore1970(a: Event, b: Event) {
    a.when < 0 && b.when < 0 && a.when != b.when
  }

  /** The order of two keys is the order by time and then id exactly unless both times are before 1970 and differ. */
  lemma KeyOrderIsTimeOrder(a: Event, b: Event)
    ensures (Less(TimeKey(a), TimeKey(b)) <==> Earlier(a, b)) <==> !BothBefore1970(a, b)
  {
    hide Less, TimeKey;
    KeysCompare(a, b);
  }

  function Since(q: Query): int64 {
    if q.since.Some? then q.since.value else 0
  }

  /** What lies behind the start key: from `since` on, or, when that is before 1970, also everything earlier. */
  predicate BehindStart(when: int64, since: int64) {
    if since >= 0 then when >= since else when >= 0 || when <= since
  }

  lemma NotBeforeSince(e: Event, q: Query)
    ensures !Less(TimeKey(e), Start(q)) <==> BehindStart(e.when, Since(q))
  {
    hide Padded, Less;
    PaddedCompares(e.when, Since(q));
    if e.when == Since(q) {
      LessAfterPrefix(Padded(e.when) + [SEP], e.id, []);
      assert TimeKey(e) == (Padded(e.when) + [SEP]) + e.id && Start(q) == (Padded(e.when) + [SEP]) + [];
      EmptyIsLeast(e.id);
    } else {
      LessByBlock(Padded(e.when), [SEP] + e.id, Padded(Since(q)), [SEP]);
    }
  }

  /** A stored event that passes every filter of the query. */
  ghost predicate Wanted(st: Store, q: Query, e: Event) {
    e.id in st.events && st.events[e.id] == e && Answers(e, q)
  }

  /** The time scan lists exactly the matching events behind the start key. */
  lemma ScanListsBehindStart(st: Store, q: Query)
    requires Indexed(st) && CleanIds(st)
    ensures forall e :: e in ScanList(st, q) <==> Wanted(st, q, e) && BehindStart(e.when, Since(q))
  {
    hide Less, TimeKey, Indexed, ScanList, Matches, Answers, Start, BehindStart;
    TreesAreSorted(st, ByTime);
    ScanListIsWhatIsAsked(st, q);
    forall e: Event ensures e in ScanList(st, q) <==> Wanted(st, q, e) && BehindStart(e.when, Since(q)) {
      NotBeforeSince(e, q);
      MatchesExactly(e, q);
    }
  }

  predicate Sets(q: Query, d: Dim) {
    match d
    case ByTime => false
    case ByWorld => q.world.Some?
    case ByStage => q.stage.Some?
    case ByType => q.chipType.Some?
    case ByDecision => q.decision.Some?
    case ByCode => q.code.Some?
    case ByActor => q.actor.Some?
  }

  /** The query with one of its filters only; of time only, with none. */
  function Only(q: Query, d: Dim): Query {
    Query(if d == ByWorld then q.world else None, if d == ByStage then q.stage else None,
          if d == ByDecision then q.decision else None, if d == ByCode then q.code else None,
          if d == ByType then q.chipType else None, if d == ByActor then q.actor else None, q.since, q.limit)
  }

  lemma OnlyAsksThat(e: Event, q: Query, d: Dim)
    ensures Answers(e, Only(q, d)) <==> Passes(e, q, d)
  {
    if Passes(e, q, d) {
      forall d' ensures Passes(e, Only(q, d), d') {}
    }
    assert Passes(e, Only(q, d), d) <==> Passes(e, q, d);
  }

  /** Filters add up: what a query lists is what each of its filters lists alone. */
  lemma FiltersAddUp(st: Store, q: Query, e: Event)
    requires Indexed(st) && CleanIds(st)
    ensures e in ScanList(st, q)
       <==> e in ScanList(st, Only(q, ByTime)) && forall d :: Sets(q, d) ==> e in ScanList(st, Only(q, d))
  {
    hide Indexed, ScanList, Passes, BehindStart;
    TreesAreSorted(st, ByTime);
    ScanListsBehindStart(st, q);
    forall d ensures e in ScanList(st, Only(q, d)) <==>
                     e.id in st.events && st.events[e.id] == e && Passes(e, q, d) && BehindStart(e.when, Since(q))
    {
      ScanListsBehindStart(st, Only(q, d));
      OnlyAsksThat(e, q, d);
    }
    forall d | !Sets(q, d) ensures Passes(e, q, d) { UnsetPasses(e, q, d); }
  }

  lemma UnsetPasses(e: Event, q: Query, d: Dim)
    requires !Sets(q, d)
    ensures Passes(e, q, d)
  {
  }

  ghost predicate Chronological(es: seq<Event>) {
    forall i, j :: 0 <= i < j < |es| ==> Earlier(es[i], es[j])
  }

  /** The scan is in order of time and id exactly when it lists no two different times before 1970. */
  lemma ScanOrderExactly(st: Store, q: Query)
    requires Indexed(st) && CleanIds(st)
    ensures Chronological(ScanList(st, q)) <==>
            forall a, b :: a in ScanList(st, q) && b in ScanList(st, q) ==> !BothBefore1970(a, b)
  {
    hide Less, TimeKey, Indexed, ScanList, Earlier, Matches, Start;
    TreesAreSorted(st, ByTime);
    var out := ScanList(st, q);
    ScanListIsWhatIsAsked(st, q);
    forall i, j | 0 <= i < j < |out| ensures Earlier(out[i], out[j]) <==> !BothBefore1970(out[i], out[j]) {
      KeyOrderIsTimeOrder(out[i], out[j]);
    }
    if Chronological(out) {
      forall a, b | a in out && b in out ensures !BothBefore1970(a, b) {
        var i :| 0 <= i < |out| && out[i] == a;
        var j :| 0 <= j < |out| && out[j] == b;
      }
    }
  }

  /** The scan lists exactly the matching events from `since` on. */
  ghost predicate ListsFromSince(st: Store, q: Query, es: seq<Event>) {
    forall e :: e in es <==> Wanted(st, q, e) && e.when >= Since(q)
  }

  /**
    It does exactly when `since` is not before 1970, or every matching event is at `since` or not before 1970:
    otherwise it leaves out what lies between `since` and 1970 and lists what lies before `since`.
   */
  lemma ScanListsFromSinceExactly(st: Store, q: Query)
    requires Indexed(st) && CleanIds(st)
    ensures ListsFromSince(st, q, ScanList(st, q)) <==>
            Since(q) >= 0 || forall e :: Wanted(st, q, e) ==> e.when >= 0 || e.when == Since(q)
  {
    hide Indexed, ScanList, Wanted;
    TreesAreSorted(st, ByTime);
    ScanListsBehindStart(st, q);
  }

  /** From 1970 on the time scan lists exactly the matching events from `since` on, by time and then id. */
  lemma ScanIsChronological(st: Store, q: Query)
    requires Indexed(st) && CleanIds(st) && Since(q) >= 0
    ensures Chronological(ScanList(st, q)) && ListsFromSince(st, q, ScanList(st, q))
  {
    hide Indexed, ScanList, Wanted, Chronological;
    TreesAreSorted(st, ByTime);
    ScanListsFromSinceExactly(st, q);
    ScanOrderExactly(st, q);
  }

  /**
    After any run of appends and rebuilds a query answers, by whichever index it picks, with the matching
    events from `since` on in order of time and id, cut to the limit.
   */
  lemma QueryAfterAnyRun(ops: seq<Op>, q: Query)
    requires CleanIds(Run(ops)) && StoredUpper(Run(ops)) && NonEmptyFilters(q) && Since(q) >= 0
    ensures exists es ::
              RunQuery(Run(ops), q) == Take(es, Limit(q)) && Chronological(es) && ListsFromSince(Run(ops), q, es)
  {
    hide Indexed, ScanList, RunQuery, Chronological, ListsFromSince, StoredUpper, NonEmptyFilters, Run, Take;
    RunsStayIndexed(ops);
    PathsAgree(Run(ops), q);
    ScanIsChronological(Run(ops), q);
  }

  /** With a `since` before 1970 the scan drops the later of these two events and lists the earlier one. */
  lemma NegativeSinceListsTheWrongSide(e: Event, f: Event, q: Query)
    requires SEP !in e.id && SEP !in f.id && e.id != f.id && e.when == -5 && f.when == -2000
    requires q == Query(None, None, None, None, None, None, Some(-1000), None)
    ensures RunQuery(Append(Append(EMPTY, e), f), q) == [f]
  {
    hide Less, TimeKey, TreeOf, ScanList, WithEvent;
    assert Run([]) == EMPTY;
    RunsStayIndexed([]);
    AppendKeepsIndexes(EMPTY, e);
    var st := Append(Append(EMPTY, e), f);
    AppendKeepsIndexes(Append(EMPTY, e), f);
    ScanListsBehindStart(st, q);
    ScanListIsWhatIsAsked(st, q);
    assert InKeyOrder([f]);
    assert Wanted(st, q, f);
    OrderedUnique(ScanList(st, q), [f]);
  }

  /** Before 1970 the keys run backwards: of two negative times the later comes first. */
  lemma NegativeTimesRunBackwards(a: Event, b: Event)
    requires a.when < b.when < 0
    ensures Less(TimeKey(b), TimeKey(a))
  {
    hide Less, TimeKey;
    KeysCompare(b, a);
  }
}
