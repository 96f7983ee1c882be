/**
  The chip store: chips by content id, and three secondary indexes that only narrow down where to look.
  An index is either a table of id sets (in memory) or a set of NUL-joined keys (in sled).
 */
module ChipStore {
  import opened Prelude

  type Cid = string

  /** `createdAt` stands for the timestamp string, of which only the order is used. */
  datatype Chip = Chip(cid: Cid, kind: string, tags: seq<string>, executor: string, createdAt: int, fields: map<string, string>, rest: string)

  datatype Query = Query(
    kind: Option<string>,
    tags: seq<string>,
    after: Option<int>,
    before: Option<int>,
    executor: Option<string>,
    limit: Option<nat>,
    offset: Option<nat>)

  const NUL: char := '\0'

  // ---------------------------------------------------------------- one index

  datatype Index = Hashed(sets: map<string, set<Cid>>) | Joined(keys: set<string>)

  /** `index_composite_key`. */
  function Join(value: string, cid: Cid): string {
    value + [NUL] + cid
  }

  predicate HasPrefix(s: string, p: string) {
    |p| <= |s| && s[..|p|] == p
  }

  function Empty(ix: Index): Index {
    if ix.Hashed? then Hashed(map[]) else Joined({})
  }

  function Read(ix: Index, value: string): set<Cid> {
    match ix
    case Hashed(sets) => if value in sets then sets[value] else {}
    case Joined(keys) => set k | k in keys && HasPrefix(k, value + [NUL]) :: k[|value| + 1..]
  }

  function Add(ix: Index, value: string, cid: Cid): Index {
    match ix
    case Hashed(sets) => Hashed(sets[value := (if value in sets then sets[value] else {}) + {cid}])
    case Joined(keys) => Joined(keys + {Join(value, cid)})
  }

  /** An entry that becomes empty is dropped. */
  function Remove(ix: Index, value: string, cid: Cid): Index {
    match ix
    case Hashed(sets) =>
      if value !in sets then ix
      else if sets[value] - {cid} == {} then Hashed(sets - {value})
      else Hashed(sets[value := sets[value] - {cid}])
    case Joined(keys) => Joined(keys - {Join(value, cid)})
  }

  predicate NulFree(s: string) {
    NUL !in s
  }

  lemma JoinReads(value: string, cid: Cid)
    ensures HasPrefix(Join(value, cid), value + [NUL]) && Join(value, cid)[|value| + 1..] == cid
  {
  }

  lemma AddReads(ix: Index, value: string, cid: Cid, w: string, x: Cid)
    ensures cid in Read(Add(ix, value, cid), value)
    ensures x in Read(ix, w) ==> x in Read(Add(ix, value, cid), w)
  {
    JoinReads(value, cid);
    if ix.Joined? {
      assert Join(value, cid) in Add(ix, value, cid).keys;
      if x in Read(ix, w) {
        var k :| k in ix.keys && HasPrefix(k, w + [NUL]) && x == k[|w| + 1..];
        assert k in Add(ix, value, cid).keys;
      }
    }
  }

  /** The id ends in a NUL and then the other id. */
  predicate BehindNul(c: Cid, d: Cid) {
    |d| < |c| && c[|c| - |d|..] == d && c[|c| - |d| - 1] == NUL
  }

  /** Neither id is the other one behind a NUL; so it is with NUL-free ids. */
  predicate Apart(c: Cid, d: Cid) {
    !BehindNul(c, d) && !BehindNul(d, c)
  }

  lemma NulFreeIsApart(c: Cid, d: Cid)
    requires NulFree(c) && NulFree(d)
    ensures Apart(c, d)
  {
  }

  lemma LongerValueNeedsNul(v: string, c: Cid, w: string, d: Cid)
    requires Join(v, c) == Join(w, d) && |v| < |w|
    ensures BehindNul(c, d)
  {
    var k := Join(v, c);
    assert k[|w|] == NUL && k[|w|] == c[|w| - |v| - 1];
    assert d == k[|w| + 1..] && c[|c| - |d|..] == k[|k| - |d|..];
  }

  /** With ids apart two keys are joined from the same parts or differ. */
  lemma JoinInjective(v: string, c: Cid, w: string, d: Cid)
    requires Apart(c, d) && Join(v, c) == Join(w, d)
    ensures v == w && c == d
  {
    hide BehindNul;
    if |v| < |w| { LongerValueNeedsNul(v, c, w, d); }
    if |w| < |v| { LongerValueNeedsNul(w, d, v, c); }
    var k := Join(v, c);
    assert v == k[..|v|] && w == k[..|w|] && c == k[|v| + 1..] && d == k[|w| + 1..];
  }

  /** Some two different entries for these ids have one key. */
  ghost predicate KeysCollide(c: Cid, d: Cid) {
    exists v, w :: Join(v, c) == Join(w, d) && (v != w || c != d)
  }

  /** The value under which the shorter id gets the key of the longer one under the empty value. */
  function Clashing(c: Cid, d: Cid): string
    requires BehindNul(c, d)
  {
    [NUL] + c[..|c| - |d| - 1]
  }

  lemma ClashingJoins(c: Cid, d: Cid)
    requires BehindNul(c, d)
    ensures Join(Clashing(c, d), d) == Join("", c) && Clashing(c, d) != ""
  {
    var n := |c| - |d| - 1;
    assert c == c[..n] + [c[n]] + c[n + 1..];
    assert "" + [NUL] + c == [NUL] + c[..n] + [NUL] + d;
  }

  /** Keys for two ids can collide exactly when one id is the other behind a NUL. */
  lemma KeysCollideExactly(c: Cid, d: Cid)
    ensures KeysCollide(c, d) <==> !Apart(c, d)
  {
    hide Join, BehindNul, Clashing;
    if KeysCollide(c, d) {
      var v, w :| Join(v, c) == Join(w, d) && (v != w || c != d);
      if Apart(c, d) { JoinInjective(v, c, w, d); }
    }
    if BehindNul(c, d) {
      ClashingJoins(c, d);
      assert Join("", c) == Join(Clashing(c, d), d);
    } else if BehindNul(d, c) {
      ClashingJoins(d, c);
      assert Join(Clashing(d, c), c) == Join("", d);
    }
  }

  lemma RemoveReads(ix: Index, value: string, cid: Cid, w: string, x: Cid)
    requires Apart(cid, x) && x in Read(ix, w) && (value != w || cid != x)
    ensures x in Read(Remove(ix, value, cid), w)
  {
    hide Apart;
    if ix.Joined? {
      var k :| k in ix.keys && HasPrefix(k, w + [NUL]) && x == k[|w| + 1..];
      assert k == Join(w, x);
      if k == Join(value, cid) { JoinInjective(value, cid, w, x); }
      assert k in Remove(ix, value, cid).keys;
    }
  }

  // ---------------------------------------------------------------- the store

  datatype State = State(chips: map<Cid, Chip>, types: Index, tags: Index, executors: Index)

  function AddTags(ix: Index, tags: seq<string>, cid: Cid): Index {
    if tags == [] then ix else Add(AddTags(ix, tags[..|tags| - 1], cid), tags[|tags| - 1], cid)
  }

  function RemoveTags(ix: Index, tags: seq<string>, cid: Cid): Index {
    if tags == [] then ix else Remove(RemoveTags(ix, tags[..|tags| - 1], cid), tags[|tags| - 1], cid)
  }

  function IndexChip(st: State, chip: Chip): State {
    st.(types := Add(st.types, chip.kind, chip.cid),
        tags := AddTags(st.tags, chip.tags, chip.cid),
        executors := Add(st.executors, chip.executor, chip.cid))
  }

  function UnindexChip(st: State, chip: Chip): State {
    st.(types := Remove(st.types, chip.kind, chip.cid),
        tags := RemoveTags(st.tags, chip.tags, chip.cid),
        executors := Remove(st.executors, chip.executor, chip.cid))
  }

  /** `put_chip`: an overwritten chip's old entries stay behind. */
  function Put(st: State, chip: Chip): State {
    IndexChip(st.(chips := st.chips[chip.cid := chip]), chip)
  }

  /** `delete_chip`. */
  function Delete(st: State, cid: Cid): State {
    if cid !in st.chips then st else UnindexChip(st.(chips := st.chips - {cid}), st.chips[cid])
  }

  function Cleared(st: State): State {
    st.(types := Empty(st.types), tags := Empty(st.tags), executors := Empty(st.executors))
  }

  /** Index these chips of the store, one after another. */
  ghost function Reindex(st: State, cids: set<Cid>): (r: State)
    requires cids <= st.chips.Keys
    ensures r.chips == st.chips
  {
    if cids == {} then Cleared(st)
    else
      var cid :| cid in cids;
      IndexChip(Reindex(st, cids - {cid}), st.chips[cid])
  }

  /** `rebuild_indexes`. */
  ghost function Rebuild(st: State): State {
    Reindex(st, st.chips.Keys)
  }

  // ---------------------------------------------------------------- queries

  predicate Matches(chip: Chip, q: Query) {
    && (q.kind.Some? ==> chip.kind == q.kind.value)
    && (forall tag :: tag in q.tags ==> tag in chip.tags)
    && (q.after.Some? ==> chip.createdAt > q.after.value)
    && (q.before.Some? ==> chip.createdAt < q.before.value)
    && (q.executor.Some? ==> chip.executor == q.executor.value)
  }

  function Meet(current: Option<set<Cid>>, next: set<Cid>): Option<set<Cid>> {
    match current
    case None => Some(next)
    case Some(s) => Some(s * next)
  }

  function MeetTags(current: Option<set<Cid>>, ix: Index, tags: seq<string>): Option<set<Cid>> {
    if tags == [] then current else Meet(MeetTags(current, ix, tags[..|tags| - 1]), Read(ix, tags[|tags| - 1]))
  }

  /** `candidate_cids_from_indexes`: nothing when no index applies. */
  function Candidates(st: State, q: Query): Option<set<Cid>> {
    var byType := if q.kind.Some? then Meet(None, Read(st.types, q.kind.value)) else None;
    var byTags := MeetTags(byType, st.tags, q.tags);
    if q.executor.Some? then Meet(byTags, Read(st.executors, q.executor.value)) else byTags
  }

  /** The chips that the indexed query collects. */
  function Found(st: State, q: Query): set<Chip> {
    match Candidates(st, q)
    case None => FullScan(st.chips, q)
    case Some(cids) => set cid | cid in cids && cid in st.chips && Matches(st.chips[cid], q) :: st.chips[cid]
  }

  function FullScan(chips: map<Cid, Chip>, q: Query): set<Chip> {
    set cid | cid in chips && Matches(chips[cid], q) :: chips[cid]
  }

  /** A scan finds the stored chips of the kind and executor asked for, with every tag, strictly between the two times. */
  lemma ScanMeans(chips: map<Cid, Chip>, q: Query, x: Chip)
    ensures x in FullScan(chips, q)
       <==> && x in chips.Values
            && (q.kind.None? || q.kind == Some(x.kind)) && (q.executor.None? || q.executor == Some(x.executor))
            && (forall i :: 0 <= i < |q.tags| ==> q.tags[i] in x.tags)
            && (q.after.None? || q.after.value < x.createdAt) && (q.before.None? || x.createdAt < q.before.value)
  {
    if x in chips.Values && (forall i :: 0 <= i < |q.tags| ==> q.tags[i] in x.tags) {
      var c :| c in chips && chips[c] == x;
      assert forall tag :: tag in q.tags ==> tag in x.tags;
    }
  }

  lemma JoinedReads(ix: Index, w: string, x: Cid)
    requires ix.Joined?
    ensures x in Read(ix, w) <==> Join(w, x) in ix.keys
  {
    JoinReads(w, x);
    if x in Read(ix, w) {
      var k :| k in ix.keys && HasPrefix(k, w + [NUL]) && x == k[|w| + 1..];
      assert k == Join(w, x);
    }
  }

  /** An index lists what it listed and the new entry, or without the one removed, and nothing else. */
  lemma EntriesExactly(ix: Index, value: string, cid: Cid, w: string, x: Cid)
    requires Apart(cid, x)
    ensures x in Read(Add(ix, value, cid), w) <==> x in Read(ix, w) || (w == value && x == cid)
    ensures x in Read(Remove(ix, value, cid), w) <==> x in Read(ix, w) && !(w == value && x == cid)
    ensures x !in Read(Empty(ix), w)
  {
    hide Apart, HasPrefix, Join;
    if ix.Joined? {
      hide Read;
      JoinedReads(ix, w, x);
      JoinedReads(Add(ix, value, cid), w, x);
      JoinedReads(Remove(ix, value, cid), w, x);
      JoinedReads(Empty(ix), w, x);
      if Join(w, x) == Join(value, cid) { JoinInjective(value, cid, w, x); }
    }
  }

  // ---------------------------------------------------------------- no index loses a chip

  /** Every entry that the chip needs is there. */
  predicate Listed(st: State, chip: Chip) {
    && chip.cid in Read(st.types, chip.kind)
    && (forall i :: 0 <= i < |chip.tags| ==> chip.cid in Read(st.tags, chip.tags[i]))
    && chip.cid in Read(st.executors, chip.executor)
  }

  ghost predicate Complete(st: State) {
    && (forall cid :: cid in st.chips ==> st.chips[cid].cid == cid && Listed(st, st.chips[cid]))
    && AllApart(st.chips.Keys)
  }

  ghost predicate AllApart(cids: set<Cid>) {
    forall c, d :: c in cids && d in cids ==> Apart(c, d)
  }

  lemma {:induction false} AddTagsReads(ix: Index, tags: seq<string>, cid: Cid, w: string, x: Cid)
    ensures forall i :: 0 <= i < |tags| ==> cid in Read(AddTags(ix, tags, cid), tags[i])
    ensures x in Read(ix, w) ==> x in Read(AddTags(ix, tags, cid), w)
  {
    hide Read, Add;
    if tags != [] {
      var before, last := tags[..|tags| - 1], tags[|tags| - 1];
      AddTagsReads(ix, before, cid, w, x);
      var ix' := AddTags(ix, before, cid);
      AddReads(ix', last, cid, w, x);
      forall i | 0 <= i < |tags| ensures cid in Read(AddTags(ix, tags, cid), tags[i]) {
        if i < |before| { assert before[i] == tags[i]; }
        AddReads(ix', last, cid, tags[i], cid);
      }
    }
  }

  lemma {:induction false} RemoveTagsReads(ix: Index, tags: seq<string>, cid: Cid, w: string, x: Cid)
    requires Apart(cid, x) && x in Read(ix, w) && cid != x
    ensures x in Read(RemoveTags(ix, tags, cid), w)
  {
    hide Read, Remove, Apart;
    if tags != [] {
      RemoveTagsReads(ix, tags[..|tags| - 1], cid, w, x);
      RemoveReads(RemoveTags(ix, tags[..|tags| - 1], cid), tags[|tags| - 1], cid, w, x);
    }
  }

  lemma IndexingKeeps(st: State, chip: Chip, other: Chip)
    ensures Listed(IndexChip(st, chip), chip)
    ensures Listed(st, other) ==> Listed(IndexChip(st, chip), other)
  {
    hide Read, Add, AddTags;
    AddReads(st.types, chip.kind, chip.cid, other.kind, other.cid);
    AddReads(st.executors, chip.executor, chip.cid, other.executor, other.cid);
    AddTagsReads(st.tags, chip.tags, chip.cid, "", "");
    if Listed(st, other) {
      forall i | 0 <= i < |other.tags| ensures other.cid in Read(IndexChip(st, chip).tags, other.tags[i]) {
        AddTagsReads(st.tags, chip.tags, chip.cid, other.tags[i], other.cid);
      }
    }
  }

  lemma UnindexingKeeps(st: State, chip: Chip, other: Chip)
    requires Apart(chip.cid, other.cid) && chip.cid != other.cid && Listed(st, other)
    ensures Listed(UnindexChip(st, chip), other)
  {
    hide Read, Remove, RemoveTags, Apart;
    RemoveReads(st.types, chip.kind, chip.cid, other.kind, other.cid);
    RemoveReads(st.executors, chip.executor, chip.cid, other.executor, other.cid);
    forall i | 0 <= i < |other.tags| ensures other.cid in Read(UnindexChip(st, chip).tags, other.tags[i]) {
      RemoveTagsReads(st.tags, chip.tags, chip.cid, other.tags[i], other.cid);
    }
  }

  lemma ListedByIndexes(st: State, st': State, chip: Chip)
    requires Listed(st, chip) && st.types == st'.types && st.tags == st'.tags && st.executors == st'.executors
    ensures Listed(st', chip)
  {
  }

  lemma PutKeepsComplete(st: State, chip: Chip)
    requires Complete(st) && AllApart(st.chips.Keys + {chip.cid})
    ensures Complete(Put(st, chip))
  {
    hide Listed, Apart;
    var st1 := st.(chips := st.chips[chip.cid := chip]);
    forall cid | cid in st1.chips ensures Listed(Put(st, chip), st1.chips[cid]) {
      IndexingKeeps(st1, chip, st1.chips[cid]);
      if cid != chip.cid { ListedByIndexes(st, st1, st.chips[cid]); }
    }
  }

  lemma DeleteKeepsComplete(st: State, cid: Cid)
    requires Complete(st)
    ensures Complete(Delete(st, cid))
  {
    hide Listed, Apart;
    if cid in st.chips {
      var st1 := st.(chips := st.chips - {cid});
      forall c | c in st1.chips ensures Listed(Delete(st, cid), st1.chips[c]) {
        ListedByIndexes(st, st1, st.chips[c]);
        UnindexingKeeps(st1, st.chips[cid], st1.chips[c]);
      }
    }
  }

  /** Whatever the indexes held, after a rebuild none of them misses a chip. */
  lemma {:induction false} ReindexLists(st: State, cids: set<Cid>)
    requires cids <= st.chips.Keys
    ensures forall cid :: cid in cids ==> Listed(Reindex(st, cids), st.chips[cid])
  {
    hide Listed;
    if cids != {} {
      var cid :| cid in cids && Reindex(st, cids) == IndexChip(Reindex(st, cids - {cid}), st.chips[cid]);
      ReindexLists(st, cids - {cid});
      forall c | c in cids ensures Listed(Reindex(st, cids), st.chips[c]) {
        IndexingKeeps(Reindex(st, cids - {cid}), st.chips[cid], st.chips[c]);
      }
    }
  }

  datatype Op = DoPut(chip: Chip) | DoDelete(cid: Cid) | DoRebuild

  ghost function Step(st: State, op: Op): State {
    match op
    case DoPut(chip) => Put(st, chip)
    case DoDelete(cid) => Delete(st, cid)
    case DoRebuild => Rebuild(st)
  }

  ghost function Run(start: State, ops: seq<Op>): State {
    if ops == [] then start else Step(Run(start, ops[..|ops| - 1]), ops[|ops| - 1])
  }

  /** The chips alone, without any index. */
  ghost function PlainRun(ops: seq<Op>): map<Cid, Chip> {
    if ops == [] then map[]
    else
      var chips, op := PlainRun(ops[..|ops| - 1]), ops[|ops| - 1];
      match op
      case DoPut(chip) => chips[chip.cid := chip]
      case DoDelete(cid) => chips - {cid}
      case DoRebuild => chips
  }

  /** The ids that a run ever stores a chip under. */
  ghost function PutIds(ops: seq<Op>): set<Cid> {
    set i | 0 <= i < |ops| && ops[i].DoPut? :: ops[i].chip.cid
  }

  lemma {:induction false} RunsStayComplete(start: State, ops: seq<Op>)
    requires start.chips == map[] && AllApart(PutIds(ops))
    ensures Complete(Run(start, ops)) && Run(start, ops).chips == PlainRun(ops) && PlainRun(ops).Keys <= PutIds(ops)
  {
    hide Complete, Apart, IndexChip, UnindexChip;
    if ops == [] {
      NothingToList(start);
    } else {
      var before, op := ops[..|ops| - 1], ops[|ops| - 1];
      assert PutIds(before) <= PutIds(ops) by {
        forall i | 0 <= i < |before| && before[i].DoPut? ensures before[i].chip.cid in PutIds(ops) { assert ops[i] == before[i]; }
      }
      RunsStayComplete(start, before);
      var st := Run(start, before);
      match op
      case DoPut(chip) =>
        assert chip.cid in PutIds(ops);
        PutKeepsComplete(st, chip);
        PutAndDeleteChips(st, chip, "");
      case DoDelete(cid) =>
        DeleteKeepsComplete(st, cid);
        PutAndDeleteChips(st, Chip("", "", [], "", 0, map[], ""), cid);
      case DoRebuild => RebuildIsComplete(st);
    }
  }

  lemma PutAndDeleteChips(st: State, chip: Chip, cid: Cid)
    ensures Put(st, chip).chips == st.chips[chip.cid := chip]
    ensures Delete(st, cid).chips == st.chips - {cid}
  {
  }

  lemma NothingToList(st: State)
    requires st.chips == map[]
    ensures Complete(st)
  {
  }

  lemma RebuildIsComplete(st: State)
    requires Complete(st)
    ensures Complete(Rebuild(st)) && Rebuild(st).chips == st.chips
  {
    hide Listed, Reindex;
    ReindexLists(st, st.chips.Keys);
  }

  // ---------------------------------------------------------------- indexed queries find what a scan finds

  lemma {:induction false} MeetTagsKeeps(current: Option<set<Cid>>, ix: Index, tags: seq<string>, cid: Cid)
    requires current.Some? ==> cid in current.value
    requires forall i :: 0 <= i < |tags| ==> cid in Read(ix, tags[i])
    ensures var r := MeetTags(current, ix, tags); r.Some? ==> cid in r.value
  {
    hide Read;
    if tags != [] {
      MeetTagsKeeps(current, ix, tags[..|tags| - 1], cid);
    }
  }

  lemma MatchIsCandidate(st: State, q: Query, chip: Chip)
    requires Listed(st, chip) && Matches(chip, q)
    ensures Candidates(st, q).Some? ==> chip.cid in Candidates(st, q).value
  {
    hide Read;
    forall i | 0 <= i < |q.tags| ensures chip.cid in Read(st.tags, q.tags[i]) {
      assert q.tags[i] in chip.tags;
      var j :| 0 <= j < |chip.tags| && chip.tags[j] == q.tags[i];
    }
    var byType := if q.kind.Some? then Meet(None, Read(st.types, q.kind.value)) else None;
    MeetTagsKeeps(byType, st.tags, q.tags, chip.cid);
  }

  /** An indexed query collects exactly the chips that filtering a full scan would. */
  lemma FoundIsFullScan(st: State, q: Query)
    requires Complete(st)
    ensures Found(st, q) == FullScan(st.chips, q)
  {
    hide Candidates, Listed, Apart, Matches;
    if Candidates(st, q).Some? {
      forall cid | cid in st.chips && Matches(st.chips[cid], q) ensures st.chips[cid] in Found(st, q) {
        MatchIsCandidate(st, q, st.chips[cid]);
        assert cid in Candidates(st, q).value;
      }
    }
  }

  /** So for either kind of index, after any puts, overwrites, deletes and rebuilds, queries answer from the plain chips. */
  lemma QueriesAnswerFromChips(start: State, ops: seq<Op>, q: Query)
    requires start.chips == map[] && AllApart(PutIds(ops))
    ensures Found(Run(start, ops), q) == FullScan(PlainRun(ops), q)
  {
    hide Complete, Run, PlainRun, Found, FullScan, AllApart;
    RunsStayComplete(start, ops);
    FoundIsFullScan(Run(start, ops), q);
  }

  const SLED_START: State := State(map[], Joined({}), Joined({}), Joined({}))

  function Kinded(cid: Cid, kind: string): Chip {
    Chip(cid, kind, [], "", 0, map[], "")
  }

  function ByKind(kind: string): Query {
    Query(Some(kind), [], None, None, None, None, None)
  }

  /** Two puts and a delete after which the sled index no longer finds a stored chip. */
  function LosingRun(c: Cid, d: Cid): seq<Op>
    requires BehindNul(c, d)
  {
    [DoPut(Kinded(c, "")), DoPut(Kinded(d, Clashing(c, d))), DoDelete(c)]
  }

  lemma CollidingIdsLoseAChip(c: Cid, d: Cid)
    requires BehindNul(c, d)
    ensures var q := ByKind(Clashing(c, d));
            Found(Run(SLED_START, LosingRun(c, d)), q) != FullScan(PlainRun(LosingRun(c, d)), q)
  {
    hide Join, Clashing, Found, FullScan, BehindNul;
    var w := Clashing(c, d);
    ClashingJoins(c, d);
    assert c != d by { NotBehindItself(c, d); }
    var ops := LosingRun(c, d);
    assert ops[..2][..1] == [ops[0]] && ops[..2][1] == ops[1] && ops[..1][..0] == [];
    var one := Put(SLED_START, Kinded(c, ""));
    var two := Put(one, Kinded(d, w));
    var three := Delete(two, c);
    assert Run(SLED_START, []) == SLED_START && Run(SLED_START, ops[..1]) == one && Run(SLED_START, ops[..2]) == two;
    assert Run(SLED_START, ops) == three;
    assert PlainRun([]) == map[] && PlainRun(ops[..1]) == map[c := Kinded(c, "")];
    assert PlainRun(ops[..2]) == map[c := Kinded(c, ""), d := Kinded(d, w)];
    assert PlainRun(ops) == map[d := Kinded(d, w)];
    assert two.types == Joined({Join("", c)}) && two.chips[c] == Kinded(c, "");
    assert three.types == Joined({});
    NothingFound(three, w);
    OneScanned(PlainRun(ops), d, w);
  }

  lemma NotBehindItself(c: Cid, d: Cid)
    requires BehindNul(c, d)
    ensures c != d
  {
  }

  lemma NothingFound(st: State, kind: string)
    requires st.types == Joined({})
    ensures Found(st, ByKind(kind)) == {}
  {
    assert Read(st.types, kind) == {};
    assert Candidates(st, ByKind(kind)) == Some({});
  }

  lemma OneScanned(chips: map<Cid, Chip>, d: Cid, kind: string)
    requires d in chips && chips[d] == Kinded(d, kind)
    ensures FullScan(chips, ByKind(kind)) != {}
  {
    assert chips[d] in FullScan(chips, ByKind(kind));
  }

  /** Whatever runs store, delete and rebuild under these ids, sled's queries answer from the plain chips. */
  ghost predicate SledAnswersRight(ids: set<Cid>) {
    forall ops, q :: PutIds(ops) <= ids ==> Found(Run(SLED_START, ops), q) == FullScan(PlainRun(ops), q)
  }

  /** They do exactly when none of the ids is another one behind a NUL. */
  lemma SledAnswersRightExactly(ids: set<Cid>)
    ensures SledAnswersRight(ids) <==> AllApart(ids)
  {
    hide Found, FullScan, Run, PlainRun, BehindNul;
    if AllApart(ids) {
      forall ops, q | PutIds(ops) <= ids ensures Found(Run(SLED_START, ops), q) == FullScan(PlainRun(ops), q) {
        QueriesAnswerFromChips(SLED_START, ops, q);
      }
    } else {
      var c, d :| c in ids && d in ids && !Apart(c, d);
      if BehindNul(c, d) { LosesAmong(ids, c, d); } else { LosesAmong(ids, d, c); }
    }
  }

  lemma LosesAmong(ids: set<Cid>, c: Cid, d: Cid)
    requires c in ids && d in ids && BehindNul(c, d)
    ensures !SledAnswersRight(ids)
  {
    hide Found, FullScan, Run, PlainRun, BehindNul, Clashing;
    CollidingIdsLoseAChip(c, d);
    var ops := LosingRun(c, d);
    assert PutIds(ops) <= ids;
  }

  // ---------------------------------------------------------------- pages

  /** Newest first, equal times in the order they came: `sort_by` is stable. */
  function InsertByTime(chip: Chip, sorted: seq<Chip>): seq<Chip> {
    if sorted == [] || chip.createdAt >= sorted[0].createdAt then [chip] + sorted
    else [sorted[0]] + InsertByTime(chip, sorted[1..])
  }

  function SortByTime(chips: seq<Chip>): seq<Chip> {
    if chips == [] then [] else InsertByTime(chips[0], SortByTime(chips[1..]))
  }

  ghost predicate NewestFirst(chips: seq<Chip>) {
    forall i, j :: 0 <= i < j < |chips| ==> chips[i].createdAt >= chips[j].createdAt
  }

  lemma {:induction false} InsertByTimeMembers(chip: Chip, sorted: seq<Chip>)
    ensures multiset(InsertByTime(chip, sorted)) == multiset(sorted) + multiset{chip}
  {
    if sorted != [] && chip.createdAt < sorted[0].createdAt {
      InsertByTimeMembers(chip, sorted[1..]);
      assert sorted == [sorted[0]] + sorted[1..];
    }
  }

  lemma {:induction false} InsertByTimeSorts(chip: Chip, sorted: seq<Chip>, top: int)
    requires NewestFirst(sorted) && chip.createdAt <= top && (sorted != [] ==> sorted[0].createdAt <= top)
    ensures NewestFirst(InsertByTime(chip, sorted))
    ensures forall i :: 0 <= i < |InsertByTime(chip, sorted)| ==> InsertByTime(chip, sorted)[i].createdAt <= top
  {
    if sorted != [] && chip.createdAt < sorted[0].createdAt {
      InsertByTimeSorts(chip, sorted[1..], sorted[0].createdAt);
    }
  }

  lemma {:induction false} SortByTimeProperties(chips: seq<Chip>)
    ensures NewestFirst(SortByTime(chips)) && multiset(SortByTime(chips)) == multiset(chips)
  {
    if chips != [] {
      SortByTimeProperties(chips[1..]);
      var rest := SortByTime(chips[1..]);
      var top := if rest == [] || rest[0].createdAt < chips[0].createdAt then chips[0].createdAt else rest[0].createdAt;
      InsertByTimeMembers(chips[0], rest);
      InsertByTimeSorts(chips[0], rest, top);
      assert chips == [chips[0]] + chips[1..];
    }
  }

  datatype QueryResult = QueryResult(chips: seq<Chip>, total: nat, hasMore: bool)

  function Window(sorted: seq<Chip>, offset: nat, limit: nat): seq<Chip> {
    var rest := if offset <= |sorted| then sorted[offset..] else [];
    if limit <= |rest| then rest[..limit] else rest
  }

  /** `apply_pagination` on results that are already in order. */
  function Page(sorted: seq<Chip>, offset: nat, limit: nat): QueryResult {
    var page := Window(sorted, offset, limit);
    QueryResult(page, |sorted|, offset + |page| < |sorted|)
  }

  function Offset(q: Query): nat {
    if q.offset.Some? then q.offset.value else 0
  }

  function Limit(q: Query): nat {
    if q.limit.Some? then q.limit.value else 100
  }

  /** A client that asks for page after page as long as there is more. */
  function AllPages(sorted: seq<Chip>, offset: nat, limit: nat): seq<Chip>
    requires limit >= 1
    decreases if offset < |sorted| then |sorted| - offset else 0
  {
    var page := Page(sorted, offset, limit);
    if page.hasMore then page.chips + AllPages(sorted, offset + limit, limit) else page.chips
  }

  /** The pages, put together, are the whole list: nothing twice, nothing left out. */
  lemma {:induction false} PagesPartition(sorted: seq<Chip>, offset: nat, limit: nat)
    requires limit >= 1 && offset <= |sorted|
    ensures AllPages(sorted, offset, limit) == sorted[offset..]
    decreases |sorted| - offset
  {
    if Page(sorted, offset, limit).hasMore {
      PagesPartition(sorted, offset + limit, limit);
      assert sorted[offset..] == sorted[offset..offset + limit] + sorted[offset + limit..];
    }
  }

  /** A page size of zero never gets anywhere: every page is empty and promises more. */
  lemma EmptyPagesForEver(sorted: seq<Chip>, offset: nat)
    requires offset < |sorted|
    ensures Page(sorted, offset, 0) == QueryResult([], |sorted|, true)
  {
  }

  // ---------------------------------------------------------------- answers

  /** The chips of a set, each once, in some order. */
  ghost predicate Enumerates(xs: seq<Chip>, s: set<Chip>) {
    (forall x :: x in xs <==> x in s) && forall i, j :: 0 <= i < j < |xs| ==> xs[i] != xs[j]
  }

  /** What a query may return: the collected chips come out of a hash table in any order, and are then sorted. */
  ghost predicate IsAnswer(chips: map<Cid, Chip>, q: Query, r: QueryResult) {
    exists xs :: Enumerates(xs, FullScan(chips, q)) && r == Page(SortByTime(xs), Offset(q), Limit(q))
  }

  ghost predicate DistinctTimes(chips: map<Cid, Chip>) {
    forall c, d :: c in chips && d in chips && c != d ==> chips[c].createdAt != chips[d].createdAt
  }

  lemma SortedMembers(xs: seq<Chip>)
    ensures forall x :: x in SortByTime(xs) <==> x in xs
    ensures |SortByTime(xs)| == |xs|
  {
    SortByTimeProperties(xs);
    forall x ensures x in SortByTime(xs) <==> x in xs {
      assert x in SortByTime(xs) <==> x in multiset(SortByTime(xs));
      assert x in xs <==> x in multiset(xs);
    }
    assert |multiset(SortByTime(xs))| == |multiset(xs)|;
  }

  /** A newest-first list without equal times is determined by its members. */
  lemma {:induction false} OrderIsUnique(xs: seq<Chip>, ys: seq<Chip>)
    requires StrictlyNewestFirst(xs) && StrictlyNewestFirst(ys) && forall x :: x in xs <==> x in ys
    ensures xs == ys
  {
    assert xs != [] ==> xs[0] in ys;
    assert ys != [] ==> ys[0] in xs;
    if xs != [] && ys != [] {
      assert xs[0] == ys[0];
      assert xs == [xs[0]] + xs[1..] && ys == [ys[0]] + ys[1..];
      TailMembers(xs, ys);
      TailMembers(ys, xs);
      OrderIsUnique(xs[1..], ys[1..]);
    }
  }

  ghost predicate StrictlyNewestFirst(xs: seq<Chip>) {
    forall i, j :: 0 <= i < j < |xs| ==> xs[i].createdAt > xs[j].createdAt
  }

  lemma TailMembers(xs: seq<Chip>, ys: seq<Chip>)
    requires xs != [] && ys != [] && xs[0] == ys[0] && StrictlyNewestFirst(xs) && forall x :: x in xs ==> x in ys
    ensures forall x :: x in xs[1..] ==> x in ys[1..]
  {
    forall x | x in xs[1..] ensures x in ys[1..] {
      assert x in xs && x != xs[0];
      assert ys == [ys[0]] + ys[1..];
    }
  }

  lemma SortIsStrict(chips: map<Cid, Chip>, q: Query, xs: seq<Chip>)
    requires DistinctTimes(chips) && Enumerates(xs, FullScan(chips, q))
    ensures StrictlyNewestFirst(SortByTime(xs))
  {
    hide SortByTime, Matches;
    var sorted := SortByTime(xs);
    SortByTimeProperties(xs);
    SortedMembers(xs);
    forall i, j | 0 <= i < j < |sorted| ensures sorted[i].createdAt > sorted[j].createdAt {
      assert sorted[i] in xs && sorted[j] in xs;
      assert sorted[i] != sorted[j] by { SortedDistinct(xs, i, j); }
    }
  }

  lemma {:induction false} DistinctCounts(xs: seq<Chip>, x: Chip)
    requires forall i, j :: 0 <= i < j < |xs| ==> xs[i] != xs[j]
    ensures multiset(xs)[x] <= 1
  {
    if xs != [] {
      assert xs == [xs[0]] + xs[1..] && xs[0] !in xs[1..];
      DistinctCounts(xs[1..], x);
    }
  }

  lemma SortedDistinct(xs: seq<Chip>, i: nat, j: nat)
    requires forall i, j :: 0 <= i < j < |xs| ==> xs[i] != xs[j]
    requires i < j < |SortByTime(xs)|
    ensures SortByTime(xs)[i] != SortByTime(xs)[j]
  {
    hide SortByTime;
    var s := SortByTime(xs);
    SortByTimeProperties(xs);
    DistinctCounts(xs, s[i]);
    assert s == s[..j] + s[j..];
    assert s[i] in multiset(s[..j]) && s[j] in multiset(s[j..]);
    assert multiset(s)[s[i]] == multiset(s[..j])[s[i]] + multiset(s[j..])[s[i]];
  }

  /** While no two chips share a time, equal queries get equal answers: the pages of one query are cut from one order. */
  lemma AnswersAgree(chips: map<Cid, Chip>, q: Query, r: QueryResult, s: QueryResult)
    requires DistinctTimes(chips) && IsAnswer(chips, q, r) && IsAnswer(chips, q, s)
    ensures r == s
  {
    hide SortByTime, FullScan, DistinctTimes;
    var xs :| Enumerates(xs, FullScan(chips, q)) && r == Page(SortByTime(xs), Offset(q), Limit(q));
    var ys :| Enumerates(ys, FullScan(chips, q)) && s == Page(SortByTime(ys), Offset(q), Limit(q));
    SortIsStrict(chips, q, xs);
    SortIsStrict(chips, q, ys);
    SortedMembers(xs);
    SortedMembers(ys);
    OrderIsUnique(SortByTime(xs), SortByTime(ys));
  }

  ghost predicate AnswersAlwaysAgree(chips: map<Cid, Chip>) {
    forall q, r, s :: IsAnswer(chips, q, r) && IsAnswer(chips, q, s) ==> r == s
  }

  lemma {:induction false} CanBeEnumerated(s: set<Chip>) returns (xs: seq<Chip>)
    ensures Enumerates(xs, s)
  {
    xs := [];
    if s != {} {
      var x :| x in s;
      var rest := CanBeEnumerated(s - {x});
      xs := [x] + rest;
    }
  }

  lemma {:induction false} EqualTimesStay(xs: seq<Chip>, t: int)
    requires forall x :: x in xs ==> x.createdAt == t
    ensures SortByTime(xs) == xs
  {
    if xs != [] {
      EqualTimesStay(xs[1..], t);
      assert xs == [xs[0]] + xs[1..];
      assert xs[0] in xs && (xs[1..] != [] ==> xs[1..][0] in xs);
    }
  }

  lemma {:induction false} EnumerationSize(xs: seq<Chip>, s: set<Chip>)
    requires Enumerates(xs, s)
    ensures |xs| == |s|
  {
    if xs == [] {
      assert s == {};
    } else {
      assert xs == [xs[0]] + xs[1..] && xs[0] in s;
      assert xs[0] !in xs[1..];
      EnumerationSize(xs[1..], s - {xs[0]});
    }
  }

  /** How long an answer is: a hundred chips unless the query says otherwise, behind as many as it skips. */
  lemma AnswerSize(chips: map<Cid, Chip>, q: Query, r: QueryResult)
    requires IsAnswer(chips, q, r)
    ensures var skipped := if q.offset.Some? then q.offset.value else 0;
            var most := if q.limit.Some? then q.limit.value else 100;
            var left := |FullScan(chips, q)| - skipped;
            && r.total == |FullScan(chips, q)|
            && |r.chips| == (if left <= 0 then 0 else if left < most then left else most)
            && (r.hasMore <==> left > |r.chips|)
  {
    hide FullScan, SortByTime;
    var xs :| Enumerates(xs, FullScan(chips, q)) && r == Page(SortByTime(xs), Offset(q), Limit(q));
    EnumerationSize(xs, FullScan(chips, q));
    SortedMembers(xs);
  }

  /** The chips of one instant, one at a time. */
  function AtInstant(t: int): Query {
    Query(None, [], Some(t - 1), Some(t + 1), None, Some(1), None)
  }

  /** Any chip of an instant may be the one answered. */
  lemma AnyOfTheInstant(chips: map<Cid, Chip>, c: Cid)
    requires c in chips
    ensures exists r :: IsAnswer(chips, AtInstant(chips[c].createdAt), r) && r.chips == [chips[c]]
  {
    hide SortByTime;
    var t := chips[c].createdAt;
    var s := FullScan(chips, AtInstant(t));
    var rest := CanBeEnumerated(s - {chips[c]});
    var xs := [chips[c]] + rest;
    assert Enumerates(xs, s);
    EqualTimesStay(xs, t);
    var r := Page(SortByTime(xs), 0, 1);
    assert xs[0..] == xs;
    assert r.chips == [chips[c]] && IsAnswer(chips, AtInstant(t), r);
  }

  /**
    Equal queries get equal answers from any two tables of the same chips exactly when no two chips
    share a time. Two tables, or two processes, may hash their chips in different orders; one table
    that is not modified in between repeats its own order.
   */
  lemma AnswersAgreeExactly(chips: map<Cid, Chip>)
    requires forall c :: c in chips ==> chips[c].cid == c
    ensures AnswersAlwaysAgree(chips) <==> DistinctTimes(chips)
  {
    hide IsAnswer;
    if DistinctTimes(chips) {
      forall q, r, s | IsAnswer(chips, q, r) && IsAnswer(chips, q, s) ensures r == s { AnswersAgree(chips, q, r, s); }
    } else {
      var c, d :| c in chips && d in chips && c != d && chips[c].createdAt == chips[d].createdAt;
      AnyOfTheInstant(chips, c);
      AnyOfTheInstant(chips, d);
      var q := AtInstant(chips[c].createdAt);
      var r :| IsAnswer(chips, q, r) && r.chips == [chips[c]];
      var s :| IsAnswer(chips, q, s) && s.chips == [chips[d]];
      assert r.chips[0] != s.chips[0];
    }
  }

  /** When no two chips share a time, the first of the newest-first order is newer than all others asked for. */
  lemma NewestIsFirst(chips: map<Cid, Chip>, q: Query, r: QueryResult, newest: Chip)
    requires IsAnswer(chips, q, r) && Offset(q) == 0 && Limit(q) >= 1
    requires newest in FullScan(chips, q)
    requires forall x :: x in FullScan(chips, q) && x != newest ==> x.createdAt < newest.createdAt
    ensures r.chips != [] && r.chips[0] == newest
  {
    hide FullScan, SortByTime;
    var xs :| Enumerates(xs, FullScan(chips, q)) && r == Page(SortByTime(xs), Offset(q), Limit(q));
    var sorted := SortByTime(xs);
    SortedMembers(xs);
    SortByTimeProperties(xs);
    assert newest in sorted;
    var i :| 0 <= i < |sorted| && sorted[i] == newest;
    assert sorted[0] in sorted;
    assert sorted[0..] == sorted;
  }

  /** Everything in an answer was asked for. */
  lemma AnswerMembers(chips: map<Cid, Chip>, q: Query, r: QueryResult)
    requires IsAnswer(chips, q, r)
    ensures forall x :: x in r.chips ==> x in FullScan(chips, q)
    ensures Offset(q) == 0 && Limit(q) >= 1 ==> (r.chips == [] <==> FullScan(chips, q) == {})
  {
    hide FullScan, SortByTime;
    var xs :| Enumerates(xs, FullScan(chips, q)) && r == Page(SortByTime(xs), Offset(q), Limit(q));
    SortedMembers(xs);
    var sorted := SortByTime(xs);
    forall x | x in r.chips ensures x in FullScan(chips, q) { assert x in sorted; }
    if xs != [] { assert xs[0] in FullScan(chips, q); }
  }
}
