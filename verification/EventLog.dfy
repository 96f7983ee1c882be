/** The event store as an object over its trees; every method is proved against the functions on `Store`. */
module EventLog {
  import opened Prelude
  import opened SortedKeys
  import opened EventStore

  class Log {
    var events: map<Text, Event>
    var trees: map<Dim, seq<Key>>

    ghost predicate Valid()
      reads this
    {
      trees.Keys == DIMS
    }

    ghost function State(): Store
      reads this
    {
      Store(events, trees)
    }

    constructor ()
      ensures Valid() && State() == EMPTY
    {
      events := map[];
      trees := EMPTY_TREES;
    }

    /** `insert_dim`, and the insertion into the time tree; the first `done` trees are already extended since `was`. */
    method InsertInto(d: Dim, e: Event, ghost was: map<Dim, seq<Key>>, ghost done: nat)
      requires Valid() && was.Keys == DIMS && Rank(d) == done && Extended(was, trees, e, done)
      modifies this`trees
      ensures Valid() && Extended(was, trees, e, done + 1)
    {
      hide KeyIn, DIMS;
      DimsAreAll(d);
      var key := KeyIn(e, d);
      if key.Some? {
        trees := trees[d := Insert(trees[d], key.value)];
      }
    }

    /** `insert_indexes`. */
    method InsertIndexes(e: Event)
      requires Valid()
      modifies this`trees
      ensures Valid() && trees == WithEvent(old(trees), e)
    {
      hide WithKey, Extended, WithEvent, DIMS;
      ghost var was := trees;
      assert Extended(was, trees, e, 0) by { NothingExtended(was, e); }
      InsertInto(ByTime, e, was, 0);
      InsertInto(ByWorld, e, was, 1);
      InsertInto(ByStage, e, was, 2);
      InsertInto(ByType, e, was, 3);
      InsertInto(ByDecision, e, was, 4);
      InsertInto(ByCode, e, was, 5);
      InsertInto(ByActor, e, was, 6);
      AllExtended(was, trees, e);
    }

    /** `append_event_json`: false, and no change, when the id is taken. */
    method AppendEvent(e: Event) returns (added: bool)
      requires Valid()
      modifies this
      ensures Valid() && State() == Append(old(State()), e) && added == (e.id !in old(events))
      ensures old(Indexed(State())) ==> Indexed(State())
    {
      hide WithEvent, Indexed;
      if old(Indexed(State())) { AppendKeepsIndexes(State(), e); }
      if e.id in events { return false; }
      events := events[e.id := e];
      InsertIndexes(e);
      added := true;
    }

    /** `rebuild_indexes`: whatever the trees held, they are right afterwards. */
    method RebuildIndexes()
      requires Valid() && forall id :: id in events ==> events[id].id == id
      modifies this`trees
      ensures Valid() && Indexed(State()) && State() == Rebuild(old(State()))
      ensures old(Indexed(State())) ==> State() == old(State())
    {
      hide TreeOf, WithEvent;
      trees := EMPTY_TREES;
      var left := events.Keys;
      ghost var done: set<Text> := {};
      forall d | d in DIMS ensures TreeOf(Restrict(events, {}), d, trees[d]) {
        EmptyTree(d);
        assert Restrict(events, {}) == map[];
      }
      while left != {}
        invariant Valid() && done + left == events.Keys && done !! left
        invariant forall d :: d in DIMS ==> TreeOf(Restrict(events, done), d, trees[d])
      {
        var id :| id in left;
        EventAddsItsKeys(events, done, id, trees);
        InsertIndexes(events[id]);
        left := left - {id};
        done := done + {id};
      }
      assert Restrict(events, done) == events;
      RebuildIsTheIndex(State(), old(State()));
      if old(Indexed(State())) { RebuildChangesNothing(old(State())); }
    }

    /** `scan_dim_index`: the ids behind the keys under a value, from the start key to the first foreign key. */
    method ScanDimIndex(d: Dim, v: Text, q: Query) returns (ids: seq<Text>)
      requires Valid()
      ensures ids == IdsOf(IndexKeys(State(), q, d, v))
    {
      hide StartsWith, From, IdOf, Start, WhilePrefix;
      DimsAreAll(d);
      var prefix := ValuePrefix(v);
      var keys := From(trees[d], prefix + Start(q));
      ids := [];
      var i := 0;
      assert keys == keys[..0] + keys[0..] && keys[0..] == keys;
      while i < |keys|
        invariant 0 <= i <= |keys| && ids == IdsOf(keys[..i])
        invariant WhilePrefix(keys, prefix) == keys[..i] + WhilePrefix(keys[i..], prefix)
      {
        PrefixStep(keys, i, prefix);
        if !StartsWith(keys[i], prefix) { return; }
        ids := ids + [IdOf(keys[i])];
        i := i + 1;
      }
      PrefixEnd(keys, prefix);
    }

    /** The loop of `query`: look up each id, keep what matches, stop at the limit. */
    method Collect(ids: seq<Text>, q: Query, ghost keys: seq<Key>) returns (out: seq<Event>)
      requires ids == IdsOf(keys)
      ensures out == Take(Picked(events, keys, q), Limit(q))
    {
      hide IdOf, Matches, Limit, Picked, Take;
      out := [];
      var i := 0;
      assert keys[0..] == keys && [] + Picked(events, keys, q) == Picked(events, keys, q);
      while i < |ids| && |out| < Limit(q)
        invariant 0 <= i <= |ids| && |out| <= Limit(q)
        invariant Take(out + Picked(events, keys[i..], q), Limit(q)) == Take(Picked(events, keys, q), Limit(q))
      {
        assert ids[i] == IdOf(keys[i]);
        PickedStep(events, keys, i, q, out);
        if ids[i] in events && Matches(events[ids[i]], q) {
          out := out + [events[ids[i]]];
        }
        i := i + 1;
      }
      PickedEnd(events, keys, i, q, out, Limit(q));
    }

    /** `query`. */
    method Find(q: Query) returns (out: seq<Event>)
      requires Valid()
      ensures out == RunQuery(State(), q)
    {
      hide Start, IdOf, Picked, Limit, WhilePrefix, From, Take, IdsOf;
      var choice := ChooseIndex(q);
      if choice.Some? {
        var ids := ScanDimIndex(choice.value.0, choice.value.1, q);
        out := Collect(ids, q, IndexKeys(State(), q, choice.value.0, choice.value.1));
      } else {
        var keys := From(trees[ByTime], Start(q));
        out := Collect(IdsOf(keys), q, keys);
      }
    }
  }

  /** The place of a tree in the order of insertion. */
  function Rank(d: Dim): (r: nat)
    ensures r < 7
  {
    match d
    case ByTime => 0
    case ByWorld => 1
    case ByStage => 2
    case ByType => 3
    case ByDecision => 4
    case ByCode => 5
    case ByActor => 6
  }

  /** The first `done` trees have got the event's key, the others are as they were. */
  ghost predicate Extended(was: map<Dim, seq<Key>>, now: map<Dim, seq<Key>>, e: Event, done: nat)
    requires was.Keys == DIMS && now.Keys == DIMS
  {
    forall d :: d in DIMS ==> now[d] == if Rank(d) < done then WithKey(e, d, was[d]) else was[d]
  }

  lemma NothingExtended(was: map<Dim, seq<Key>>, e: Event)
    requires was.Keys == DIMS
    ensures Extended(was, was, e, 0)
  {
  }

  lemma AllExtended(was: map<Dim, seq<Key>>, now: map<Dim, seq<Key>>, e: Event)
    requires was.Keys == DIMS && now.Keys == DIMS && Extended(was, now, e, 7)
    ensures now == WithEvent(was, e)
  {
  }

  lemma PrefixStep(keys: seq<Key>, i: nat, p: Key)
    requires i < |keys|
    ensures var rest := WhilePrefix(keys[i..], p);
            if StartsWith(keys[i], p) then keys[..i] + rest == keys[..i + 1] + WhilePrefix(keys[i + 1..], p)
            else keys[..i] + rest == keys[..i]
  {
    hide StartsWith;
    assert keys[i..][0] == keys[i] && keys[i..][1..] == keys[i + 1..];
  }

  lemma PrefixEnd(keys: seq<Key>, p: Key)
    ensures keys[..|keys|] + WhilePrefix(keys[|keys|..], p) == keys[..|keys|]
  {
  }

  lemma PickedStep(events: map<Text, Event>, keys: seq<Key>, i: nat, q: Query, out: seq<Event>)
    requires i < |keys|
    ensures out + Picked(events, keys[i..], q) ==
            (if Picks(events, keys[i], q) then out + [events[IdOf(keys[i])]] else out) + Picked(events, keys[i + 1..], q)
  {
    hide IdOf, Matches;
    assert keys[i..][0] == keys[i] && keys[i..][1..] == keys[i + 1..];
  }

  lemma PickedEnd(events: map<Text, Event>, keys: seq<Key>, i: nat, q: Query, out: seq<Event>, n: nat)
    requires i <= |keys| && |out| <= n && (i == |keys| || |out| == n)
    ensures Take(out + Picked(events, keys[i..], q), n) == out
  {
    hide IdOf, Matches;
  }

  function IdsOf(keys: seq<Key>): (r: seq<Text>)
    ensures |r| == |keys|
  {
    seq(|keys|, i requires 0 <= i < |keys| => IdOf(keys[i]))
  }

  /** Right trees over the same events are the ones that rebuilding makes. */
  lemma RebuildIsTheIndex(st: Store, was: Store)
    requires Indexed(st) && was.events == st.events
    ensures st == Rebuild(was)
  {
    hide TreeOf, Reindex;
    RebuildChangesNothing(st);
  }
}
