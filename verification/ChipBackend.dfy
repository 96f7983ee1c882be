/** A chip store backend as an object, with either kind of index; every method is proved against the functions on `State`. */
module ChipBackend {
  import opened Prelude
  import opened ChipStore

  class Backend {
    var chips: map<Cid, Chip>
    var types: Index
    var tags: Index
    var executors: Index

    ghost function St(): State
      reads this
    {
      State(chips, types, tags, executors)
    }

    /** `blank` is an empty index of the wanted kind. */
    constructor (blank: Index)
      ensures St() == State(map[], Empty(blank), Empty(blank), Empty(blank))
    {
      chips := map[];
      types, tags, executors := Empty(blank), Empty(blank), Empty(blank);
    }

    method IndexOne(chip: Chip)
      modifies this`types, this`tags, this`executors
      ensures St() == IndexChip(old(St()), chip)
    {
      hide Add;
      types := Add(types, chip.kind, chip.cid);
      ghost var was := tags;
      for i := 0 to |chip.tags|
        invariant St() == old(St()).(types := types, tags := tags)
        invariant types == Add(old(types), chip.kind, chip.cid)
        invariant tags == AddTags(was, chip.tags[..i], chip.cid)
      {
        assert chip.tags[..i + 1][..i] == chip.tags[..i];
        tags := Add(tags, chip.tags[i], chip.cid);
      }
      assert chip.tags[..|chip.tags|] == chip.tags;
      executors := Add(executors, chip.executor, chip.cid);
    }

    method RemoveFromIndexes(chip: Chip)
      modifies this`types, this`tags, this`executors
      ensures St() == UnindexChip(old(St()), chip)
    {
      hide Remove;
      types := Remove(types, chip.kind, chip.cid);
      ghost var was := tags;
      for i := 0 to |chip.tags|
        invariant St() == old(St()).(types := types, tags := tags)
        invariant types == Remove(old(types), chip.kind, chip.cid)
        invariant tags == RemoveTags(was, chip.tags[..i], chip.cid)
      {
        assert chip.tags[..i + 1][..i] == chip.tags[..i];
        tags := Remove(tags, chip.tags[i], chip.cid);
      }
      assert chip.tags[..|chip.tags|] == chip.tags;
      executors := Remove(executors, chip.executor, chip.cid);
    }

    method PutChip(chip: Chip)
      modifies this
      ensures St() == Put(old(St()), chip)
      ensures old(Complete(St())) && AllApart(old(chips.Keys) + {chip.cid}) ==> Complete(St())
    {
      hide IndexChip, Complete;
      if Complete(St()) && AllApart(chips.Keys + {chip.cid}) { PutKeepsComplete(St(), chip); }
      chips := chips[chip.cid := chip];
      IndexOne(chip);
    }

    method DeleteChip(cid: Cid)
      modifies this
      ensures St() == Delete(old(St()), cid)
      ensures old(Complete(St())) ==> Complete(St())
    {
      hide UnindexChip, Complete;
      if Complete(St()) { DeleteKeepsComplete(St(), cid); }
      if cid in chips {
        var chip := chips[cid];
        chips := chips - {cid};
        RemoveFromIndexes(chip);
      }
    }

    /** `rebuild_indexes`: whatever the indexes held, afterwards they miss no chip. */
    method RebuildIndexes()
      modifies this`types, this`tags, this`executors
      ensures chips == old(chips) && forall cid :: cid in chips ==> Listed(St(), chips[cid])
    {
      hide Listed, IndexChip;
      types, tags, executors := Empty(types), Empty(tags), Empty(executors);
      var left := chips.Keys;
      while left != {}
        invariant chips == old(chips) && left <= chips.Keys
        invariant forall cid :: cid in chips && cid !in left ==> Listed(St(), chips[cid])
      {
        var cid :| cid in left;
        forall c | c in chips ensures Listed(IndexChip(St(), chips[cid]), chips[cid])
                                && (Listed(St(), chips[c]) ==> Listed(IndexChip(St(), chips[cid]), chips[c])) {
          IndexingKeeps(St(), chips[cid], chips[c]);
        }
        var chip := chips[cid];
        ghost var after := IndexChip(St(), chip);
        IndexOne(chip);
        assert St() == after;
        left := left - {cid};
      }
    }

    /** `candidate_cids_from_indexes`. */
    method CandidateCids(q: Query) returns (r: Option<set<Cid>>)
      ensures r == Candidates(St(), q)
    {
      hide Read, Meet;
      if q.kind.None? && q.tags == [] && q.executor.None? { return None; }
      r := None;
      if q.kind.Some? { r := Meet(r, Read(types, q.kind.value)); }
      ghost var byType := r;
      for i := 0 to |q.tags|
        invariant r == MeetTags(byType, tags, q.tags[..i])
      {
        assert q.tags[..i + 1][..i] == q.tags[..i];
        r := Meet(r, Read(tags, q.tags[i]));
      }
      assert q.tags[..|q.tags|] == q.tags;
      if q.executor.Some? { r := Meet(r, Read(executors, q.executor.value)); }
    }

    /** The chips behind these ids that match, in whatever order the ids come. */
    method Collect(cids: set<Cid>, q: Query) returns (xs: seq<Chip>)
      requires forall cid :: cid in chips ==> chips[cid].cid == cid
      ensures Enumerates(xs, set cid | cid in cids && cid in chips && Matches(chips[cid], q) :: chips[cid])
    {
      hide Matches;
      xs := [];
      var left := cids;
      while left != {}
        invariant left <= cids
        invariant Enumerates(xs, set cid | cid in cids && cid !in left && cid in chips && Matches(chips[cid], q) :: chips[cid])
      {
        var cid :| cid in left;
        ghost var was := set c | c in cids && c !in left && c in chips && Matches(chips[c], q) :: chips[c];
        left := left - {cid};
        ghost var now := set c | c in cids && c !in left && c in chips && Matches(chips[c], q) :: chips[c];
        if cid in chips && Matches(chips[cid], q) {
          assert now == was + {chips[cid]} && chips[cid] !in was;
          xs := xs + [chips[cid]];
        } else {
          assert now == was;
        }
      }
    }

    /** `query_chips`. */
    method QueryChips(q: Query) returns (r: QueryResult)
      requires Complete(St())
      ensures IsAnswer(chips, q, r)
    {
      hide Matches, Listed, SortByTime, Apart;
      FoundIsFullScan(St(), q);
      var cids := CandidateCids(q);
      var xs: seq<Chip>;
      if cids.Some? {
        xs := Collect(cids.value, q);
      } else {
        xs := Collect(chips.Keys, q);
        assert FullScan(chips, q) == set cid | cid in chips.Keys && cid in chips && Matches(chips[cid], q) :: chips[cid];
      }
      r := Page(SortByTime(xs), Offset(q), Limit(q));
    }
  }
}
