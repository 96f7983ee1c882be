/** The durable store and the outbox dispatcher as objects, and the dispatcher's backoff. */
module DurableStore {
  import opened Prelude
  import opened Json
  import opened Durable

  /** What a claim hands to a worker: the row as it was before the claim. */
  datatype Claimed = Claimed(id: nat, event: NewEvent, attempts: nat, nextAt: int)

  function AsClaimed(outbox: map<nat, Row>, id: nat): Claimed
    requires id in outbox
  {
    Claimed(id, outbox[id].event, outbox[id].attempts, outbox[id].nextAt)
  }

  /** The events handed out stand for these rows, in this order. */
  ghost predicate HandedOut(outbox: map<nat, Row>, ids: seq<nat>, events: seq<Claimed>) {
    |events| == |ids| && forall i :: 0 <= i < |ids| ==> ids[i] in outbox && StandsFor(events[i], ids[i], outbox[ids[i]])
  }

  ghost predicate StandsFor(c: Claimed, id: nat, row: Row) {
    c.id == id && c.event == row.event && c.attempts == row.attempts && c.nextAt == row.nextAt
  }

  class Store {
    var receipts: map<string, ReceiptRow>
    var idem: map<string, IdemRow>
    var outbox: map<nat, Row>
    var nextId: nat

    ghost function T(): Tables
      reads this
    {
      Tables(receipts, idem, outbox, nextId)
    }

    constructor ()
      ensures T() == EMPTY
    {
      receipts, idem, outbox, nextId := map[], map[], map[], 1;
    }

    /** `commit_wf_atomically`: the transaction works on copies and replaces the tables at the end. */
    method CommitWfAtomically(c: CommitInput) returns (outcome: CommitOutcome)
      modifies this
      ensures (T(), outcome) == Commit(old(T()), c)
      ensures outcome == Committed && c.key.Some? ==> c.key.value in idem && AnswersWith(idem[c.key.value], c)
      ensures outcome != Committed ==> T() == old(T())
    {
      hide InsertReceipt;
      var receipts' := InsertReceipt(receipts, c);
      if c.failAfterReceipt { return InjectedFailure; }
      var idem' := idem;
      if c.key.Some? {
        if c.key.value in idem' { return Conflict; }
        idem' := idem'[c.key.value := IdemOf(c)];
      }
      var outbox', nextId' := outbox, nextId;
      for i := 0 to |c.events|
        invariant nextId' == nextId + i
        invariant Enqueue(outbox', nextId', c.events[i..], c.createdAt) == Enqueue(outbox, nextId, c.events, c.createdAt)
      {
        assert c.events[i..][0] == c.events[i] && c.events[i..][1..] == c.events[i + 1..];
        outbox' := outbox'[nextId' := NewRow(c.events[i], c.createdAt)];
        nextId' := nextId' + 1;
      }
      receipts, idem, outbox, nextId := receipts', idem', outbox', nextId';
      outcome := Committed;
    }

    method GetIdempotent(key: string) returns (row: Option<IdemRow>)
      ensures row == Lookup(T(), key)
    {
      if key in idem { return Some(idem[key]); }
      row := None;
    }

    /** The SELECT of `claim_outbox`. */
    method SelectDue(now: int, limit: nat) returns (ids: seq<nat>)
      ensures ids == ClaimIds(T(), now, limit)
    {
      hide Due;
      ids := [];
      var id := 0;
      while id < nextId && |ids| < limit
        invariant |ids| <= limit
        invariant ids + DueFrom(outbox, now, id, nextId, limit - |ids|) == ClaimIds(T(), now, limit)
        decreases nextId - id
      {
        if Due(outbox, id, now) { ids := ids + [id]; }
        id := id + 1;
      }
    }

    method ClaimOutbox(now: int, limit: nat) returns (events: seq<Claimed>)
      modifies this`outbox
      ensures T() == Claim(old(T()), now, limit)
      ensures HandedOut(old(outbox), ClaimIds(old(T()), now, limit), events)
    {
      hide ClaimIds, MarkClaimed;
      ghost var was := outbox;
      var ids := SelectDue(now, limit);
      ClaimedAreDue(T(), now, limit);
      events := [];
      for i := 0 to |ids|
        invariant |events| == i && HandedOut(was, ids[..i], events)
      {
        assert ids[i] in ids && ids[..i + 1] == ids[..i] + [ids[i]];
        events := events + [AsClaimed(outbox, ids[i])];
      }
      assert ids[..|ids|] == ids;
      forall i | 0 <= i < |ids| ensures ids[i] !in ids[..i] && ids[i] in outbox {
        assert ids[i] in ids;
        DueAscends(T(), now, limit, i);
      }
      MarkInflight(ids);
    }

    /** The UPDATE of each claimed row. */
    method MarkInflight(ids: seq<nat>)
      requires forall i :: 0 <= i < |ids| ==> ids[i] !in ids[..i] && ids[i] in outbox
      modifies this`outbox
      ensures outbox == MarkClaimed(old(outbox), ids)
    {
      hide ClaimRow;
      ghost var was := outbox;
      for i := 0 to |ids|
        invariant outbox.Keys == was.Keys
        invariant forall x :: x in was ==> outbox[x] == if x in ids[..i] then ClaimRow(was[x]) else was[x]
      {
        assert ids[..i + 1] == ids[..i] + [ids[i]];
        outbox := outbox[ids[i] := ClaimRow(outbox[ids[i]])];
      }
      assert ids[..|ids|] == ids;
    }

    method AckOutbox(id: nat)
      modifies this`outbox
      ensures T() == Ack(old(T()), id)
    {
      if id in outbox { outbox := outbox[id := outbox[id].(status := Delivered)]; }
    }

    method NackOutbox(id: nat, at: int)
      modifies this`outbox
      ensures T() == Nack(old(T()), id, at)
    {
      if id in outbox { outbox := outbox[id := outbox[id].(status := Pending, nextAt := at)]; }
    }
  }

  lemma DueAscends(t: Tables, now: int, limit: nat, i: nat)
    requires i < |ClaimIds(t, now, limit)|
    ensures ClaimIds(t, now, limit)[i] !in ClaimIds(t, now, limit)[..i]
  {
    DueProperties(t.outbox, now, 0, t.nextId, limit);
  }

  // ---------------------------------------------------------------- backoff

  function Saturate(n: int): int64 {
    if n > I64_MAX then I64_MAX else if n < I64_MIN then I64_MIN else n
  }

  function Pow2(n: nat): (r: nat)
    ensures r >= 1
  {
    if n == 0 then 1 else 2 * Pow2(n - 1)
  }

  function Min(a: int, b: int): int {
    if a < b then a else b
  }

  /** The wait after a failed delivery; the attempt count is cut to 32 bits on the way. */
  function Delay(base: int64, max: int64, attempts: nat): int {
    var tries := Saturate(attempts + 1) % U32;
    Min(Saturate(Doubled(base, Min(tries, 16))), max)
  }

  function Doubled(base: int, n: nat): int {
    base * Pow2(n)
  }

  lemma {:induction false} DoubledGrows(base: nat, a: nat, b: nat)
    requires a <= b
    ensures Doubled(base, a) <= Doubled(base, b)
    ensures Doubled(base, 0) == base && Doubled(base, 1) == 2 * base
  {
    assert Pow2(0) == 1 && Pow2(1) == 2 * Pow2(0);
    if a < b {
      DoubledGrows(base, a, b - 1);
      assert Doubled(base, b) == base * (2 * Pow2(b - 1)) == 2 * Doubled(base, b - 1);
    }
  }

  /** The attempt counts, up to the range of i64, that are one short of a multiple of 2^32. */
  predicate WrapsToZero(attempts: nat) {
    Saturate(attempts + 1) % U32 == 0
  }

  /** Every delay lies between twice the base and the maximum, unless the attempt count wraps to zero. */
  lemma DelayBoundsExactly(base: int64, max: int64, attempts: nat)
    requires 1 <= base <= max
    ensures Delay(base, max, attempts) <= max
    ensures Delay(base, max, attempts) >= Min(2 * base, max) <==> !WrapsToZero(attempts) || max == base
  {
    hide Doubled;
    var tries := Saturate(attempts + 1) % U32;
    DoubledGrows(base, 0, 0);
    if tries != 0 { DoubledGrows(base, 1, Min(tries, 16)); }
  }

  /** Below the wrap delays never shrink as attempts grow. */
  lemma DelayMonotone(base: int64, max: int64, a: nat, b: nat)
    requires 1 <= base <= max && a <= b < U32 - 1
    ensures Delay(base, max, a) <= Delay(base, max, b)
  {
    hide Doubled;
    assert Saturate(a + 1) % U32 == a + 1 && Saturate(b + 1) % U32 == b + 1;
    DoubledGrows(base, Min(a + 1, 16), Min(b + 1, 16));
  }

  /** The first wait is twice the base; each try doubles it, up to the sixteenth and up to the maximum. */
  lemma DelayDoubles(base: int64, max: int64, a: nat)
    requires 1 <= base <= max
    ensures Delay(base, max, 0) == Min(2 * base, max)
    ensures a < 15 ==> Delay(base, max, a + 1) == Min(2 * Delay(base, max, a), max)
    ensures 15 <= a < U32 - 1 ==> Delay(base, max, a) == Delay(base, max, 15)
  {
    hide Doubled;
    DoubledGrows(base, 0, 1);
    if a < 15 {
      DoubledGrows(base, 0, a + 1);
      assert Doubled(base, a + 2) == 2 * Doubled(base, a + 1) by { DoubledTwice(base, a + 1); }
    }
  }

  lemma DoubledTwice(base: nat, n: nat)
    ensures Doubled(base, n + 1) == 2 * Doubled(base, n)
  {
    assert Doubled(base, n + 1) == base * (2 * Pow2(n));
  }

  /** At the wrap the delay falls back to the bare base. */
  lemma DelayDropsAtWrap(base: int64, max: int64)
    requires 1 <= base < max
    ensures Delay(base, max, U32 - 1) == base < Delay(base, max, U32 - 2)
  {
    hide Doubled;
    DelayBoundsExactly(base, max, U32 - 2);
    DoubledGrows(base, 0, 0);
  }

  /** Up to `n` attempts no delay is shorter than one before it. */
  ghost predicate NeverShrinks(base: int64, max: int64, n: nat) {
    forall a: nat, b: nat :: a <= b <= n ==> Delay(base, max, a) <= Delay(base, max, b)
  }

  /** So it is exactly below the wrap, or when there is nothing to grow to. */
  lemma NeverShrinksExactly(base: int64, max: int64, n: nat)
    requires 1 <= base <= max
    ensures NeverShrinks(base, max, n) <==> n < U32 - 1 || base == max
  {
    hide Delay;
    if base == max {
      forall a: nat ensures Delay(base, max, a) == base { DelayWithoutRoom(base, a); }
    } else if n < U32 - 1 {
      forall a: nat, b: nat | a <= b <= n ensures Delay(base, max, a) <= Delay(base, max, b) { DelayMonotone(base, max, a, b); }
    } else {
      DelayDropsAtWrap(base, max);
    }
  }

  lemma DelayWithoutRoom(base: int64, attempts: nat)
    requires 1 <= base
    ensures Delay(base, base, attempts) == base
  {
    hide Doubled;
    DoubledGrows(base, 0, Min(Saturate(attempts + 1) % U32, 16));
  }

  // ---------------------------------------------------------------- the dispatcher

  class Dispatcher {
    const store: Store
    var base: int64
    var max: int64

    constructor (store: Store)
      ensures this.store == store && base == 2 && max == 300
    {
      this.store := store;
      base, max := 2, 300;
    }

    /** `with_backoff`: whatever is asked for, the delays make sense. */
    method WithBackoff(b: int64, m: int64)
      modifies this`base, this`max
      ensures 1 <= base <= max
      ensures base == (if b < 1 then 1 else b) && max == (if m < base then base else m)
    {
      base := if b > 1 then b else 1;
      max := if m > base then m else base;
    }

    /** Deliver one claimed event: acknowledge it, or put it back with its delay. */
    method Settle(event: Claimed, handler: Claimed -> bool, clock: nat -> int64)
      requires 1 <= base <= max && event.id in store.outbox
      modifies store`outbox
      ensures var row := old(store.outbox)[event.id];
              store.T() == old(store.T()).(outbox := old(store.outbox)[event.id :=
                if handler(event) then row.(status := Delivered)
                else row.(status := Pending, nextAt := Saturate(clock(event.id) + Delay(base, max, event.attempts)))])
    {
      hide Delay;
      if handler(event) {
        store.AckOutbox(event.id);
      } else {
        store.NackOutbox(event.id, Saturate(clock(event.id) + Delay(base, max, event.attempts)));
      }
    }

    /**
      `run_once`, with the handler's answers and the clock at each failure as parameters: every claimed row
      is delivered or put back with its delay, every other row and table is left alone.
     */
    method RunOnce(limit: nat, now: int, handler: Claimed -> bool, clock: nat -> int64) returns (processed: nat)
      requires 1 <= base <= max
      modifies store`outbox
      ensures processed == |ClaimIds(old(store.T()), now, limit)|
      ensures store.T() == old(store.T()).(outbox := store.outbox) && store.outbox.Keys == old(store.outbox.Keys)
      ensures forall id :: id in store.outbox ==>
                store.outbox[id] == if id in ClaimIds(old(store.T()), now, limit)
                                    then Settled(old(store.outbox), id, handler, clock, base, max)
                                    else old(store.outbox[id])
    {
      hide ClaimIds, Delay, Settled, AfterBatch, ClaimRow;
      ghost var was := store.outbox;
      ghost var ids := ClaimIds(store.T(), now, limit);
      ClaimedAreDue(store.T(), now, limit);
      var events := store.ClaimOutbox(now, limit);
      BatchStarts(was, ids, handler, clock, base, max);
      processed := 0;
      for i := 0 to |events|
        invariant processed == i && store.T() == old(store.T()).(outbox := store.outbox)
        invariant store.outbox.Keys == was.Keys
        invariant forall x :: x in was ==> store.outbox[x] == AfterBatch(was, ids, i, x, handler, clock, base, max)
      {
        var event := events[i];
        assert ids[i] !in ids[..i] by { DueAscends(old(store.T()), now, limit, i); }
        BatchStep(was, ids, i, handler, clock, base, max);
        Settle(event, handler, clock);
        processed := processed + 1;
      }
      BatchEnds(was, ids, handler, clock, base, max);
    }
  }

  /** A row after its delivery was tried once. */
  ghost function Settled(was: map<nat, Row>, id: nat, handler: Claimed -> bool, clock: nat -> int64, base: int64, max: int64): Row
    requires id in was
  {
    var row := was[id].(attempts := was[id].attempts + 1);
    if handler(AsClaimed(was, id)) then row.(status := Delivered)
    else row.(status := Pending, nextAt := Saturate(clock(id) + Delay(base, max, was[id].attempts)))
  }

  /** A row when the first `n` of the claimed ones are settled. */
  ghost function AfterBatch(was: map<nat, Row>, ids: seq<nat>, n: nat, id: nat, handler: Claimed -> bool,
                            clock: nat -> int64, base: int64, max: int64): Row
    requires id in was && n <= |ids|
  {
    if id in ids[..n] then Settled(was, id, handler, clock, base, max)
    else if id in ids then ClaimRow(was[id])
    else was[id]
  }

  lemma BatchStarts(was: map<nat, Row>, ids: seq<nat>, handler: Claimed -> bool, clock: nat -> int64, base: int64, max: int64)
    ensures forall x :: x in was ==> AfterBatch(was, ids, 0, x, handler, clock, base, max) == MarkClaimed(was, ids)[x]
  {
  }

  lemma BatchEnds(was: map<nat, Row>, ids: seq<nat>, handler: Claimed -> bool, clock: nat -> int64, base: int64, max: int64)
    ensures forall x :: x in was ==>
              AfterBatch(was, ids, |ids|, x, handler, clock, base, max) ==
              if x in ids then Settled(was, x, handler, clock, base, max) else was[x]
  {
    assert ids[..|ids|] == ids;
  }

  lemma BatchStep(was: map<nat, Row>, ids: seq<nat>, i: nat, handler: Claimed -> bool, clock: nat -> int64, base: int64, max: int64)
    requires i < |ids| && ids[i] !in ids[..i] && ids[i] in was
    ensures var id := ids[i];
            var row := AfterBatch(was, ids, i, id, handler, clock, base, max);
            var after := AfterBatch(was, ids, i + 1, id, handler, clock, base, max);
            if handler(AsClaimed(was, id)) then after == row.(status := Delivered)
            else after == row.(status := Pending, nextAt := Saturate(clock(id) + Delay(base, max, was[id].attempts)))
    ensures forall x :: x in was && x != ids[i] ==>
              AfterBatch(was, ids, i + 1, x, handler, clock, base, max) == AfterBatch(was, ids, i, x, handler, clock, base, max)
  {
    assert ids[..i + 1] == ids[..i] + [ids[i]];
  }
}
